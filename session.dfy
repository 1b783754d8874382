/** The session service of the authentication core: issuing a session (only the
    SHA-256 digest of the bearer token is stored), validating it with sliding
    renewal, logging out, revoking every session of a user, and single-use
    password-reset tokens.

    The store is three maps: sessions by `sid_hash`, user roles by user id, reset
    rows by `token_hash`. Each operation is a pure transition function on `Store`
    (the specification, about which the lemmas speak) and a method of the class
    `SessionService` that performs the source's store writes step by step and is
    proved equal to that function. SHA-256 is the `sha256` parameter: any function
    from tokens to digests, assumed injective where a lemma needs it. The clock and
    the random tokens are parameters too. */
module Session {
  import opened Wrappers
  import Text

  type Digest = string
  type UserId = int

  /** Session lifetime in seconds: fifteen days. */
  const TTLSec: nat := 60 * 60 * 24 * 15
  /** The renewal window in seconds; the source gives it the same value as `TTLSec`. */
  const TTLSec5days: nat := 60 * 60 * 24 * 15
  const TTLMs: nat := 1000 * TTLSec
  /** Lifetime of a password-reset token: thirty minutes, in milliseconds. */
  const ResetTTLMs: nat := 1000 * 60 * 30
  const CookieSidKey: string := "__Secure-sid"

  /** A row of the sessions table. There is no field for the plaintext token. */
  datatype SessionRow = SessionRow(userId: UserId, ip: string, ua: string, expiresMs: int, revoked: bool)

  /** A row of the password-reset table, keyed by the token's digest. */
  datatype ResetRow = ResetRow(userId: UserId, ip: string, ua: string, expiresMs: int)

  /** The identity a valid session resolves to; the role is read from the user store. */
  datatype SessionInfo = SessionInfo(userId: UserId, role: string, expiresMs: int)

  /** The result of `validate`: `{valid: false, cookie}` or `{valid: true, cookie, session}`. */
  datatype Validation = Invalid(cookie: string) | Valid(cookie: string, session: SessionInfo)

  datatype Store = Store(sessions: map<Digest, SessionRow>, users: map<UserId, string>, resets: map<Digest, ResetRow>)

  /** `sidCookie(sid, maxAge?)`: the `Set-Cookie` text; `Max-Age` defaults to the TTL. */
  function SidCookie(sid: string, maxAge: Option<nat>): string
  {
    var age := match maxAge case Some(m) => m case None => TTLSec;
    CookieSidKey + "=" + sid + "; Path=/; Max-Age=" + Text.NatToString(age) + "; HttpOnly; Secure; SameSite=Lax"
  }

  /** The cookie every invalid result and every logout carries: empty value, `Max-Age=0`. */
  function ClearingCookie(): string
  {
    SidCookie("", Some(0))
  }

  ghost predicate Injective(sha256: string -> Digest)
  {
    forall a, b :: sha256(a) == sha256(b) ==> a == b
  }

  /** A session that has not been revoked and has not reached its expiry. */
  predicate Live(row: SessionRow, now: int)
  {
    !row.revoked && now < row.expiresMs
  }

  /** How a stored row may change over time: owner and metadata never change, the
      expiry never moves back, and a revoked row never changes again. */
  predicate RowAdvance(r: SessionRow, r': SessionRow)
  {
    && r'.userId == r.userId && r'.ip == r.ip && r'.ua == r.ua
    && r.expiresMs <= r'.expiresMs
    && (r.revoked ==> r' == r)
  }

  /** `revokeSession(sid_hash)`: marks one row revoked; an absent key changes nothing. */
  function RevokeOne(sessions: map<Digest, SessionRow>, h: Digest): (s: map<Digest, SessionRow>)
    ensures s.Keys == sessions.Keys
    ensures h in s ==> s[h] == sessions[h].(revoked := true)
    ensures forall k :: k in sessions && k != h ==> s[k] == sessions[k]
  {
    if h in sessions then sessions[h := sessions[h].(revoked := true)] else sessions
  }

  /** `revokeSessions(user_id)`: marks every row of that user revoked. */
  function RevokeUser(sessions: map<Digest, SessionRow>, uid: UserId): (s: map<Digest, SessionRow>)
    ensures s.Keys == sessions.Keys
    ensures forall k :: k in s ==> s[k].revoked == (sessions[k].revoked || sessions[k].userId == uid)
    ensures forall k :: k in s ==> s[k].(revoked := false) == sessions[k].(revoked := false)
  {
    map k | k in sessions :: if sessions[k].userId == uid then sessions[k].(revoked := true) else sessions[k]
  }

  /** `deleteReset(user_id)`: deletes every reset row of that user. */
  function DeleteResetsOf(resets: map<Digest, ResetRow>, uid: UserId): (r: map<Digest, ResetRow>)
    ensures forall k :: k in r <==> k in resets && resets[k].userId != uid
    ensures forall k :: k in r ==> r[k] == resets[k]
  {
    map k | k in resets && resets[k].userId != uid :: resets[k]
  }

  /** The expiry after the renewal step of `validate`: slid to `now + TTL` inside the
      renewal window, otherwise kept. It never moves back and stays in the future. */
  function RenewedExpiry(expiresMs: int, now: int): (e: int)
    requires now < expiresMs
    ensures expiresMs <= e && now < e
    ensures e == expiresMs || e == now + TTLMs
    ensures now >= expiresMs - TTLMs ==> e == now + TTLMs
  {
    if now >= expiresMs - 1000 * TTLSec5days then now + 1000 * TTLSec else expiresMs
  }

  /** `create`: stores the digest of `sid` with an absolute expiry `now + TTL`. */
  function CreateSpec(st: Store, sha256: string -> Digest, userId: UserId, ip: string, ua: string, sid: string, now: int): (st': Store)
    ensures st'.users == st.users && st'.resets == st.resets
    ensures st'.sessions.Keys == st.sessions.Keys + {sha256(sid)}
    ensures Live(st'.sessions[sha256(sid)], now) && st'.sessions[sha256(sid)].userId == userId
    ensures st'.sessions[sha256(sid)].expiresMs - now == TTLMs
    ensures forall k :: k in st.sessions && k != sha256(sid) ==> st'.sessions[k] == st.sessions[k]
  {
    st.(sessions := st.sessions[sha256(sid) := SessionRow(userId, ip, ua, now + TTLMs, false)])
  }

  /** `validate`, in the source's order: absent or revoked; expired (revoke); sliding
      renewal; user gone (revoke); otherwise valid with the role read afresh. */
  function ValidateSpec(st: Store, sha256: string -> Digest, sid: string, now: int): (res: (Validation, Store))
    ensures res.1.users == st.users && res.1.resets == st.resets
    ensures res.1.sessions.Keys == st.sessions.Keys
    ensures forall k :: k in st.sessions && k != sha256(sid) ==> res.1.sessions[k] == st.sessions[k]
    ensures sha256(sid) in st.sessions ==> RowAdvance(st.sessions[sha256(sid)], res.1.sessions[sha256(sid)])
    ensures res.0.Valid? <==>
      sha256(sid) in st.sessions && Live(st.sessions[sha256(sid)], now) && st.sessions[sha256(sid)].userId in st.users
    ensures res.0.Invalid? ==> res.0.cookie == ClearingCookie()
    ensures res.0.Invalid? && sha256(sid) in st.sessions ==> res.1.sessions[sha256(sid)].revoked
    ensures res.0.Valid? ==>
      var row := res.1.sessions[sha256(sid)];
      var info := res.0.session;
      && Live(row, now) && row.userId == info.userId && row.expiresMs == info.expiresMs
      && info.role == st.users[info.userId]
      && res.0.cookie == SidCookie(sid, Some((info.expiresMs - now) / 1000))
  {
    var h := sha256(sid);
    if h !in st.sessions || st.sessions[h].revoked then (Invalid(ClearingCookie()), st)
    else
      var row := st.sessions[h];
      if now >= row.expiresMs then (Invalid(ClearingCookie()), st.(sessions := RevokeOne(st.sessions, h)))
      else
        var e := RenewedExpiry(row.expiresMs, now);
        var renewed := st.sessions[h := row.(expiresMs := e)];
        if row.userId !in st.users then (Invalid(ClearingCookie()), st.(sessions := RevokeOne(renewed, h)))
        else
          (Valid(SidCookie(sid, Some((e - now) / 1000)), SessionInfo(row.userId, st.users[row.userId], e)),
           st.(sessions := renewed))
  }

  /** `invalidate(sid?)`: revokes the session of a non-empty `sid`; nothing else changes.
      `revokeFails` says the store's revoke threw: the empty `catch` swallows the
      error and the store stays as it was. */
  function InvalidateSpec(st: Store, sha256: string -> Digest, sid: Option<string>, revokeFails: bool): (st': Store)
    ensures st'.users == st.users && st'.resets == st.resets && st'.sessions.Keys == st.sessions.Keys
    ensures !revokeFails && sid.Some? && sid.value != "" && sha256(sid.value) in st.sessions ==> st'.sessions[sha256(sid.value)].revoked
    ensures revokeFails ==> st' == st
    ensures forall k :: k in st.sessions ==> RowAdvance(st.sessions[k], st'.sessions[k])
    ensures forall k :: k in st.sessions && (sid.None? || sid.value == "" || k != sha256(sid.value)) ==>
      st'.sessions[k] == st.sessions[k]
  {
    if !revokeFails && sid.Some? && sid.value != "" then st.(sessions := RevokeOne(st.sessions, sha256(sid.value))) else st
  }

  /** `invalidateAll(userId)`: every session of the user is revoked, no other row changes. */
  function InvalidateAllSpec(st: Store, uid: UserId): (st': Store)
    ensures st'.users == st.users && st'.resets == st.resets && st'.sessions.Keys == st.sessions.Keys
    ensures forall k :: k in st.sessions ==> RowAdvance(st.sessions[k], st'.sessions[k])
    ensures forall k :: k in st.sessions && st.sessions[k].userId == uid ==> st'.sessions[k].revoked
    ensures forall k :: k in st.sessions && st.sessions[k].userId != uid ==> st'.sessions[k] == st.sessions[k]
  {
    st.(sessions := RevokeUser(st.sessions, uid))
  }

  /** `resetToken`: stores the digest of `token` with a thirty-minute expiry. */
  function ResetTokenSpec(st: Store, sha256: string -> Digest, userId: UserId, ip: string, ua: string, token: string, now: int): (st': Store)
    ensures st'.users == st.users && st'.sessions == st.sessions
    ensures st'.resets.Keys == st.resets.Keys + {sha256(token)}
    ensures st'.resets[sha256(token)].userId == userId && st'.resets[sha256(token)].expiresMs == now + ResetTTLMs
    ensures forall k :: k in st.resets && k != sha256(token) ==> st'.resets[k] == st.resets[k]
  {
    st.(resets := st.resets[sha256(token) := ResetRow(userId, ip, ua, now + ResetTTLMs)])
  }

  /** `validateToken`: an unknown or expired token gives `None` and changes nothing (the
      two cases are indistinguishable); otherwise every session of the owner is revoked,
      every reset row of the owner is deleted, and the owner is returned. */
  function ValidateTokenSpec(st: Store, sha256: string -> Digest, token: string, now: int): (res: (Option<UserId>, Store))
    ensures res.0.Some? <==> sha256(token) in st.resets && now <= st.resets[sha256(token)].expiresMs
    ensures res.0.None? ==> res.1 == st
    ensures res.0.Some? ==>
      var uid := res.0.value;
      && uid == st.resets[sha256(token)].userId
      && res.1.users == st.users
      && sha256(token) !in res.1.resets
      && (forall k :: k in res.1.resets ==> res.1.resets[k].userId != uid)
      && res.1.resets == DeleteResetsOf(st.resets, uid)
      && res.1.sessions == InvalidateAllSpec(st, uid).sessions
  {
    var h := sha256(token);
    if h !in st.resets then (None, st)
    else if now > st.resets[h].expiresMs then (None, st)
    else
      var uid := st.resets[h].userId;
      (Some(uid), st.(sessions := RevokeUser(st.sessions, uid), resets := DeleteResetsOf(st.resets, uid)))
  }

  /** The session service over its store. Each method performs the source's store
      writes in order and is proved equal to its transition function. */
  class SessionService {
    const sha256: string -> Digest
    var sessions: map<Digest, SessionRow>
    var users: map<UserId, string>
    var resets: map<Digest, ResetRow>

    constructor (sha256: string -> Digest, users: map<UserId, string>)
      ensures this.sha256 == sha256 && State() == Store(map[], users, map[])
    {
      this.sha256 := sha256;
      this.sessions := map[];
      this.users := users;
      this.resets := map[];
    }

    function State(): Store
      reads this
    {
      Store(sessions, users, resets)
    }

    /** `create`: the plaintext `sid` leaves only inside the returned cookie. */
    method Create(userId: UserId, ip: string, ua: string, sid: string, now: int) returns (cookie: string)
      modifies this`sessions
      ensures State() == CreateSpec(old(State()), sha256, userId, ip, ua, sid, now)
      ensures cookie == SidCookie(sid, None)
    {
      var sidHash := sha256(sid);
      var expiresMs := now + TTLSec * 1000;
      sessions := sessions[sidHash := SessionRow(userId, ip, ua, expiresMs, false)];
      cookie := SidCookie(sid, None);
    }

    method Validate(sid: string, now: int) returns (v: Validation)
      modifies this`sessions
      ensures (v, State()) == ValidateSpec(old(State()), sha256, sid, now)
    {
      var sidHash := sha256(sid);
      if sidHash !in sessions || sessions[sidHash].revoked {
        return Invalid(SidCookie("", Some(0)));
      }
      var session := sessions[sidHash];
      var expiresMs := session.expiresMs;
      if now >= expiresMs {
        sessions := RevokeOne(sessions, sidHash);
        return Invalid(SidCookie("", Some(0)));
      }
      if now >= expiresMs - 1000 * TTLSec5days {
        var expiresMsUpdate := now + 1000 * TTLSec;
        sessions := sessions[sidHash := sessions[sidHash].(expiresMs := expiresMsUpdate)];
        expiresMs := expiresMsUpdate;
      }
      assert expiresMs == RenewedExpiry(session.expiresMs, now);
      assert sessions == old(sessions)[sidHash := session.(expiresMs := expiresMs)];
      if session.userId !in users {
        sessions := RevokeOne(sessions, sidHash);
        return Invalid(SidCookie("", Some(0)));
      }
      var maxAge := (expiresMs - now) / 1000;
      v := Valid(SidCookie(sid, Some(maxAge)), SessionInfo(session.userId, users[session.userId], expiresMs));
    }

    /** `invalidate`: always answers with the clearing cookie, also when the revoke
        throws (`revokeFails`), in which case the session stays as it was. */
    method Invalidate(sid: Option<string>, revokeFails: bool) returns (cookie: string)
      modifies this`sessions
      ensures State() == InvalidateSpec(old(State()), sha256, sid, revokeFails)
      ensures cookie == ClearingCookie()
    {
      cookie := SidCookie("", Some(0));
      if sid.Some? && sid.value != "" {
        var sidHash := sha256(sid.value);
        if !revokeFails {
          sessions := RevokeOne(sessions, sidHash);
        }
      }
    }

    method InvalidateAll(userId: UserId)
      modifies this`sessions
      ensures State() == InvalidateAllSpec(old(State()), userId)
    {
      sessions := RevokeUser(sessions, userId);
    }

    /** `resetToken`: the plaintext token is returned, only its digest is stored. */
    method ResetToken(userId: UserId, ip: string, ua: string, token: string, now: int) returns (issued: string)
      modifies this`resets
      ensures State() == ResetTokenSpec(old(State()), sha256, userId, ip, ua, token, now)
      ensures issued == token
    {
      var tokenHash := sha256(token);
      var expiresMs := now + 1000 * 60 * 30;
      resets := resets[tokenHash := ResetRow(userId, ip, ua, expiresMs)];
      issued := token;
    }

    method ValidateToken(token: string, now: int) returns (owner: Option<UserId>)
      modifies this`sessions, this`resets
      ensures (owner, State()) == ValidateTokenSpec(old(State()), sha256, token, now)
    {
      var tokenHash := sha256(token);
      if tokenHash !in resets {
        return None;
      }
      var reset := resets[tokenHash];
      if now > reset.expiresMs {
        return None;
      }
      sessions := RevokeUser(sessions, reset.userId);
      resets := DeleteResetsOf(resets, reset.userId);
      owner := Some(reset.userId);
    }
  }

  /** The operations a client of the service can invoke, for reasoning about sequences
      of calls. */
  datatype Op =
    | Login(userId: UserId, ip: string, ua: string, sid: string)
    | Check(checkSid: string)
    | Logout(logoutSid: Option<string>, revokeFails: bool)
    | LogoutEverywhere(everywhereUser: UserId)
    | RequestReset(resetUser: UserId, resetIp: string, resetUa: string, token: string)
    | ConsumeReset(consumeToken: string)

  datatype Event = Event(op: Op, now: int)

  function Step(st: Store, sha256: string -> Digest, e: Event): Store
  {
    match e.op
    case Login(u, ip, ua, sid) => CreateSpec(st, sha256, u, ip, ua, sid, e.now)
    case Check(sid) => ValidateSpec(st, sha256, sid, e.now).1
    case Logout(sid, fails) => InvalidateSpec(st, sha256, sid, fails)
    case LogoutEverywhere(u) => InvalidateAllSpec(st, u)
    case RequestReset(u, ip, ua, t) => ResetTokenSpec(st, sha256, u, ip, ua, t, e.now)
    case ConsumeReset(t) => ValidateTokenSpec(st, sha256, t, e.now).1
  }

  /** The store after the events, applied in order. */
  function Run(st: Store, sha256: string -> Digest, events: seq<Event>): Store
  {
    if events == [] then st else Step(Run(st, sha256, events[..|events| - 1]), sha256, events[|events| - 1])
  }

  predicate CreatesDigest(e: Event, sha256: string -> Digest, h: Digest)
  {
    e.op.Login? && sha256(e.op.sid) == h
  }

  lemma StepAdvances(st: Store, sha256: string -> Digest, e: Event, h: Digest)
    requires h in st.sessions && !CreatesDigest(e, sha256, h)
    ensures h in Step(st, sha256, e).sessions
    ensures RowAdvance(st.sessions[h], Step(st, sha256, e).sessions[h])
  {
  }

  /** Across any sequence of calls that does not issue a session with the same digest,
      a stored session stays stored, keeps its owner, its expiry never decreases, and
      once revoked it never changes again. */
  lemma {:induction false} RunAdvances(st: Store, sha256: string -> Digest, events: seq<Event>, h: Digest)
    requires h in st.sessions
    requires forall i :: 0 <= i < |events| ==> !CreatesDigest(events[i], sha256, h)
    ensures h in Run(st, sha256, events).sessions
    ensures RowAdvance(st.sessions[h], Run(st, sha256, events).sessions[h])
  {
    if events != [] {
      var prefix := events[..|events| - 1];
      RunAdvances(st, sha256, prefix, h);
      StepAdvances(Run(st, sha256, prefix), sha256, events[|events| - 1], h);
    }
  }

  /** Revocation is terminal: once the session of `sid` is revoked, no later sequence
      of calls that does not log in again with the same token makes it valid, and
      validating it changes nothing. */
  lemma RevocationTerminal(st: Store, sha256: string -> Digest, sid: string, events: seq<Event>, now: int)
    requires Injective(sha256)
    requires sha256(sid) in st.sessions && st.sessions[sha256(sid)].revoked
    requires forall i :: 0 <= i < |events| ==> !(events[i].op.Login? && events[i].op.sid == sid)
    ensures ValidateSpec(Run(st, sha256, events), sha256, sid, now).0.Invalid?
    ensures ValidateSpec(Run(st, sha256, events), sha256, sid, now).1 == Run(st, sha256, events)
  {
    RunAdvances(st, sha256, events, sha256(sid));
  }

  /** The expiry boundary: a live session of an existing user is valid one millisecond
      before its expiry; at its expiry it is invalid and gets revoked, so any later
      validation is invalid too. */
  lemma ExpiryBoundary(st: Store, sha256: string -> Digest, sid: string, later: int)
    requires sha256(sid) in st.sessions && !st.sessions[sha256(sid)].revoked
    requires st.sessions[sha256(sid)].userId in st.users
    ensures var e := st.sessions[sha256(sid)].expiresMs;
      && ValidateSpec(st, sha256, sid, e - 1).0.Valid?
      && ValidateSpec(st, sha256, sid, e).0.Invalid?
      && ValidateSpec(ValidateSpec(st, sha256, sid, e).1, sha256, sid, later).0.Invalid?
  {
  }

  /** Every stored session was issued or renewed no later than `t`. */
  predicate WrittenBy(st: Store, t: int)
  {
    forall k :: k in st.sessions ==> st.sessions[k].expiresMs <= t + TTLMs
  }

  /** Because the renewal window equals the TTL, a validation that succeeds always
      renews: the expiry becomes `now + TTL` and the cookie carries the full TTL. */
  lemma RenewalAlwaysTaken(st: Store, sha256: string -> Digest, sid: string, now: int)
    requires WrittenBy(st, now)
    requires ValidateSpec(st, sha256, sid, now).0.Valid?
    ensures ValidateSpec(st, sha256, sid, now).0.session.expiresMs == now + TTLMs
    ensures ValidateSpec(st, sha256, sid, now).0.cookie == SidCookie(sid, Some(TTLSec))
  {
    var row := st.sessions[sha256(sid)];
    assert row.expiresMs <= now + TTLMs;
    var e := RenewedExpiry(row.expiresMs, now);
    assert e == now + TTLMs;
    assert ValidateSpec(st, sha256, sid, now).0 == Valid(SidCookie(sid, Some((e - now) / 1000)), SessionInfo(row.userId, st.users[row.userId], e));
    assert (e - now) / 1000 == TTLSec;
  }

  /** `validate` leaves every expiry as it was, except that it may slide the caller's
      to `now + TTL`. */
  lemma ValidateExpiries(st: Store, sha256: string -> Digest, sid: string, now: int)
    ensures var s' := ValidateSpec(st, sha256, sid, now).1.sessions;
      forall k :: k in s' ==> s'[k].expiresMs == st.sessions[k].expiresMs || s'[k].expiresMs == now + TTLMs
  {
  }

  lemma StepWrittenBy(st: Store, sha256: string -> Digest, e: Event, t: int)
    requires WrittenBy(st, t) && t <= e.now
    ensures WrittenBy(Step(st, sha256, e), e.now)
  {
    match e.op {
      case Login(u, ip, ua, sid) =>
      case Check(sid) =>
        ValidateExpiries(st, sha256, sid, e.now);
      case Logout(sid, fails) =>
      case LogoutEverywhere(u) =>
      case RequestReset(u, ip, ua, token) =>
      case ConsumeReset(token) =>
        var res := ValidateTokenSpec(st, sha256, token, e.now);
        if res.0.Some? {
          assert res.1.sessions == RevokeUser(st.sessions, res.0.value);
        }
    }
  }

  /** With a clock that never goes back, every stored session stays within one TTL
      of the latest call, so every successful validation of a run takes the renewal
      branch (the renewal window `TTLSec5days` equals the TTL `TTLSec`). */
  lemma {:induction false} RunWrittenBy(st: Store, sha256: string -> Digest, events: seq<Event>, t: int)
    requires WrittenBy(st, t)
    requires forall i :: 0 <= i < |events| ==> t <= events[i].now
    requires forall i, j :: 0 <= i < j < |events| ==> events[i].now <= events[j].now
    ensures WrittenBy(Run(st, sha256, events), if events == [] then t else events[|events| - 1].now)
  {
    if events != [] {
      var prefix := events[..|events| - 1];
      RunWrittenBy(st, sha256, prefix, t);
      StepWrittenBy(Run(st, sha256, prefix), sha256, events[|events| - 1],
        if prefix == [] then t else prefix[|prefix| - 1].now);
    }
  }

  /** A logout whose revoke succeeds ends the session: it no longer validates. */
  lemma LogoutRejects(st: Store, sha256: string -> Digest, sid: string, now: int)
    requires sid != ""
    ensures ValidateSpec(InvalidateSpec(st, sha256, Some(sid), false), sha256, sid, now).0.Invalid?
  {
  }

  /** A logout whose revoke throws still clears the cookie, but the session stays:
      validating it afterwards answers exactly as before the logout. */
  lemma FailedLogoutKeepsSession(st: Store, sha256: string -> Digest, sid: Option<string>, sid2: string, now: int)
    ensures ValidateSpec(InvalidateSpec(st, sha256, sid, true), sha256, sid2, now) == ValidateSpec(st, sha256, sid2, now)
  {
  }

  /** After `invalidateAll(user)` every session of that user validates as invalid. */
  lemma InvalidateAllRejects(st: Store, sha256: string -> Digest, uid: UserId, sid: string, now: int)
    requires sha256(sid) in st.sessions && st.sessions[sha256(sid)].userId == uid
    ensures ValidateSpec(InvalidateAllSpec(st, uid), sha256, sid, now).0.Invalid?
  {
  }

  lemma StepKeepsConsumed(st: Store, sha256: string -> Digest, e: Event, token: string)
    requires Injective(sha256)
    requires sha256(token) !in st.resets
    requires !(e.op.RequestReset? && e.op.token == token)
    ensures sha256(token) !in Step(st, sha256, e).resets
  {
  }

  /** A reset token succeeds at most once: after it has been consumed, no sequence of
      calls that does not issue the same token again lets it succeed. */
  lemma {:induction false} ResetAtMostOnce(st: Store, sha256: string -> Digest, token: string, now: int, events: seq<Event>, later: int)
    requires Injective(sha256)
    requires ValidateTokenSpec(st, sha256, token, now).0.Some?
    requires forall i :: 0 <= i < |events| ==> !(events[i].op.RequestReset? && events[i].op.token == token)
    ensures ValidateTokenSpec(Run(ValidateTokenSpec(st, sha256, token, now).1, sha256, events), sha256, token, later).0.None?
  {
    var st1 := ValidateTokenSpec(st, sha256, token, now).1;
    ConsumedStaysConsumed(st1, sha256, token, events);
  }

  lemma {:induction false} ConsumedStaysConsumed(st: Store, sha256: string -> Digest, token: string, events: seq<Event>)
    requires Injective(sha256)
    requires sha256(token) !in st.resets
    requires forall i :: 0 <= i < |events| ==> !(events[i].op.RequestReset? && events[i].op.token == token)
    ensures sha256(token) !in Run(st, sha256, events).resets
  {
    if events != [] {
      var prefix := events[..|events| - 1];
      ConsumedStaysConsumed(st, sha256, token, prefix);
      StepKeepsConsumed(Run(st, sha256, prefix), sha256, events[|events| - 1], token);
    }
  }

  /** Consuming a reset token ends every session of its owner. */
  lemma ConsumeRevokesSessions(st: Store, sha256: string -> Digest, token: string, now: int, sid: string, later: int)
    requires ValidateTokenSpec(st, sha256, token, now).0.Some?
    requires sha256(sid) in st.sessions
    requires st.sessions[sha256(sid)].userId == ValidateTokenSpec(st, sha256, token, now).0.value
    ensures ValidateSpec(ValidateTokenSpec(st, sha256, token, now).1, sha256, sid, later).0.Invalid?
  {
  }
}
