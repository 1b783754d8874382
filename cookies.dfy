/** `parseCookie`: the request's `Cookie` header (the `name=value; name=value` form
    of section 5.4 of RFC 6265) turned into a dictionary. The header is split on
    `;`, every piece trimmed and empty pieces skipped; a piece splits at its first
    `=` into a trimmed key and a trimmed value (a piece without `=` is a key with
    the empty value); an empty key is skipped and a later key overwrites an
    earlier one. The dictionary is a `{}` literal, so the key `__proto__` reaches
    the prototype setter instead, which ignores a string: that piece is lost. */
module Cookies {
  import opened Wrappers
  import Text

  /** The key of a trimmed, non-empty piece: up to the first `=`, trimmed. */
  function PieceKey(pair: string): string
  {
    var i := Text.IndexOf(pair, '=');
    if i == -1 then pair else Text.Trim(pair[..i])
  }

  /** The value of a trimmed piece: after the first `=`, trimmed; "" without `=`. */
  function PieceValue(pair: string): string
  {
    var i := Text.IndexOf(pair, '=');
    if i == -1 then "" else Text.Trim(pair[i + 1..])
  }

  /** The one key that `cookies[key] = value` on a `{}` literal does not store: it
      names the prototype setter, which ignores a string. */
  const ProtoKey: string := "__proto__"

  /** One iteration of the loop: the dictionary after looking at `segment`
      (`AddPieceKeys`). */
  function AddPiece(cookies: map<string, string>, segment: string): map<string, string>
  {
    var pair := Text.Trim(segment);
    if pair == "" then cookies
    else
      var key := PieceKey(pair);
      if key == "" || key == ProtoKey then cookies else cookies[key := PieceValue(pair)]
  }

  /** Only the segment's own key can be added or changed, and that key is never
      empty, never `__proto__` and never has surrounding whitespace. */
  lemma AddPieceKeys(cookies: map<string, string>, segment: string)
    ensures var r := AddPiece(cookies, segment);
      && (forall k :: k in r && k !in cookies ==> k != "" && k != ProtoKey && Text.Trimmed(k))
      && (forall k :: k in cookies ==> k in r && (k == PieceKey(Text.Trim(segment)) || r[k] == cookies[k]))
  {
    var pair := Text.Trim(segment);
    if pair != "" {
      var key := PieceKey(pair);
      PieceKeyTrimmed(pair);
      if key != "" && key != ProtoKey {
        assert AddPiece(cookies, segment) == cookies[key := PieceValue(pair)];
        UpdateKeys(cookies, key, PieceValue(pair));
      } else {
        assert AddPiece(cookies, segment) == cookies;
      }
    }
  }

  lemma PieceKeyTrimmed(pair: string)
    requires Text.Trimmed(pair)
    ensures Text.Trimmed(PieceKey(pair))
  {
  }

  lemma UpdateKeys(cookies: map<string, string>, key: string, value: string)
    requires key != "" && key != ProtoKey && Text.Trimmed(key)
    ensures var r := cookies[key := value];
      && (forall k :: k in r && k !in cookies ==> k != "" && k != ProtoKey && Text.Trimmed(k))
      && (forall k :: k in cookies ==> k in r && (k == key || r[k] == cookies[k]))
  {
  }

  /** The dictionary after the loop has looked at every piece, in order. */
  function FoldPieces(pieces: seq<string>): map<string, string>
  {
    if pieces == [] then map[] else AddPiece(FoldPieces(pieces[..|pieces| - 1]), pieces[|pieces| - 1])
  }

  /** Every key the loop stores is non-empty, not `__proto__`, and has no surrounding
      whitespace. */
  lemma {:induction false} FoldPiecesKeys(pieces: seq<string>)
    ensures forall k :: k in FoldPieces(pieces) ==> k != "" && k != ProtoKey && Text.Trimmed(k)
  {
    if pieces != [] {
      FoldPiecesKeys(pieces[..|pieces| - 1]);
      AddPieceKeys(FoldPieces(pieces[..|pieces| - 1]), pieces[|pieces| - 1]);
    }
  }

  /** What `parseCookie(header)` returns; an absent or empty header gives `{}`. */
  function CookieMap(header: Option<string>): map<string, string>
  {
    if header.None? || header.value == "" then map[] else FoldPieces(Text.Split(header.value, ';'))
  }

  method ParseCookie(cookieHeader: Option<string>) returns (cookies: map<string, string>)
    ensures cookies == CookieMap(cookieHeader)
    ensures forall k :: k in cookies ==> k != "" && k != ProtoKey && Text.Trimmed(k)
  {
    cookies := map[];
    if cookieHeader.None? || cookieHeader.value == "" {
      return;
    }
    var cookiePairs := Text.Split(cookieHeader.value, ';');
    for n := 0 to |cookiePairs|
      invariant cookies == FoldPieces(cookiePairs[..n])
    {
      FoldPrefix(cookiePairs, n);
      ghost var next := AddPiece(cookies, cookiePairs[n]);
      var pair := Text.Trim(cookiePairs[n]);
      if pair == "" {
        assert next == cookies;
        continue;
      }
      var indexOfFirstEquals := Text.IndexOf(pair, '=');
      var key := if indexOfFirstEquals == -1 then pair else Text.Trim(pair[..indexOfFirstEquals]);
      var value := if indexOfFirstEquals == -1 then "" else Text.Trim(pair[indexOfFirstEquals + 1..]);
      assert key == PieceKey(pair) && value == PieceValue(pair);
      if key == "" {
        assert next == cookies;
        continue;
      }
      if key != ProtoKey {
        cookies := cookies[key := value];
      }
      assert cookies == next;
    }
    assert cookiePairs[..|cookiePairs|] == cookiePairs;
    FoldPiecesKeys(cookiePairs);
  }

  /** The loop's step: one more piece is one more `AddPiece`. */
  lemma FoldPrefix(pieces: seq<string>, n: nat)
    requires n < |pieces|
    ensures FoldPieces(pieces[..n + 1]) == AddPiece(FoldPieces(pieces[..n]), pieces[n])
  {
    assert pieces[..n + 1][..n] == pieces[..n];
  }

  /** A piece without `=` names a cookie with the empty value. */
  lemma PieceWithoutEquals(header: string)
    requires '=' !in header && ';' !in header && Text.Trim(header) != ""
    ensures CookieMap(Some(header)) == if Text.Trim(header) == ProtoKey then map[] else map[Text.Trim(header) := ""]
  {
    assert Text.Split(header, ';') == [header];
    assert [header][..0] == [];
    var pair := Text.Trim(header);
    Text.TrimKeepsOut(header, '=');
    assert PieceKey(pair) == pair && PieceValue(pair) == "";
    assert header != "";
    assert FoldPieces([header]) == AddPiece(map[], header);
  }

  /** A `__proto__=v` piece leaves the dictionary as it was, whatever `v` is. */
  lemma ProtoPieceIgnored(cookies: map<string, string>, v: string)
    requires Text.Trimmed(v)
    ensures AddPiece(cookies, ProtoKey + "=" + v) == cookies
  {
    var s := ProtoKey + "=" + v;
    assert s == ProtoKey + ['='] + v;
    assert '=' !in ProtoKey;
    Text.IndexOfSeparator(ProtoKey, '=', v);
    assert Text.Trimmed(ProtoKey);
    assert Text.Trimmed(s) by {
      assert s[0] == '_';
      if v == "" { assert s[|s| - 1] == '='; } else { assert s[|s| - 1] == v[|v| - 1]; }
    }
    Text.TrimOfTrimmed(s);
    assert s[..|ProtoKey|] == ProtoKey;
    Text.TrimOfTrimmed(ProtoKey);
    assert PieceKey(s) == ProtoKey;
  }

  /** A cookie name and value that a `name=value` pair carries unchanged: a non-empty
      name other than `__proto__` without `;`, `=` or surrounding whitespace, a value
      without `;` or surrounding whitespace (it may contain `=`). */
  predicate CleanPair(p: (string, string))
  {
    && p.0 != "" && p.0 != ProtoKey && ';' !in p.0 && '=' !in p.0 && Text.Trimmed(p.0)
    && ';' !in p.1 && Text.Trimmed(p.1)
  }

  function PairText(p: (string, string)): string
  {
    p.0 + "=" + p.1
  }

  /** The `Cookie` header a client sends for `pairs`: `n1=v1; n2=v2; ...`. */
  function Serialize(pairs: seq<(string, string)>): string
  {
    if |pairs| == 0 then ""
    else if |pairs| == 1 then PairText(pairs[0])
    else Serialize(pairs[..|pairs| - 1]) + "; " + PairText(pairs[|pairs| - 1])
  }

  /** The dictionary the pairs denote, a later name overriding an earlier one. */
  function ToMap(pairs: seq<(string, string)>): map<string, string>
  {
    if pairs == [] then map[] else ToMap(pairs[..|pairs| - 1])[pairs[|pairs| - 1].0 := pairs[|pairs| - 1].1]
  }

  /** A clean pair's text neither starts nor ends with whitespace. */
  lemma PairTextTrimmed(p: (string, string))
    requires CleanPair(p)
    ensures Text.Trimmed(PairText(p)) && PairText(p) != ""
  {
    var s := PairText(p);
    assert s == p.0 + ['='] + p.1;
    assert s[0] == p.0[0];
    if p.1 == "" {
      assert s[|s| - 1] == '=';
    } else {
      assert s[|s| - 1] == p.1[|p.1| - 1];
    }
  }

  /** A clean pair's text splits back, at its first `=`, into its name and value. */
  lemma PairTextParts(p: (string, string))
    requires CleanPair(p)
    ensures PieceKey(PairText(p)) == p.0 && PieceValue(PairText(p)) == p.1
  {
    var s := PairText(p);
    assert s == p.0 + ['='] + p.1;
    Text.IndexOfSeparator(p.0, '=', p.1);
    PairTextKey(s, p.0, p.1);
    PairTextValue(s, p.0, p.1);
  }

  lemma PairTextKey(s: string, key: string, value: string)
    requires s == key + ['='] + value && Text.Trimmed(key) && Text.IndexOf(s, '=') == |key|
    ensures PieceKey(s) == key
  {
    assert s[..|key|] == key;
    Text.TrimOfTrimmed(key);
  }

  lemma PairTextValue(s: string, key: string, value: string)
    requires s == key + ['='] + value && Text.Trimmed(value) && Text.IndexOf(s, '=') == |key|
    ensures PieceValue(s) == value
  {
    assert s[|key| + 1..] == value;
    Text.TrimOfTrimmed(value);
  }

  lemma AddCleanPiece(cookies: map<string, string>, p: (string, string), lead: string)
    requires CleanPair(p) && Text.AllSpace(lead)
    ensures AddPiece(cookies, lead + PairText(p)) == cookies[p.0 := p.1]
  {
    var s := PairText(p);
    PairTextTrimmed(p);
    PairTextParts(p);
    Text.TrimOfTrimmed(s);
    TrimSpacePrefix(lead, s);
  }

  lemma {:induction false} TrimSpacePrefix(lead: string, s: string)
    requires Text.AllSpace(lead)
    ensures Text.Trim(lead + s) == Text.Trim(s)
  {
    if lead == [] {
      assert lead + s == s;
    } else {
      assert lead + s == [lead[0]] + (lead[1..] + s);
      Text.TrimLeadingSpace(lead[0], lead[1..] + s);
      TrimSpacePrefix(lead[1..], s);
    }
  }

  lemma FoldPiecesSnoc(pieces: seq<string>, b: string)
    ensures FoldPieces(pieces + [b]) == AddPiece(FoldPieces(pieces), b)
  {
    assert (pieces + [b])[..|pieces|] == pieces;
  }

  lemma SerializeSnoc(pairs: seq<(string, string)>)
    requires |pairs| >= 2 && CleanPair(pairs[|pairs| - 1])
    ensures Text.Split(Serialize(pairs), ';')
         == Text.Split(Serialize(pairs[..|pairs| - 1]), ';') + [" " + PairText(pairs[|pairs| - 1])]
  {
    var a := Serialize(pairs[..|pairs| - 1]);
    var p := PairText(pairs[|pairs| - 1]);
    assert Serialize(pairs) == a + "; " + p;
    SeparatorSplits(a, p);
    PairTextNoSemicolon(pairs[|pairs| - 1]);
    Text.SplitAppend(a, ';', " " + p);
  }

  lemma SeparatorSplits(a: string, p: string)
    ensures a + "; " + p == a + [';'] + (" " + p)
  {
  }

  lemma PairTextNoSemicolon(p: (string, string))
    requires CleanPair(p)
    ensures ';' !in " " + PairText(p)
  {
    assert " " + PairText(p) == [' '] + p.0 + ['='] + p.1;
  }

  lemma SerializeOne(p: (string, string))
    requires CleanPair(p)
    ensures FoldPieces(Text.Split(Serialize([p]), ';')) == ToMap([p])
  {
    assert ';' !in PairText(p);
    assert Text.Split(PairText(p), ';') == [PairText(p)];
    assert FoldPieces([PairText(p)]) == AddPiece(map[], PairText(p)) by {
      FoldPiecesSnoc([], PairText(p));
    }
    assert "" + PairText(p) == PairText(p);
    AddCleanPiece(map[], p, "");
    assert ToMap([p]) == map[][p.0 := p.1] by {
      assert [p][..0] == [];
    }
  }

  lemma {:induction false} FoldSerialize(pairs: seq<(string, string)>)
    requires |pairs| >= 1
    requires forall i :: 0 <= i < |pairs| ==> CleanPair(pairs[i])
    ensures FoldPieces(Text.Split(Serialize(pairs), ';')) == ToMap(pairs)
  {
    var n := |pairs|;
    if n == 1 {
      assert pairs == [pairs[0]];
      SerializeOne(pairs[0]);
    } else {
      var last := pairs[n - 1];
      var prefix := pairs[..n - 1];
      SerializeSnoc(pairs);
      FoldPiecesSnoc(Text.Split(Serialize(prefix), ';'), " " + PairText(last));
      FoldSerialize(prefix);
      assert Text.AllSpace(" ");
      AddCleanPiece(ToMap(prefix), last, " ");
    }
  }

  /** Round trip: parsing the header a client builds from clean `name=value` pairs
      gives exactly their dictionary. Values may contain `=`, and when a name repeats
      the later pair wins. */
  lemma ParseSerialize(pairs: seq<(string, string)>)
    requires forall i :: 0 <= i < |pairs| ==> CleanPair(pairs[i])
    ensures CookieMap(Some(Serialize(pairs))) == ToMap(pairs)
  {
    if pairs != [] {
      FoldSerialize(pairs);
      SerializeNonEmpty(pairs);
    }
  }

  lemma SerializeNonEmpty(pairs: seq<(string, string)>)
    requires pairs != []
    ensures Serialize(pairs) != ""
  {
    var p := pairs[|pairs| - 1];
    assert |PairText(p)| >= 1;
  }
}
