/** The input validators: each takes an arbitrary JavaScript value and returns the
    cleaned value or `undefined` (here `None`); `required(fn, error)` turns
    `undefined` into a 422 `RouteError`. */
module Validate {
  import opened Wrappers
  import Text
  import Http

  /** A JavaScript value as the validators see it. Numbers are the integers (the
      only numbers a validator here tells apart are 0 and 1); `Func` stands for
      every other value whose `typeof` is not `"object"` (functions, symbols). */
  datatype JsValue =
    | Undefined
    | Null
    | Bool(b: bool)
    | Num(n: int)
    | Str(s: string)
    | Arr(items: seq<JsValue>)
    | Obj(fields: map<string, JsValue>)
    | Func

  /** JavaScript truthiness (`if (v)`). */
  predicate Truthy(v: JsValue)
  {
    match v
    case Undefined => false
    case Null => false
    case Bool(b) => b
    case Num(n) => n != 0
    case Str(s) => s != ""
    case _ => true
  }

  /** `string(x)`: a string that is not all whitespace, trimmed; otherwise `undefined`. */
  function AsString(x: JsValue): (r: Option<string>)
    ensures r.Some? <==> x.Str? && !Text.AllSpace(x.s)
    ensures r.Some? ==> r.value != "" && Text.Trimmed(r.value) && |r.value| <= |x.s|
  {
    if !x.Str? || Text.Trim(x.s) == "" then None
    else Some(Text.Trim(x.s))
  }

  /** Applying `string` to its own result changes nothing. */
  lemma AsStringIdempotent(x: JsValue)
    requires AsString(x).Some?
    ensures AsString(Str(AsString(x).value)) == AsString(x)
  {
    Text.TrimOfTrimmed(AsString(x).value);
  }

  /** The inputs `boolean` accepts as true, and those it accepts as false. */
  predicate TrueInput(x: JsValue)
  {
    x == Bool(true) || x == Str("true") || x == Num(1) || x == Str("1") || x == Str("on")
  }

  predicate FalseInput(x: JsValue)
  {
    x == Bool(false) || x == Str("false") || x == Num(0) || x == Str("0") || x == Str("off")
  }

  /** `boolean(x)`: a true-like input is returned as it is (not turned into `true`),
      a false-like input becomes `false`, anything else is `undefined`. */
  function AsBoolean(x: JsValue): (r: Option<JsValue>)
    ensures r.Some? <==> TrueInput(x) || FalseInput(x)
    ensures TrueInput(x) ==> r == Some(x)
    ensures FalseInput(x) ==> r == Some(Bool(false))
  {
    if x == Bool(true) || x == Str("true") || x == Num(1) || x == Str("1") || x == Str("on") then Some(x)
    else if x == Bool(false) || x == Str("false") || x == Num(0) || x == Str("0") || x == Str("off") then Some(Bool(false))
    else None
  }

  /** Although a true-like input comes back unnormalised, what comes back is truthy
      exactly when the input was true-like, so `if (v.boolean(x))` decides as meant. */
  lemma AsBooleanTruthy(x: JsValue)
    requires AsBoolean(x).Some?
    ensures Truthy(AsBoolean(x).value) <==> TrueInput(x)
  {
  }

  /** `object(x)`: the fields of a non-null, non-array object; otherwise `undefined`. */
  function AsObject(x: JsValue): (r: Option<map<string, JsValue>>)
    ensures r.Some? <==> x.Obj?
    ensures r.Some? ==> r.value == x.fields
  {
    if x == Null || x == Undefined then None
    else if x.Arr? then None
    else if x.Obj? then Some(x.fields)
    else None
  }

  predicate IsLower(c: char)
  {
    'a' <= c <= 'z'
  }

  predicate IsUpper(c: char)
  {
    'A' <= c <= 'Z'
  }

  /** `toLowerCase` on the ASCII letters. */
  function ToLower(s: string): (r: string)
    ensures |r| == |s|
    ensures forall i :: 0 <= i < |s| ==> r[i] == if IsUpper(s[i]) then (s[i] as int + 32) as char else s[i]
  {
    if s == [] then []
    else [if IsUpper(s[0]) then (s[0] as int + 32) as char else s[0]] + ToLower(s[1..])
  }

  predicate AllLetters(s: string)
  {
    forall i :: 0 <= i < |s| ==> IsLower(s[i]) || IsUpper(s[i])
  }

  /** The decision `/^[^@]+@[^@.]+\.[a-z]{2,}$/i.test(s)` takes: a non-empty part
      before the first `@`; after it, no further `@`, a non-empty run without `.`
      up to the first `.`, and then two or more ASCII letters to the end. */
  predicate EmailMatch(s: string)
  {
    var i := Text.IndexOf(s, '@');
    i > 0 &&
    var rest := s[i + 1..];
    var j := Text.IndexOf(rest, '.');
    j > 0 && '@' !in rest && |rest| - (j + 1) >= 2 && AllLetters(rest[j + 1..])
  }

  /** The regular expression read as a grammar: `s` is `local@domain.tld` with the
      three parts as the character classes say. */
  predicate EmailParts(s: string, local: string, domain: string, tld: string)
  {
    && s == local + ['@'] + domain + ['.'] + tld
    && local != [] && '@' !in local
    && domain != [] && '@' !in domain && '.' !in domain
    && |tld| >= 2 && AllLetters(tld)
  }

  /** The scanning decision finds the grammar's parts in every string it accepts. */
  lemma EmailMatchParts(s: string)
    requires EmailMatch(s)
    ensures var i := Text.IndexOf(s, '@');
      var j := Text.IndexOf(s[i + 1..], '.');
      EmailParts(s, s[..i], s[i + 1..][..j], s[i + 1..][j + 1..])
  {
    var i := Text.IndexOf(s, '@');
    var rest := s[i + 1..];
    var j := Text.IndexOf(rest, '.');
    var local, domain, tld := s[..i], rest[..j], rest[j + 1..];
    assert rest == domain + ['.'] + tld;
    assert s == local + ['@'] + rest;
    assert s == local + ['@'] + domain + ['.'] + tld;
    NotInPrefix('@', rest, j);
    assert local != [] && '@' !in local;
    assert domain != [] && '@' !in domain && '.' !in domain;
    assert |tld| >= 2 && AllLetters(tld);
  }

  lemma NotInPrefix(c: char, s: string, k: nat)
    requires c !in s && k <= |s|
    ensures c !in s[..k]
  {
    assert forall m :: 0 <= m < k ==> s[..k][m] == s[m];
  }

  /** Every string built from the grammar's parts is accepted. */
  lemma PartsEmailMatch(s: string, local: string, domain: string, tld: string)
    requires EmailParts(s, local, domain, tld)
    ensures EmailMatch(s)
  {
    var rest := domain + ['.'] + tld;
    assert s == local + ['@'] + rest;
    AfterSeparator(local, '@', rest);
    DomainPart(domain, tld);
  }

  lemma DomainPart(domain: string, tld: string)
    requires domain != [] && '@' !in domain && '.' !in domain && AllLetters(tld)
    ensures var rest := domain + ['.'] + tld;
      Text.IndexOf(rest, '.') == |domain| && rest[|domain| + 1..] == tld && '@' !in rest
  {
    AfterSeparator(domain, '.', tld);
    assert '@' !in tld by {
      assert forall k :: 0 <= k < |tld| ==> IsLower(tld[k]) || IsUpper(tld[k]);
    }
    NotInConcat('@', domain, ['.'], tld);
  }

  lemma NotInConcat(c: char, a: string, b: string, d: string)
    requires c !in a && c !in b && c !in d
    ensures c !in a + b + d
  {
  }

  lemma AfterSeparator(a: string, d: char, b: string)
    requires d !in a
    ensures Text.IndexOf(a + [d] + b, d) == |a| && (a + [d] + b)[|a| + 1..] == b
  {
    Text.IndexOfSeparator(a, d, b);
  }

  /** `email(x)`: the trimmed, lower-cased string when it has the e-mail shape. */
  function AsEmail(x: JsValue): (r: Option<string>)
    ensures r.Some? <==> AsString(x).Some? && EmailMatch(ToLower(AsString(x).value))
    ensures r.Some? ==> r.value == ToLower(AsString(x).value) && '@' in r.value
  {
    var s := AsString(x);
    if s.None? then None
    else
      var lower := ToLower(s.value);
      if lower == "" then None
      else if EmailMatch(lower) then Some(lower) else None
  }

  /** The number of UTF-16 code units of `s`: JavaScript's `length`. */
  function Utf16Length(s: string): (n: nat)
    ensures |s| <= n <= 2 * |s|
  {
    if s == [] then 0 else (if s[0] as int > 0xFFFF then 2 else 1) + Utf16Length(s[1..])
  }

  /** The characters the regular-expression `.` does not match. */
  predicate IsLineTerminator(c: char)
  {
    c == '\n' || c == '\r' || c == '\U{2028}' || c == '\U{2029}'
  }

  /** The text before the first line terminator: what `.*` can scan from the start. */
  function FirstLine(s: string): (r: string)
    ensures r <= s
    ensures forall i :: 0 <= i < |r| ==> !IsLineTerminator(r[i])
    ensures |r| < |s| ==> IsLineTerminator(s[|r|])
  {
    if s == [] || IsLineTerminator(s[0]) then [] else [s[0]] + FirstLine(s[1..])
  }

  predicate HasLower(s: string)
  {
    exists i :: 0 <= i < |s| && IsLower(s[i])
  }

  predicate HasUpper(s: string)
  {
    exists i :: 0 <= i < |s| && IsUpper(s[i])
  }

  predicate HasDigit(s: string)
  {
    exists i :: 0 <= i < |s| && Text.IsDigit(s[i])
  }

  /** `password(x)`: a string of 10 to 256 UTF-16 code units whose first line holds
      a lower-case ASCII letter, an upper-case ASCII letter and a digit. */
  function AsPassword(x: JsValue): (r: Option<string>)
    ensures r.Some? ==> x == Str(r.value) && 5 <= |r.value| <= 256
    ensures r.Some? <==>
      x.Str? && 10 <= Utf16Length(x.s) <= 256
      && HasLower(FirstLine(x.s)) && HasUpper(FirstLine(x.s)) && HasDigit(FirstLine(x.s))
  {
    if !x.Str? then None
    else if Utf16Length(x.s) < 10 || Utf16Length(x.s) > 256 then None
    else
      var line := FirstLine(x.s);
      if HasLower(line) && HasUpper(line) && HasDigit(line) then Some(x.s) else None
  }

  /** On a string without astral characters the UTF-16 length is the length. */
  lemma {:induction false} Utf16LengthBmp(s: string)
    requires forall i :: 0 <= i < |s| ==> s[i] as int <= 0xFFFF
    ensures Utf16Length(s) == |s|
  {
    if s != [] {
      Utf16LengthBmp(s[1..]);
    }
  }

  lemma {:induction false} FirstLineBreak(a: string, c: char, b: string)
    requires forall i :: 0 <= i < |a| ==> !IsLineTerminator(a[i])
    requires IsLineTerminator(c)
    ensures FirstLine(a + [c] + b) == a
  {
    if a != [] {
      assert (a + [c] + b)[1..] == a[1..] + [c] + b;
      FirstLineBreak(a[1..], c, b);
    }
  }

  lemma {:induction false} FirstLineWhole(a: string)
    requires forall i :: 0 <= i < |a| ==> !IsLineTerminator(a[i])
    ensures FirstLine(a) == a
  {
    if a != [] {
      FirstLineWhole(a[1..]);
    }
  }

  /** Characters after a line break do not count: "Abcdefghij\n1" has all three
      classes, but its only digit sits on the second line and it is rejected. */
  lemma PasswordSecondLineIgnored()
    ensures AsPassword(Str("Abcdefghij\n1")) == None
  {
    var a := "Abcdefghij";
    var s := a + ['\n'] + "1";
    assert s == "Abcdefghij\n1";
    FirstLineBreak(a, '\n', "1");
    assert !HasDigit(a) by {
      forall i | 0 <= i < |a| ensures !Text.IsDigit(a[i]) { }
    }
    Utf16LengthBmp(s);
  }

  /** A one-line password of 10 to 256 characters, none of them astral, holding the
      three classes, is accepted as it is. */
  lemma PasswordOneLineAccepted(s: string)
    requires forall i :: 0 <= i < |s| ==> !IsLineTerminator(s[i]) && s[i] as int <= 0xFFFF
    requires 10 <= |s| <= 256 && HasLower(s) && HasUpper(s) && HasDigit(s)
    ensures AsPassword(Str(s)) == Some(s)
  {
    Utf16LengthBmp(s);
    FirstLineWhole(s);
  }

  predicate FileChar(c: char)
  {
    IsLower(c) || IsUpper(c) || Text.IsDigit(c) || c == '.' || c == '_' || c == '-'
  }

  /** `/^(?!\.)[A-Za-z0-9._-]+$/`: non-empty, only file-name characters, no leading dot. */
  predicate FileMatch(s: string)
  {
    s != [] && s[0] != '.' && forall i :: 0 <= i < |s| ==> FileChar(s[i])
  }

  /** `file(x)`: a safe file name: no `/` can occur, and it is neither `.` nor `..`. */
  function AsFile(x: JsValue): (r: Option<string>)
    ensures r.Some? <==> x.Str? && FileMatch(x.s)
    ensures r.Some? ==> x == Str(r.value) && '/' !in r.value && r.value != "." && r.value != ".." && r.value != ""
  {
    if !x.Str? || Text.Trim(x.s) == "" then None
    else if FileMatch(x.s) then Some(x.s) else None
  }

  /** `required(fn, error)(x)`: the value `fn` gives, or a 422 `RouteError` carrying
      `error` exactly when `fn` gives `undefined`. */
  function Required<T>(fn: JsValue -> Option<T>, error: string, x: JsValue): (r: Result<T, Http.RouteError>)
    ensures r.Err? <==> fn(x).None?
    ensures r.Err? ==> r.error == Http.RouteError(422, error)
    ensures r.Ok? ==> Some(r.value) == fn(x)
  {
    match fn(x)
    case None => Err(Http.RouteError(422, error))
    case Some(value) => Ok(value)
  }

  const StringExpected: string := "string esperada"
  const BooleanExpected: string := "boolean esperado"
  const ObjectExpected: string := "objeto esperado"
  const EmailInvalid: string := "email inv\U{00E1}lido"
  const PasswordInvalid: string := "password inv\U{00E1}lido"
  const FileInvalid: string := "nome de arquivo inv\U{00E1}lido"

  /** `v.boolean(false)` is `false`, not an error: only `undefined` is refused. */
  lemma RequiredKeepsFalse()
    ensures Required(AsBoolean, BooleanExpected, Bool(false)) == Ok(Bool(false))
    ensures Required(AsBoolean, BooleanExpected, Str("off")) == Ok(Bool(false))
    ensures Required(AsBoolean, BooleanExpected, Str("yes")) == Err(Http.RouteError(422, BooleanExpected))
  {
  }
}
