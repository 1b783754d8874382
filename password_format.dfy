/** The stored password-hash text `scrypt$v=1$norm=<form>$N=<n>,r=<r>,p=<p>$<salt hex>$<key hex>`:
    its encoder, the `$`-split parser both password modules share in shape, Node's
    `Buffer.from(text, "hex")` decoder, and `timingSafeEqual` as a comparison that
    looks at every byte. */
module PasswordFormat {
  import opened Wrappers
  import Text

  type Byte = bv8

  /** The Unicode normalisation forms `String.prototype.normalize` accepts. */
  datatype Form = NFC | NFD | NFKC | NFKD

  function FormName(f: Form): string
  {
    match f
    case NFC => "NFC"
    case NFD => "NFD"
    case NFKC => "NFKC"
    case NFKD => "NFKD"
  }

  /** `normalize(name)` throws a `RangeError` for any other name. */
  function ParseForm(name: string): (f: Option<Form>)
    ensures f.Some? ==> FormName(f.value) == name
    ensures forall g :: FormName(g) == name ==> f == Some(g)
  {
    if name == "NFC" then Some(NFC)
    else if name == "NFD" then Some(NFD)
    else if name == "NFKC" then Some(NFKC)
    else if name == "NFKD" then Some(NFKD)
    else None
  }

  /** The lower-case hex digit of a nibble. */
  function HexDigit(d: nat): (c: char)
    requires d < 16
    ensures '0' <= c <= '9' || 'a' <= c <= 'f'
  {
    if d < 10 then ('0' as int + d) as char else ('a' as int + d - 10) as char
  }

  /** `buf.toString("hex")`: two lower-case hex digits per byte, high nibble first. */
  function Hex(bytes: seq<Byte>): (s: string)
    ensures |s| == 2 * |bytes|
    ensures forall i :: 0 <= i < |s| ==> '0' <= s[i] <= '9' || 'a' <= s[i] <= 'f'
  {
    if bytes == [] then ""
    else
      var b := bytes[0] as int;
      [HexDigit(b / 16), HexDigit(b % 16)] + Hex(bytes[1..])
  }

  /** The value of one hex digit, either case; `None` for any other character. */
  function Unhex(c: char): (v: Option<nat>)
    ensures v.Some? ==> v.value < 16
  {
    if '0' <= c <= '9' then Some(c as int - '0' as int)
    else if 'a' <= c <= 'f' then Some(c as int - 'a' as int + 10)
    else if 'A' <= c <= 'F' then Some(c as int - 'A' as int + 10)
    else None
  }

  /** `Buffer.from(s, "hex")`: one byte per pair of hex digits, stopping at the first
      pair that is not two hex digits; an odd last character is dropped. */
  function HexDecode(s: string): (bytes: seq<Byte>)
    ensures 2 * |bytes| <= |s|
  {
    if |s| < 2 then []
    else
      var a := Unhex(s[0]);
      var b := Unhex(s[1]);
      if a.None? || b.None? then []
      else [(a.value * 16 + b.value) as Byte] + HexDecode(s[2..])
  }

  /** Round trip: decoding the hex text of any bytes gives the bytes back. */
  lemma {:induction false} HexRoundTrip(bytes: seq<Byte>)
    ensures HexDecode(Hex(bytes)) == bytes
  {
    if bytes != [] {
      var b := bytes[0] as int;
      var s := Hex(bytes);
      assert s[0] == HexDigit(b / 16) && s[1] == HexDigit(b % 16);
      UnhexDigit(b / 16);
      UnhexDigit(b % 16);
      assert s[2..] == Hex(bytes[1..]);
      HexRoundTrip(bytes[1..]);
      assert (b / 16 * 16 + b % 16) as Byte == bytes[0];
    }
  }

  lemma UnhexDigit(d: nat)
    requires d < 16
    ensures Unhex(HexDigit(d)) == Some(d)
  {
  }

  /** Decoding ignores the case of hex letters: replacing a character by another with
      the same hex value (say `a` by `A`) decodes to the same bytes. */
  lemma {:induction false} HexDecodeSameValue(s: string, i: nat, c: char)
    requires i < |s| && Unhex(c).Some? && Unhex(c) == Unhex(s[i])
    ensures HexDecode(s[i := c]) == HexDecode(s)
  {
    var t := s[i := c];
    if |s| >= 2 && i >= 2 {
      assert t[2..] == s[2..][i - 2 := c];
      HexDecodeSameValue(s[2..], i - 2, c);
    } else if |s| >= 2 {
      assert t[2..] == s[2..];
    }
  }

  /** A stored cost parameter, `Number(v)`: the value of a decimal numeral (the empty
      text reads as 0); anything else, including a missing `=v` (`Number(undefined)`),
      is kept as its text and not interpreted. */
  datatype NumberValue = Decimal(n: nat) | Other(text: Option<string>)

  function NumberOf(v: Option<string>): NumberValue
  {
    if v == Some("") then Decimal(0)
    else if v.Some? && Text.IsDigits(v.value) then Decimal(Text.DigitsValue(v.value))
    else Other(v)
  }

  /** One step of the `reduce`: `[k, v] = kv.split("=")`, then `acc[k] = Number(v)`. */
  function AddOption(acc: map<string, NumberValue>, kv: string): (r: map<string, NumberValue>)
    ensures r.Keys == acc.Keys + {Text.Split(kv, '=')[0]}
  {
    var parts := Text.Split(kv, '=');
    acc[parts[0] := NumberOf(if |parts| >= 2 then Some(parts[1]) else None)]
  }

  /** The whole `reduce` over the comma-separated pieces, starting from `{}`. */
  function FoldOptions(pieces: seq<string>): map<string, NumberValue>
  {
    if pieces == [] then map[] else AddOption(FoldOptions(pieces[..|pieces| - 1]), pieces[|pieces| - 1])
  }

  /** What the parser returns. */
  datatype Parsed = Parsed(options: map<string, NumberValue>, norm: string, dk: seq<Byte>, salt: seq<Byte>)

  /** The error the parser throws: destructuring leaves a field `undefined` and
      `Buffer.from(undefined, "hex")` fails. */
  datatype ParseError = MissingField

  /** The parser: split on `$` (fields past the sixth are ignored); the salt and key
      are hex-decoded, `norm=` is removed from the third field (its first occurrence,
      wherever it is) and the fourth field is folded into the options. */
  function Parse(passwordHash: string): (r: Result<Parsed, ParseError>)
    ensures r.Err? <==> |Text.Split(passwordHash, '$')| < 6
  {
    var fields := Text.Split(passwordHash, '$');
    if |fields| < 6 then Err(MissingField)
    else
      Ok(Parsed(FoldOptions(Text.Split(fields[3], ',')), Text.ReplaceFirst(fields[2], "norm=", ""),
                HexDecode(fields[5]), HexDecode(fields[4])))
  }

  /** The cost-parameter field `N=<n>,r=<r>,p=<p>`. */
  function OptionsText(n: nat, r: nat, p: nat): string
  {
    OptionText("N", n) + "," + OptionText("r", r) + "," + OptionText("p", p)
  }

  function OptionText(k: string, v: nat): string
  {
    k + "=" + Text.NatToString(v)
  }

  function OptionsMap(n: nat, r: nat, p: nat): map<string, NumberValue>
  {
    map["N" := Decimal(n), "r" := Decimal(r), "p" := Decimal(p)]
  }

  /** The encoder's template literal. */
  function Encode(form: Form, n: nat, r: nat, p: nat, salt: seq<Byte>, dk: seq<Byte>): string
  {
    "scrypt" + "$" + "v=1" + "$" + "norm=" + FormName(form) + "$" + OptionsText(n, r, p) + "$" + Hex(salt) + "$" + Hex(dk)
  }

  function EncodedFields(form: Form, n: nat, r: nat, p: nat, salt: seq<Byte>, dk: seq<Byte>): seq<string>
  {
    ["scrypt", "v=1", "norm=" + FormName(form), OptionsText(n, r, p), Hex(salt), Hex(dk)]
  }

  /** Round trip: parsing an encoding gives back the form's name, the three cost
      parameters (as numbers, under the keys `N`, `r`, `p`), the salt and the key. */
  lemma ParseEncode(form: Form, n: nat, r: nat, p: nat, salt: seq<Byte>, dk: seq<Byte>)
    ensures Parse(Encode(form, n, r, p, salt, dk)) == Ok(Parsed(OptionsMap(n, r, p), FormName(form), dk, salt))
  {
    var s := Encode(form, n, r, p, salt, dk);
    var fields := EncodedFields(form, n, r, p, salt, dk);
    EncodeSplits(form, n, r, p, salt, dk);
    Text.ReplaceFirstPrefix("norm=", FormName(form));
    OptionsRoundTrip(n, r, p);
    HexRoundTrip(salt);
    HexRoundTrip(dk);
  }

  lemma EncodeSplits(form: Form, n: nat, r: nat, p: nat, salt: seq<Byte>, dk: seq<Byte>)
    ensures Text.Split(Encode(form, n, r, p, salt, dk), '$') == EncodedFields(form, n, r, p, salt, dk)
  {
    var fields := EncodedFields(form, n, r, p, salt, dk);
    FieldsHoldNoDollar(form, n, r, p, salt, dk);
    EncodeIsJoin(form, n, r, p, salt, dk);
    Text.SplitOfJoin(fields, '$');
  }

  lemma FieldsHoldNoDollar(form: Form, n: nat, r: nat, p: nat, salt: seq<Byte>, dk: seq<Byte>)
    ensures forall i :: 0 <= i < 6 ==> '$' !in EncodedFields(form, n, r, p, salt, dk)[i]
  {
    NoDollarOptions(n, r, p);
    assert '$' !in FormName(form);
    HexNoDollar(salt);
    HexNoDollar(dk);
  }

  lemma HexNoDollar(bytes: seq<Byte>)
    ensures '$' !in Hex(bytes) && ',' !in Hex(bytes)
  {
    var s := Hex(bytes);
    assert forall i :: 0 <= i < |s| ==> s[i] != '$' && s[i] != ',';
  }

  lemma EncodeIsJoin(form: Form, n: nat, r: nat, p: nat, salt: seq<Byte>, dk: seq<Byte>)
    ensures Encode(form, n, r, p, salt, dk) == Text.Join(EncodedFields(form, n, r, p, salt, dk), '$')
  {
    JoinSix("scrypt", "v=1", "norm=" + FormName(form), OptionsText(n, r, p), Hex(salt), Hex(dk));
  }

  lemma NoDollarOptions(n: nat, r: nat, p: nat)
    ensures '$' !in OptionsText(n, r, p)
  {
    NoDollarDigits(Text.NatToString(n));
    NoDollarDigits(Text.NatToString(r));
    NoDollarDigits(Text.NatToString(p));
    assert OptionsText(n, r, p) == "N=" + Text.NatToString(n) + "," + ("r=" + Text.NatToString(r)) + "," + ("p=" + Text.NatToString(p));
  }

  lemma NoDollarDigits(s: string)
    requires Text.IsDigits(s)
    ensures '$' !in s && ',' !in s && '=' !in s
  {
    assert forall i :: 0 <= i < |s| ==> Text.IsDigit(s[i]);
  }

  lemma JoinSix(f0: string, f1: string, f2: string, f3: string, f4: string, f5: string)
    ensures Text.Join([f0, f1, f2, f3, f4, f5], '$') == f0 + "$" + f1 + "$" + f2 + "$" + f3 + "$" + f4 + "$" + f5
  {
    var f := [f0, f1, f2, f3, f4, f5];
    assert f[5..] == [f5] && f[4..][1..] == f[5..] && f[3..][1..] == f[4..];
    assert f[2..][1..] == f[3..] && f[1..][1..] == f[2..] && f[1..] == f[1..];
    var j5 := f5;
    var j4 := f4 + "$" + j5;
    var j3 := f3 + "$" + j4;
    var j2 := f2 + "$" + j3;
    var j1 := f1 + "$" + j2;
    assert Text.Join(f[4..], '$') == j4;
    assert Text.Join(f[3..], '$') == j3;
    assert Text.Join(f[2..], '$') == j2;
    assert Text.Join(f[1..], '$') == j1;
    assert Text.Join(f, '$') == f0 + "$" + j1;
  }

  lemma JoinThree(a: string, b: string, c: string, d: char)
    ensures Text.Join([a, b, c], d) == a + [d] + b + [d] + c
  {
    assert [a, b, c][1..] == [b, c];
    assert [b, c][1..] == [c];
    assert Text.Join([c], d) == c;
    assert Text.Join([b, c], d) == b + [d] + c;
    assert Text.Join([a, b, c], d) == a + [d] + (b + [d] + c);
  }

  /** The cost-parameter field folds back to `{N: n, r: r, p: p}`. */
  lemma OptionsRoundTrip(n: nat, r: nat, p: nat)
    ensures FoldOptions(Text.Split(OptionsText(n, r, p), ',')) == OptionsMap(n, r, p)
  {
    OptionsSplit(n, r, p);
    var a, b, c := OptionText("N", n), OptionText("r", r), OptionText("p", p);
    FoldThree(a, b, c);
    OptionPair(map[], "N", n);
    OptionPair(map["N" := Decimal(n)], "r", r);
    OptionPair(map["N" := Decimal(n), "r" := Decimal(r)], "p", p);
  }

  lemma OptionsSplit(n: nat, r: nat, p: nat)
    ensures Text.Split(OptionsText(n, r, p), ',') == [OptionText("N", n), OptionText("r", r), OptionText("p", p)]
  {
    var a, b, c := OptionText("N", n), OptionText("r", r), OptionText("p", p);
    OptionNoComma("N", n);
    OptionNoComma("r", r);
    OptionNoComma("p", p);
    JoinThree(a, b, c, ',');
    Text.SplitOfJoin([a, b, c], ',');
  }

  lemma OptionNoComma(k: string, v: nat)
    requires ',' !in k
    ensures ',' !in OptionText(k, v)
  {
    NoDollarDigits(Text.NatToString(v));
  }

  lemma FoldThree(a: string, b: string, c: string)
    ensures FoldOptions([a, b, c]) == AddOption(AddOption(AddOption(map[], a), b), c)
  {
    assert [a, b, c][..2] == [a, b];
    assert [a, b][..1] == [a];
    assert [a][..0] == [];
    assert FoldOptions([a]) == AddOption(map[], a);
    assert FoldOptions([a, b]) == AddOption(FoldOptions([a]), b);
    assert FoldOptions([a, b, c]) == AddOption(FoldOptions([a, b]), c);
  }

  /** One `k=v` piece with a decimal value adds exactly `k: v`. */
  lemma OptionPair(acc: map<string, NumberValue>, k: string, v: nat)
    requires k != "" && '=' !in k
    ensures AddOption(acc, OptionText(k, v)) == acc[k := Decimal(v)]
  {
    var digits := Text.NatToString(v);
    NoDollarDigits(digits);
    var parts := [k, digits];
    assert Text.Join(parts, '=') == k + ['='] + digits by {
      assert parts[1..] == [digits];
    }
    assert OptionText(k, v) == k + ['='] + digits;
    Text.SplitOfJoin(parts, '=');
    DecimalReadBack(v);
  }

  /** `Number` of a decimal rendering is the number itself. */
  lemma DecimalReadBack(v: nat)
    ensures NumberOf(Some(Text.NatToString(v))) == Decimal(v)
  {
    Text.NatToStringRoundTrip(v);
  }

  /** Fewer than six `$`-separated fields is an error. */
  lemma ShortHashFails(passwordHash: string)
    requires '$' !in passwordHash
    ensures Parse(passwordHash).Err?
  {
    assert Text.Split(passwordHash, '$') == [passwordHash];
  }

  /** The bitwise difference of two equally long byte strings: the OR of the XORs of
      all byte pairs, accumulated over every position (no early exit). */
  function DiffBits(a: seq<Byte>, b: seq<Byte>): Byte
    requires |a| == |b|
  {
    if a == [] then 0 else (a[0] ^ b[0]) | DiffBits(a[1..], b[1..])
  }

  /** The difference is zero exactly when the strings are equal. */
  lemma {:induction false} DiffBitsZero(a: seq<Byte>, b: seq<Byte>)
    requires |a| == |b|
    ensures DiffBits(a, b) == 0 <==> a == b
  {
    if a != [] {
      DiffBitsZero(a[1..], b[1..]);
      XorOrZero(a[0], b[0], DiffBits(a[1..], b[1..]));
      if a[0] == b[0] && a[1..] == b[1..] {
        assert a == [a[0]] + a[1..] && b == [b[0]] + b[1..];
      }
    }
  }

  lemma XorOrZero(x: Byte, y: Byte, rest: Byte)
    ensures (x ^ y) | rest == 0 <==> x == y && rest == 0
  {
  }

  /** `timingSafeEqual(a, b)` for equally long buffers: every byte is looked at, and the
      answer is whether the buffers are equal. */
  method TimingSafeEqual(a: seq<Byte>, b: seq<Byte>) returns (eq: bool)
    requires |a| == |b|
    ensures eq <==> a == b
  {
    var diff: Byte := 0;
    var i := |a|;
    assert a[..i] == a && b[..i] == b;
    while i > 0
      invariant 0 <= i <= |a|
      invariant diff | DiffBits(a[..i], b[..i]) == DiffBits(a, b)
    {
      i := i - 1;
      DiffBitsSnoc(a[..i + 1], b[..i + 1]);
      assert a[..i + 1][..i] == a[..i] && b[..i + 1][..i] == b[..i];
      diff := diff | (a[i] ^ b[i]);
    }
    assert a[..0] == [] && b[..0] == [];
    DiffBitsZero(a, b);
    eq := diff == 0;
  }

  lemma {:induction false} DiffBitsSnoc(a: seq<Byte>, b: seq<Byte>)
    requires |a| == |b| && |a| > 0
    ensures DiffBits(a, b) == DiffBits(a[..|a| - 1], b[..|b| - 1]) | (a[|a| - 1] ^ b[|b| - 1])
  {
    if |a| > 1 {
      DiffBitsSnoc(a[1..], b[1..]);
      assert a[1..][..|a| - 2] == a[..|a| - 1][1..];
      assert b[1..][..|b| - 2] == b[..|b| - 1][1..];
    }
  }
}
