/** `Password`: hashing a password with a pepper (HMAC-SHA256 of the normalised
    password, then scrypt with a random salt) into the stored text, and `verify`,
    which reads the form, cost parameters and salt back from the stored text,
    derives the key again and compares it with the stored key over its whole length.
    `verify` never throws: every failure is the answer `false`. */
module Password {
  import opened Wrappers
  import Text
  import opened PasswordFormat

  /** The operations the hasher calls but does not define: `normalize(form)`,
      HMAC-SHA256 keyed with the pepper (RFC 2104), and scrypt (RFC 7914), which can
      fail (a rejected promise) for unusable parameters. */
  datatype Primitives = Primitives(
    normalize: (Form, string) -> string,
    hmacSha256: (string, string) -> seq<Byte>,
    scrypt: (seq<Byte>, seq<Byte>, nat, map<string, NumberValue>) -> Option<seq<Byte>>)

  const Norm: Form := NFC
  /** `2 ** 14` */
  const CostN: nat := 16384
  const BlockR: nat := 8
  const ParallelP: nat := 1
  const DkLen: nat := 32
  const SaltLen: nat := 16

  function ScryptOptions(): map<string, NumberValue>
  {
    OptionsMap(CostN, BlockR, ParallelP)
  }

  /** The key scrypt derives for `password` under the given form, salt and options. */
  function DeriveKey(prims: Primitives, pepper: string, form: Form, password: string, salt: seq<Byte>,
                     options: map<string, NumberValue>): Option<seq<Byte>>
  {
    prims.scrypt(prims.hmacSha256(pepper, prims.normalize(form, password)), salt, DkLen, options)
  }

  /** `hash(password)` with `salt` standing for the 16 random bytes. */
  function Hash(prims: Primitives, pepper: string, password: string, salt: seq<Byte>): Option<string>
    requires |salt| == SaltLen
  {
    match DeriveKey(prims, pepper, Norm, password, salt, ScryptOptions())
    case None => None
    case Some(dk) => Some(Encode(Norm, CostN, BlockR, ParallelP, salt, dk))
  }

  /** The stored text has six `$`-separated fields: the scheme, the version, the
      form, the cost parameters `N=16384,r=8,p=1`, the 32 hex digits of the salt and
      the hex digits of the key, two per byte. */
  lemma HashShape(prims: Primitives, pepper: string, password: string, salt: seq<Byte>)
    requires |salt| == SaltLen && Hash(prims, pepper, password, salt).Some?
    ensures var dk := DeriveKey(prims, pepper, Norm, password, salt, ScryptOptions()).value;
      var fields := Text.Split(Hash(prims, pepper, password, salt).value, '$');
      && fields == ["scrypt", "v=1", "norm=NFC", "N=16384,r=8,p=1", Hex(salt), Hex(dk)]
      && |fields[4]| == 32 && |fields[5]| == 2 * |dk|
  {
    var dk := DeriveKey(prims, pepper, Norm, password, salt, ScryptOptions()).value;
    var h := Hash(prims, pepper, password, salt).value;
    assert h == Encode(Norm, CostN, BlockR, ParallelP, salt, dk);
    EncodeSplits(Norm, CostN, BlockR, ParallelP, salt, dk);
    DefaultFields(salt, dk);
  }

  lemma DefaultFields(salt: seq<Byte>, dk: seq<Byte>)
    ensures EncodedFields(Norm, CostN, BlockR, ParallelP, salt, dk)
         == ["scrypt", "v=1", "norm=NFC", "N=16384,r=8,p=1", Hex(salt), Hex(dk)]
  {
    CostText();
    assert FormName(Norm) == "NFC";
    assert "norm=" + FormName(Norm) == "norm=NFC";
    var fields := EncodedFields(Norm, CostN, BlockR, ParallelP, salt, dk);
    assert fields[2] == "norm=NFC";
    assert fields[3] == "N=16384,r=8,p=1";
  }

  lemma CostText()
    ensures OptionsText(CostN, BlockR, ParallelP) == "N=16384,r=8,p=1"
  {
    assert Text.NatToString(1) == "1" && Text.NatToString(8) == "8";
    assert Text.NatToString(16) == "16";
    assert Text.NatToString(163) == "163";
    assert Text.NatToString(1638) == "1638";
    assert Text.NatToString(16384) == "16384";
  }

  /** The key `verify` derives for `password` from what it parsed: `None` when the
      stored form is not a normalisation form or scrypt fails. */
  function DerivedFor(prims: Primitives, pepper: string, password: string, parsed: Parsed): Option<seq<Byte>>
  {
    match ParseForm(parsed.norm)
    case None => None
    case Some(form) => DeriveKey(prims, pepper, form, password, parsed.salt, parsed.options)
  }

  /** `verify(password, passwordHash)`: true exactly when the stored text parses and
      the key derived from it for `password` is byte for byte the stored key; every
      error, and a key of another length, gives false. */
  function Verify(prims: Primitives, pepper: string, password: string, passwordHash: string): (ok: bool)
    ensures ok <==>
      Parse(passwordHash).Ok? && DerivedFor(prims, pepper, password, Parse(passwordHash).value) == Some(Parse(passwordHash).value.dk)
  {
    match Parse(passwordHash)
    case Err(_) => false
    case Ok(parsed) =>
      match DerivedFor(prims, pepper, password, parsed)
      case None => false
      case Some(dk) =>
        if |dk| != |parsed.dk| then false
        else
          DiffBitsZero(dk, parsed.dk);
          DiffBits(dk, parsed.dk) == 0
  }

  /** `verify` reads the form, the cost parameters and the salt from the stored text,
      not from the hasher's own settings: a hash made with any form and any `N`, `r`,
      `p` verifies. */
  lemma VerifyUsesStoredParameters(prims: Primitives, pepper: string, password: string, form: Form,
                                   n: nat, r: nat, p: nat, salt: seq<Byte>)
    requires DeriveKey(prims, pepper, form, password, salt, OptionsMap(n, r, p)).Some?
    ensures var dk := DeriveKey(prims, pepper, form, password, salt, OptionsMap(n, r, p)).value;
      Verify(prims, pepper, password, Encode(form, n, r, p, salt, dk))
  {
    var dk := DeriveKey(prims, pepper, form, password, salt, OptionsMap(n, r, p)).value;
    ParseEncode(form, n, r, p, salt, dk);
  }

  /** Parsing a hash gives back the hasher's cost parameters, form, key and salt. */
  lemma HashParses(prims: Primitives, pepper: string, password: string, salt: seq<Byte>)
    requires |salt| == SaltLen && Hash(prims, pepper, password, salt).Some?
    ensures Parse(Hash(prims, pepper, password, salt).value)
         == Ok(Parsed(ScryptOptions(), "NFC", DeriveKey(prims, pepper, Norm, password, salt, ScryptOptions()).value, salt))
  {
    var dk := DeriveKey(prims, pepper, Norm, password, salt, ScryptOptions()).value;
    assert Hash(prims, pepper, password, salt).value == Encode(Norm, CostN, BlockR, ParallelP, salt, dk);
    ParseEncode(Norm, CostN, BlockR, ParallelP, salt, dk);
  }

  /** A password verifies against its own hash. */
  lemma VerifyHash(prims: Primitives, pepper: string, password: string, salt: seq<Byte>)
    requires |salt| == SaltLen && Hash(prims, pepper, password, salt).Some?
    ensures Verify(prims, pepper, password, Hash(prims, pepper, password, salt).value)
  {
    VerifyUsesStoredParameters(prims, pepper, password, Norm, CostN, BlockR, ParallelP, salt);
  }

  /** Against that hash, another password verifies exactly when it derives the very
      same key. */
  lemma VerifyOtherPassword(prims: Primitives, pepper: string, password: string, other: string, salt: seq<Byte>)
    requires |salt| == SaltLen && Hash(prims, pepper, password, salt).Some?
    ensures Verify(prims, pepper, other, Hash(prims, pepper, password, salt).value)
        <==> DeriveKey(prims, pepper, Norm, other, salt, ScryptOptions()) == DeriveKey(prims, pepper, Norm, password, salt, ScryptOptions())
  {
    var dk := DeriveKey(prims, pepper, Norm, password, salt, ScryptOptions()).value;
    ParseEncode(Norm, CostN, BlockR, ParallelP, salt, dk);
  }

  /** Text with fewer than six fields never verifies (the parser's error is caught). */
  lemma MalformedNeverVerifies(prims: Primitives, pepper: string, password: string, passwordHash: string)
    requires |Text.Split(passwordHash, '$')| < 6
    ensures !Verify(prims, pepper, password, passwordHash)
  {
  }

  /** A key field in which a hex letter changes case (`a` to `A`) verifies exactly as
      before: the decoder reads hex digits of either case. */
  lemma KeyCaseIgnored(prims: Primitives, pepper: string, password: string, fields: seq<string>, i: nat, c: char)
    requires |fields| == 6 && forall k :: 0 <= k < 6 ==> '$' !in fields[k]
    requires i < |fields[5]| && Unhex(c).Some? && Unhex(c) == Unhex(fields[5][i])
    ensures Verify(prims, pepper, password, Text.Join(fields[5 := fields[5][i := c]], '$'))
         == Verify(prims, pepper, password, Text.Join(fields, '$'))
  {
    var changed := fields[5 := fields[5][i := c]];
    assert forall k :: 0 <= k < 6 ==> '$' !in changed[k] by {
      assert c != '$';
      assert forall m :: 0 <= m < |changed[5]| ==> changed[5][m] == c || changed[5][m] == fields[5][m];
    }
    Text.SplitOfJoin(fields, '$');
    Text.SplitOfJoin(changed, '$');
    HexDecodeSameValue(fields[5], i, c);
  }
}
