/** The stand-alone hashing script: the same encoding as `Password`, with the
    pepper fixed in the script, and a verifier without the try/catch, so that
    every failure reaches the caller as an error instead of `false`. */
module CryptoScript {
  import opened Wrappers
  import Text
  import opened PasswordFormat
  import Password

  const Pepper: string := "segredo"

  /** Why `verifyPassword` throws: the stored text lacks a field, names no
      normalisation form, or scrypt rejects its parameters. */
  datatype Failure = MalformedHash | UnknownForm | ScryptFailed

  /** `hashPassword(password)`, with `salt` standing for the 16 random bytes: the
      computation of `Password.Hash` under the script's pepper. */
  function HashPassword(prims: Password.Primitives, password: string, salt: seq<Byte>): (r: Option<string>)
    requires |salt| == 16
    ensures r.Some? <==> Password.DeriveKey(prims, Pepper, NFC, password, salt, Password.ScryptOptions()).Some?
    ensures r.Some? ==> Parse(r.value) == Ok(Parsed(Password.ScryptOptions(), "NFC",
      Password.DeriveKey(prims, Pepper, NFC, password, salt, Password.ScryptOptions()).value, salt))
  {
    var h := Password.Hash(prims, Pepper, password, salt);
    if h.Some? then
      Password.HashParses(prims, Pepper, password, salt);
      h
    else h
  }

  /** `verifyPassword(password, passwordHash)`: `Err` where the script throws,
      otherwise whether the derived key has the stored key's length and bytes. */
  function VerifyPassword(prims: Password.Primitives, password: string, passwordHash: string): (r: Result<bool, Failure>)
    ensures r.Err? <==> Parse(passwordHash).Err? || Password.DerivedFor(prims, Pepper, password, Parse(passwordHash).value).None?
    ensures r.Err? && Parse(passwordHash).Ok? ==> r.error != MalformedHash
  {
    match Parse(passwordHash)
    case Err(_) => Err(MalformedHash)
    case Ok(parsed) =>
      match ParseForm(parsed.norm)
      case None => Err(UnknownForm)
      case Some(form) =>
        match Password.DeriveKey(prims, Pepper, form, password, parsed.salt, parsed.options)
        case None => Err(ScryptFailed)
        case Some(dk) =>
          if |dk| != |parsed.dk| then Ok(false)
          else Ok(DiffBits(dk, parsed.dk) == 0)
  }

  /** Where the script does not throw it answers as `Password.verify` under the
      same pepper, and `Password.verify` answers `false` where the script throws. */
  lemma ScriptAgreesWithVerify(prims: Password.Primitives, password: string, passwordHash: string)
    ensures VerifyPassword(prims, password, passwordHash).Ok? ==>
      VerifyPassword(prims, password, passwordHash).value == Password.Verify(prims, Pepper, password, passwordHash)
    ensures VerifyPassword(prims, password, passwordHash).Err? ==> !Password.Verify(prims, Pepper, password, passwordHash)
  {
    match Parse(passwordHash)
    case Err(_) =>
    case Ok(parsed) =>
      match Password.DerivedFor(prims, Pepper, password, parsed)
      case None =>
      case Some(dk) =>
        if |dk| == |parsed.dk| {
          DiffBitsZero(dk, parsed.dk);
        }
  }

  /** Text with fewer than six `$`-separated fields makes the script throw. */
  lemma ShortHashThrows(prims: Password.Primitives, password: string, passwordHash: string)
    requires |Text.Split(passwordHash, '$')| < 6
    ensures VerifyPassword(prims, password, passwordHash) == Err(MalformedHash)
  {
  }

  /** Against a hash of `password`, the script answers for `other` whether it
      derives the same key, and throws only when scrypt fails for `other`. */
  lemma VerifyAgainstHash(prims: Password.Primitives, password: string, other: string, salt: seq<Byte>)
    requires |salt| == 16 && HashPassword(prims, password, salt).Some?
    ensures var key := Password.DeriveKey(prims, Pepper, NFC, other, salt, Password.ScryptOptions());
      VerifyPassword(prims, other, HashPassword(prims, password, salt).value)
        == if key.None? then Err(ScryptFailed)
           else Ok(key == Password.DeriveKey(prims, Pepper, NFC, password, salt, Password.ScryptOptions()))
  {
    var h := HashPassword(prims, password, salt).value;
    var dk := Password.DeriveKey(prims, Pepper, NFC, password, salt, Password.ScryptOptions()).value;
    assert Parse(h) == Ok(Parsed(Password.ScryptOptions(), "NFC", dk, salt));
    assert ParseForm("NFC") == Some(NFC);
    var key := Password.DeriveKey(prims, Pepper, NFC, other, salt, Password.ScryptOptions());
    if key.Some? && |key.value| == |dk| {
      DiffBitsZero(key.value, dk);
    }
  }

  /** The script's own run: `P@ssw0rd` verifies against its hash, and `12345678`
      does not, given that its derived key differs from the first one's. */
  lemma Demo(prims: Password.Primitives, salt: seq<Byte>)
    requires |salt| == 16
    requires Password.DeriveKey(prims, Pepper, NFC, "P@ssw0rd", salt, Password.ScryptOptions()).Some?
    requires Password.DeriveKey(prims, Pepper, NFC, "12345678", salt, Password.ScryptOptions()).Some?
    requires Password.DeriveKey(prims, Pepper, NFC, "12345678", salt, Password.ScryptOptions())
          != Password.DeriveKey(prims, Pepper, NFC, "P@ssw0rd", salt, Password.ScryptOptions())
    ensures var h := HashPassword(prims, "P@ssw0rd", salt).value;
      VerifyPassword(prims, "P@ssw0rd", h) == Ok(true) && VerifyPassword(prims, "12345678", h) == Ok(false)
  {
    VerifyAgainstHash(prims, "P@ssw0rd", "P@ssw0rd", salt);
    VerifyAgainstHash(prims, "P@ssw0rd", "12345678", salt);
  }
}
