/**
 * The cipher wrapper of internal/server/fernet.go over a symbolic model of
 * the Fernet library. A key is 32 random bytes; its text form here is
 * lower-case hex (the library writes base64url, another alphabet that
 * `url.PathEscape` leaves alone and that has no `~` or `/`). A ciphertext
 * either is sealed under one key or is garbage; the library opens only a
 * ciphertext sealed under the key it is given, and yields an empty message
 * otherwise.
 */
module Fernet {
  import opened Wrappers

  type Byte = b: int | 0 <= b < 256

  const KeyLength: nat := 32

  type KeyBytes = s: seq<Byte> | |s| == KeyLength witness seq(KeyLength, i => 0)

  predicate IsLowerHexDigit(c: char) {
    '0' <= c <= '9' || 'a' <= c <= 'f'
  }

  function LowerHexDigit(n: nat): (c: char)
    requires n < 16
    ensures IsLowerHexDigit(c)
  {
    if n < 10 then ('0' as int + n) as char else ('a' as int + n - 10) as char
  }

  function LowerHexValue(c: char): (n: nat)
    requires IsLowerHexDigit(c)
    ensures n < 16 && LowerHexDigit(n) == c
  {
    if c <= '9' then c as int - '0' as int else c as int - 'a' as int + 10
  }

  /** Two lower-case hex digits per byte. */
  function EncodeBytes(b: seq<Byte>): (s: string)
    ensures |s| == 2 * |b|
    ensures forall i :: 0 <= i < |s| ==> IsLowerHexDigit(s[i])
  {
    if b == [] then ""
    else [LowerHexDigit(b[0] / 16), LowerHexDigit(b[0] % 16)] + EncodeBytes(b[1..])
  }

  function DecodeBytes(s: string): (r: Option<seq<Byte>>)
    ensures r.Some? ==> |s| == 2 * |r.value|
  {
    if s == [] then Some([])
    else if |s| >= 2 && IsLowerHexDigit(s[0]) && IsLowerHexDigit(s[1]) then
      match DecodeBytes(s[2..])
      case None => None
      case Some(rest) => Some([LowerHexValue(s[0]) * 16 + LowerHexValue(s[1])] + rest)
    else None
  }

  lemma ByteDigits(x: Byte)
    ensures LowerHexValue(LowerHexDigit(x / 16)) * 16 + LowerHexValue(LowerHexDigit(x % 16)) == x
  {
  }

  lemma {:induction false} DecodeEncodeBytes(b: seq<Byte>)
    ensures DecodeBytes(EncodeBytes(b)) == Some(b)
  {
    if b != [] {
      var s := EncodeBytes(b);
      DecodeEncodeBytes(b[1..]);
      assert s[2..] == EncodeBytes(b[1..]);
      ByteDigits(b[0]);
      assert b == [b[0]] + b[1..];
    }
  }

  lemma DigitsOfByte(hi: char, lo: char)
    requires IsLowerHexDigit(hi) && IsLowerHexDigit(lo)
    ensures var x := LowerHexValue(hi) * 16 + LowerHexValue(lo);
            0 <= x < 256 && LowerHexDigit(x / 16) == hi && LowerHexDigit(x % 16) == lo
  {
  }

  lemma {:induction false} EncodeDecodeBytes(s: string, b: seq<Byte>)
    requires DecodeBytes(s) == Some(b)
    ensures EncodeBytes(b) == s
  {
    if s != [] {
      var rest := DecodeBytes(s[2..]).value;
      EncodeDecodeBytes(s[2..], rest);
      DigitsOfByte(s[0], s[1]);
      assert b == [LowerHexValue(s[0]) * 16 + LowerHexValue(s[1])] + rest;
      assert b[1..] == rest;
      assert s == [s[0], s[1]] + s[2..];
    }
  }

  /** `fernetkey.Encode()`. */
  function EncodeKey(k: KeyBytes): string {
    EncodeBytes(k)
  }

  /** `fernet.DecodeKey`: fails unless the text is exactly the encoding of a key. */
  function DecodeKey(s: string): Option<KeyBytes> {
    if |s| != 2 * KeyLength then None
    else
      match DecodeBytes(s)
      case None => None
      case Some(b) => Some(b)
  }

  /** The text form of a key identifies it, and only encoded keys decode. */
  lemma KeyCodec(s: string, k: KeyBytes)
    ensures DecodeKey(s) == Some(k) <==> s == EncodeKey(k)
  {
    DecodeEncodeBytes(k);
    if DecodeKey(s) == Some(k) {
      EncodeDecodeBytes(s, k);
    }
  }

  /** What `fernet.EncryptAndSign` produces, and what a corrupted store value looks like. */
  datatype Ciphertext = Sealed(key: KeyBytes, message: string) | Garbled(raw: string)

  /** `fernet.VerifyAndDecrypt` with no age limit: the message, or nothing (nil) when verification fails. */
  function VerifyAndDecrypt(token: Ciphertext, k: KeyBytes): string {
    if token.Sealed? && token.key == k then token.message else ""
  }

  datatype CipherError = EntropyExhausted | MalformedKey | EmptySecret

  /** The two results of `Encrypt`: the stored token and the key text that goes into the link. */
  datatype Encrypted = Encrypted(token: Ciphertext, key: string)

  /**
   * `Encrypt` (fernet.go:11-24): generate a key from the random source (`None`
   * when it fails) and seal the secret under it.
   */
  function Encrypt(secret: string, entropy: Option<KeyBytes>): (r: Result<Encrypted, CipherError>)
    ensures r.Failure? <==> entropy.None?
    ensures r.Success? ==> forall i :: 0 <= i < |r.value.key| ==> IsLowerHexDigit(r.value.key[i])
  {
    match entropy
    case None => Failure(EntropyExhausted)
    case Some(k) => Success(Encrypted(Sealed(k, secret), EncodeKey(k)))
  }

  /**
   * `Decrypt` (fernet.go:27-39): an error when the key text does not decode,
   * and an error when verification yields an empty message, which covers both
   * a failed verification and a secret that was empty.
   */
  function Decrypt(token: Ciphertext, key: string): (r: Result<string, CipherError>)
    ensures r.Success? ==> r.value != ""
  {
    match DecodeKey(key)
    case None => Failure(MalformedKey)
    case Some(k) =>
      var msg := VerifyAndDecrypt(token, k);
      if |msg| == 0 then Failure(EmptySecret) else Success(msg)
  }

  /**
   * Decryption succeeds exactly when the key text decodes to the sealing key
   * of a sealed, non-empty message, and then yields that message.
   */
  lemma DecryptSucceeds(token: Ciphertext, key: string)
    ensures Decrypt(token, key).Success? <==>
              token.Sealed? && DecodeKey(key) == Some(token.key) && token.message != ""
    ensures Decrypt(token, key).Success? ==> Decrypt(token, key).value == token.message
  {
  }

  /** What `Encrypt` seals, `Decrypt` opens with the key it returned, unless the secret was empty. */
  lemma EncryptDecrypt(secret: string, k: KeyBytes)
    ensures Encrypt(secret, Some(k)).Success?
    ensures var e := Encrypt(secret, Some(k)).value;
            Decrypt(e.token, e.key) == if secret == "" then Failure(EmptySecret) else Success(secret)
  {
    KeyCodec(EncodeKey(k), k);
  }
}
