/**
 * The credential codec: a Caesar shift by CAESAR_SHIFT (3) applied to every
 * byte of a password before it is stored, and undone before comparison.
 * It is an obfuscation, not a cipher, and offers no security.
 *
 * The C code adds 3 to a `char` and stores the result back into a `char`;
 * on the byte view this wraps modulo 256, which the model writes out.
 */
module CredentialCodec {

  const Shift: int := 3

  /** Text made of single bytes, the only text a C `char` buffer can hold. */
  predicate IsByteString(s: string) {
    forall i :: 0 <= i < |s| ==> s[i] as int < 256
  }

  function ShiftUp(c: char): (r: char)
    ensures r as int < 256
  {
    ((c as int + Shift) % 256) as char
  }

  function ShiftDown(c: char): (r: char)
    ensures r as int < 256
  {
    ((c as int - Shift) % 256) as char
  }

  /** caesar_encrypt: every byte moves up by 3, modulo 256, and the length is kept. */
  function Encrypt(s: string): (r: string)
    ensures |r| == |s|
    ensures forall i :: 0 <= i < |s| ==> r[i] as int == (s[i] as int + Shift) % 256
  {
    seq(|s|, i requires 0 <= i < |s| => ShiftUp(s[i]))
  }

  /** caesar_decrypt: every byte moves down by 3, modulo 256, and the length is kept. */
  function Decrypt(s: string): (r: string)
    ensures |r| == |s|
    ensures forall i :: 0 <= i < |s| ==> r[i] as int == (s[i] as int - Shift) % 256
  {
    seq(|s|, i requires 0 <= i < |s| => ShiftDown(s[i]))
  }

  /** On a byte, the two shifts undo each other in either order. */
  lemma ShiftsCancel(c: char)
    requires c as int < 256
    ensures ShiftDown(ShiftUp(c)) == c
    ensures ShiftUp(ShiftDown(c)) == c
  {
  }

  /** Decrypting what was encrypted gives the password back, for any byte text. */
  lemma DecryptEncrypt(s: string)
    requires IsByteString(s)
    ensures Decrypt(Encrypt(s)) == s
  {
    forall i | 0 <= i < |s| ensures Decrypt(Encrypt(s))[i] == s[i] {
      ShiftsCancel(s[i]);
    }
  }

  /** The codec is also a left inverse in the other order: stored bytes survive decrypt then encrypt. */
  lemma EncryptDecrypt(s: string)
    requires IsByteString(s)
    ensures Encrypt(Decrypt(s)) == s
  {
    forall i | 0 <= i < |s| ensures Encrypt(Decrypt(s))[i] == s[i] {
      ShiftsCancel(s[i]);
    }
  }

  /** Two byte passwords with the same stored form are the same password. */
  lemma EncryptInjective(s: string, t: string)
    requires IsByteString(s) && IsByteString(t)
    requires Encrypt(s) == Encrypt(t)
    ensures s == t
  {
    DecryptEncrypt(s);
    DecryptEncrypt(t);
  }

  /** caesar_encrypt as the source writes it: a loop filling an output buffer. */
  method CaesarEncrypt(input: string) returns (output: string)
    ensures output == Encrypt(input)
  {
    output := [];
    var i := 0;
    while i < |input|
      invariant 0 <= i <= |input|
      invariant |output| == i
      invariant forall k :: 0 <= k < i ==> output[k] == Encrypt(input)[k]
    {
      output := output + [ShiftUp(input[i])];
      i := i + 1;
    }
  }

  /** caesar_decrypt as the source writes it. */
  method CaesarDecrypt(input: string) returns (output: string)
    ensures output == Decrypt(input)
  {
    output := [];
    var i := 0;
    while i < |input|
      invariant 0 <= i <= |input|
      invariant |output| == i
      invariant forall k :: 0 <= k < i ==> output[k] == Decrypt(input)[k]
    {
      output := output + [ShiftDown(input[i])];
      i := i + 1;
    }
  }
}
