/** The at-rest format of journal content (`encrypt` and `decrypt` in
    server/src/controllers/entry.controller.ts): AES-256-CBC under one
    process-wide 32-byte key, a fresh 16-byte IV per record, stored as
    `hex(iv) ":" hex(ciphertext)`. Decryption never fails: any problem gives
    the fixed placeholder text. */
module CipherRecord {
  import opened Common
  import Hex
  import opened JsText

  const IvLength: int := 16
  const KeyLength: int := 32
  const Placeholder: string := "[Encrypted Content]"

  /** The default key used when `ENCRYPTION_KEY` is not set (32 ASCII digits). */
  const DefaultKey: seq<Byte> :=
    seq(32, i requires 0 <= i < 32 => '0' as int + (i + 1) % 10)

  /** The fallback key is the 32 ASCII bytes of "12345678901234567890123456789012",
      so `encrypt` under it never throws. */
  lemma DefaultKeyEncrypts(c: Cipher, iv: seq<Byte>, text: string)
    requires |iv| == IvLength
    ensures forall i | 0 <= i < |DefaultKey| :: DefaultKey[i] == "12345678901234567890123456789012"[i] as int
    ensures |DefaultKey| == KeyLength && Encrypt(c, DefaultKey, iv, text).Some?
  {
  }

  /** AES-256-CBC (with the UTF-8 conversion of the text folded in):
      `seal(key, iv, text)` is `cipher.update(text) ++ cipher.final()`;
      `open(key, iv, ct)` is the decipher's output, None when `final()`
      rejects the padding. */
  datatype Cipher = Cipher(
    seal: (seq<Byte>, seq<Byte>, string) -> seq<Byte>,
    open: (seq<Byte>, seq<Byte>, seq<Byte>) -> Option<string>)

  /** The one property of the cipher the model relies on: with a 32-byte key
      and a 16-byte IV, opening what was sealed gives the text back. */
  ghost predicate Inverse(c: Cipher)
  {
    forall key: seq<Byte>, iv: seq<Byte>, text: string {:trigger c.seal(key, iv, text)} ::
      |key| == KeyLength && |iv| == IvLength ==> c.open(key, iv, c.seal(key, iv, text)) == Some(text)
  }

  /** `encrypt(text)`; `iv` is the output of `crypto.randomBytes(16)`. None
      stands for the exception `createCipheriv` throws on a key that is not
      32 bytes long. */
  function Encrypt(c: Cipher, key: seq<Byte>, iv: seq<Byte>, text: string): (r: Option<string>)
    requires |iv| == IvLength
    ensures r.Some? <==> |key| == KeyLength
    ensures r.Some? ==> IsRecord(r.value)
  {
    if |key| != KeyLength then None
    else Some(Hex.Encode(iv) + ":" + Hex.Encode(c.seal(key, iv, text)))
  }

  /** The shape of every stored record: 32 lower-case hex digits, ':', then
      an even number of lower-case hex digits. Plain text of the journal is
      never in this shape unless it happens to look exactly like a record. */
  predicate IsRecord(s: string)
  {
    |s| >= 2 * IvLength + 1 && s[2 * IvLength] == ':' &&
    Hex.AllLowerHex(s[..2 * IvLength]) &&
    Hex.AllLowerHex(s[2 * IvLength + 1..]) && |s[2 * IvLength + 1..]| % 2 == 0
  }

  /** `textParts = text.split(':')`, then `textParts.shift()` and
      `textParts.join(':')`: the text before the first ':' and everything
      after it (the whole text and "" when there is no ':'). */
  function Halves(text: string): (h: (string, string))
    ensures ':' !in h.0
    ensures ':' in text ==> text == h.0 + ":" + h.1
    ensures ':' !in text ==> h == (text, "")
  {
    var parts := Split(text, ':');
    JoinSplit(text, ':');
    (parts[0], Join(parts[1..], ':'))
  }

  /** `decrypt(text)`: never fails. A key that is not 32 bytes, an IV field
      that does not decode to exactly 16 bytes, or a ciphertext the
      decipher rejects gives the placeholder. */
  function Decrypt(c: Cipher, key: seq<Byte>, text: string): (r: string)
    ensures |key| != KeyLength ==> r == Placeholder
    ensures |Hex.Decode(Halves(text).0)| != IvLength ==> r == Placeholder
    ensures r == Placeholder || c.open(key, Hex.Decode(Halves(text).0), Hex.Decode(Halves(text).1)) == Some(r)
    ensures |key| == KeyLength && |Hex.Decode(Halves(text).0)| == IvLength &&
            c.open(key, Hex.Decode(Halves(text).0), Hex.Decode(Halves(text).1)).Some? ==>
              r == c.open(key, Hex.Decode(Halves(text).0), Hex.Decode(Halves(text).1)).value
  {
    var (ivHex, ctHex) := Halves(text);
    var iv := Hex.Decode(ivHex);
    var ct := Hex.Decode(ctHex);
    if |key| != KeyLength || |iv| != IvLength then Placeholder
    else match c.open(key, iv, ct)
      case Some(plain) => plain
      case None => Placeholder
  }

  /** A record `encrypt` produced is cut by `decrypt` exactly where it was
      joined: the IV field is 32 hex digits and the rest is the ciphertext's hex. */
  lemma RecordFraming(c: Cipher, key: seq<Byte>, iv: seq<Byte>, text: string)
    requires |iv| == IvLength && |key| == KeyLength
    ensures Halves(Encrypt(c, key, iv, text).value) == (Hex.Encode(iv), Hex.Encode(c.seal(key, iv, text)))
    ensures |Halves(Encrypt(c, key, iv, text).value).0| == 2 * IvLength
  {
    var a, b := Hex.Encode(iv), Hex.Encode(c.seal(key, iv, text));
    var record := a + ":" + b;
    assert record[|a|] == ':';
    var h := Halves(record);
    FirstSeparatorUnique(a, b, h.0, h.1, ':');
  }

  /** Round trip: with a cipher pair that inverts, decrypting what was
      encrypted gives the text back. */
  lemma DecryptEncrypt(c: Cipher, key: seq<Byte>, iv: seq<Byte>, text: string)
    requires Inverse(c)
    requires |iv| == IvLength && |key| == KeyLength
    ensures Decrypt(c, key, Encrypt(c, key, iv, text).value) == text
  {
    RecordFraming(c, key, iv, text);
    Hex.DecodeEncode(iv);
    Hex.DecodeEncode(c.seal(key, iv, text));
  }

  /** Two encryptions with different IVs give different records (and both
      decrypt to the text, by DecryptEncrypt). */
  lemma FreshIvFreshRecord(c: Cipher, key: seq<Byte>, iv1: seq<Byte>, iv2: seq<Byte>, text: string)
    requires |iv1| == IvLength && |iv2| == IvLength && |key| == KeyLength
    requires iv1 != iv2
    ensures Encrypt(c, key, iv1, text) != Encrypt(c, key, iv2, text)
  {
    RecordFraming(c, key, iv1, text);
    RecordFraming(c, key, iv2, text);
    if Encrypt(c, key, iv1, text) == Encrypt(c, key, iv2, text) {
      Hex.EncodeInjective(iv1, iv2);
    }
  }
}
