/**
 * The four message encoders of the crypto maze (`Phase2Controller._encode_*`),
 * the rotation that picks one per position, and the decoders a participant
 * applies, which are their partners.
 */
module Encoders {
  import opened Common
  import opened Text
  import Utf8
  import Base64

  // ---------------------------------------------------------------------------
  // base64
  // ---------------------------------------------------------------------------

  /** `_encode_base64`: `base64.b64encode(message.encode()).decode()`. */
  function EncodeBase64(message: string): string {
    Base64.Encode(Utf8.Encode(message))
  }

  /** `base64.b64decode(text).decode()`, strict on both steps. */
  function DecodeBase64(text: string): Option<string> {
    match Base64.Decode(text)
    case None => None
    case Some(bytes) => Utf8.Decode(bytes)
  }

  lemma DecodeEncodeBase64(message: string)
    ensures DecodeBase64(EncodeBase64(message)) == Some(message)
  {
    Base64.DecodeEncode(Utf8.Encode(message));
    Utf8.DecodeEncode(message);
  }

  /** For ASCII text, one byte per character: 4 * ceil(n / 3) characters, padded as RFC 4648 says. */
  lemma EncodeBase64Length(message: string)
    requires IsAscii(message)
    ensures |EncodeBase64(message)| == 4 * ((|message| + 2) / 3)
    ensures Base64.PaddedBy(EncodeBase64(message), Base64.PadLength(|message|))
  {
    Utf8.EncodeAscii(message);
    Base64.EncodeLength(Utf8.Encode(message));
    Base64.EncodePadding(Utf8.Encode(message));
  }

  // ---------------------------------------------------------------------------
  // Caesar shift
  // ---------------------------------------------------------------------------

  const CaesarShift := 3

  predicate IsUpper(c: char) { 'A' <= c <= 'Z' }

  predicate IsLower(c: char) { 'a' <= c <= 'z' }

  /** `str.isalpha()` on ASCII letters. */
  predicate IsAlpha(c: char) { IsUpper(c) || IsLower(c) }

  /** The letter `shift` places further round its own alphabet, case kept; anything else unchanged. */
  function ShiftLetter(c: char, shift: int): (r: char)
    ensures IsUpper(r) == IsUpper(c) && IsLower(r) == IsLower(c)
    ensures !IsAlpha(c) ==> r == c
  {
    if IsAlpha(c) then
      var offset := if IsUpper(c) then 'A' as int else 'a' as int;
      ((c as int - offset + shift) % 26 + offset) as char
    else c
  }

  /** `_encode_caesar(message, shift)`: every letter shifted, every other character kept. */
  function Caesar(message: string, shift: int): (r: string)
    ensures |r| == |message|
  {
    seq(|message|, i requires 0 <= i < |message| => ShiftLetter(message[i], shift))
  }

  /** `_encode_caesar`, as the loop the source runs. */
  method EncodeCaesar(message: string, shift: int) returns (result: string)
    ensures result == Caesar(message, shift)
  {
    result := "";
    for i := 0 to |message|
      invariant |result| == i
      invariant forall j :: 0 <= j < i ==> result[j] == ShiftLetter(message[j], shift)
    {
      var c := message[i];
      if IsAlpha(c) {
        var asciiOffset := if IsUpper(c) then 'A' as int else 'a' as int;
        result := result + [((c as int - asciiOffset + shift) % 26 + asciiOffset) as char];
      } else {
        result := result + [c];
      }
    }
  }

  lemma ModAdd(x: int, a: int, b: int)
    ensures ((x + a) % 26 + b) % 26 == (x + a + b) % 26
  {
    var q := (x + a) / 26;
    assert (x + a) % 26 + b == (x + a + b) - 26 * q;
  }

  /** Two shifts in a row are one shift by their sum. */
  lemma ShiftLetterCompose(c: char, a: int, b: int)
    ensures ShiftLetter(ShiftLetter(c, a), b) == ShiftLetter(c, a + b)
  {
    if IsAlpha(c) {
      var offset := if IsUpper(c) then 'A' as int else 'a' as int;
      ModAdd(c as int - offset, a, b);
    }
  }

  lemma CaesarCompose(message: string, a: int, b: int)
    ensures Caesar(Caesar(message, a), b) == Caesar(message, a + b)
  {
    forall i | 0 <= i < |message|
      ensures Caesar(Caesar(message, a), b)[i] == Caesar(message, a + b)[i]
    {
      ShiftLetterCompose(message[i], a, b);
    }
  }

  /** Shifting by 23 undoes the shift by 3: the decoder of the Caesar scheme. */
  lemma CaesarInverse(message: string)
    ensures Caesar(Caesar(message, CaesarShift), 26 - CaesarShift) == message
  {
    CaesarCompose(message, CaesarShift, 26 - CaesarShift);
    forall i | 0 <= i < |message|
      ensures Caesar(message, 26)[i] == message[i]
    {
      var c := message[i];
      if IsAlpha(c) {
        var offset := if IsUpper(c) then 'A' as int else 'a' as int;
        assert (c as int - offset + 26) % 26 == c as int - offset;
      }
    }
  }

  // ---------------------------------------------------------------------------
  // XOR with 42
  // ---------------------------------------------------------------------------

  const XorKey: bv6 := 42

  /** Proof helper: the low six bits of a code point XORed with the key, as a number. */
  function XorLow(x: int): (y: int)
    requires 0 <= x < 64
    ensures 0 <= y < 64
  {
    ((x as bv6) ^ XorKey) as int
  }

  lemma XorBitsInvolution(b: bv6)
    ensures (b ^ XorKey) ^ XorKey == b
  {
  }

  lemma BitsRoundTrip(b: bv6)
    ensures (b as int) as bv6 == b
  {
  }

  lemma XorLowInvolution(x: int)
    requires 0 <= x < 64
    ensures XorLow(XorLow(x)) == x
  {
    var b := x as bv6;
    XorBitsInvolution(b);
    BitsRoundTrip(b ^ XorKey);
  }

  /**
   * `chr(ord(c) ^ 42)`. The key is below 64, so only the low six bits of the
   * code point change and the result stays in the same block of 64 code points.
   */
  function XorChar(c: char): (r: char)
    ensures r as int / 64 == c as int / 64
    ensures r as int % 64 == XorLow(c as int % 64)
    ensures c as int < 128 ==> r as int < 128
  {
    var v := c as int;
    (v / 64 * 64 + XorLow(v % 64)) as char
  }

  /** `_encode_xor`: `''.join([chr(ord(c) ^ 42) for c in message])`. */
  function Xor(message: string): (r: string)
    ensures |r| == |message|
  {
    seq(|message|, i requires 0 <= i < |message| => XorChar(message[i]))
  }

  lemma XorCharInvolution(c: char)
    ensures XorChar(XorChar(c)) == c
  {
    var v, w := c as int, XorChar(c) as int;
    XorLowInvolution(v % 64);
    assert XorChar(XorChar(c)) as int == w / 64 * 64 + XorLow(w % 64);
    assert v == v / 64 * 64 + v % 64;
  }

  /** XOR with 42 is its own inverse, and keeps ASCII text ASCII. */
  lemma XorInvolution(message: string)
    ensures Xor(Xor(message)) == message
    ensures IsAscii(message) ==> IsAscii(Xor(message))
  {
    forall i | 0 <= i < |message|
      ensures Xor(Xor(message))[i] == message[i]
    {
      XorCharInvolution(message[i]);
    }
  }

  // ---------------------------------------------------------------------------
  // custom: reverse, then base64
  // ---------------------------------------------------------------------------

  /** `_encode_custom`: `base64.b64encode(message[::-1].encode()).decode()`. */
  function EncodeCustom(message: string): string {
    EncodeBase64(Reverse(message))
  }

  function DecodeCustom(text: string): Option<string> {
    match DecodeBase64(text)
    case None => None
    case Some(reversed) => Some(Reverse(reversed))
  }

  lemma DecodeEncodeCustom(message: string)
    ensures DecodeCustom(EncodeCustom(message)) == Some(message)
  {
    DecodeEncodeBase64(Reverse(message));
    ReverseReverse(message);
  }

  // ---------------------------------------------------------------------------
  // The rotation of schemes
  // ---------------------------------------------------------------------------

  datatype EncodingType = Base64Type | CaesarType | XorType | CustomType {
    /** The name the API reports. */
    function Name(): string {
      match this
      case Base64Type => "base64"
      case CaesarType => "caesar"
      case XorType => "xor"
      case CustomType => "custom"
    }
  }

  const Types: seq<EncodingType> := [Base64Type, CaesarType, XorType, CustomType]

  /** `_get_next_encoding_type`: `types[int(position) % len(types)]` (a floor modulo, as in Python). */
  function NextEncodingType(position: int): EncodingType {
    Types[position % |Types|]
  }

  /** The rotation starts with base64 and repeats every four positions. */
  lemma NextEncodingTypeRotates(position: int)
    ensures NextEncodingType(0) == Base64Type
    ensures NextEncodingType(position + 4) == NextEncodingType(position)
    ensures NextEncodingType(position).Name() == ["base64", "caesar", "xor", "custom"][position % 4]
  {
    assert (position + 4) % 4 == position % 4;
  }

  /** `self.encoding_methods[t](message)`. */
  function Encode(t: EncodingType, message: string): string {
    match t
    case Base64Type => EncodeBase64(message)
    case CaesarType => Caesar(message, CaesarShift)
    case XorType => Xor(message)
    case CustomType => EncodeCustom(message)
  }

  /** What a participant applies to recover the plaintext. */
  function Decode(t: EncodingType, text: string): Option<string> {
    match t
    case Base64Type => DecodeBase64(text)
    case CaesarType => Some(Caesar(text, 26 - CaesarShift))
    case XorType => Some(Xor(text))
    case CustomType => DecodeCustom(text)
  }

  /** Every scheme can be undone: decoding an encoded message gives the message. */
  lemma DecodeEncode(t: EncodingType, message: string)
    ensures Decode(t, Encode(t, message)) == Some(message)
  {
    match t
    case Base64Type => DecodeEncodeBase64(message);
    case CaesarType => CaesarInverse(message);
    case XorType => XorInvolution(message);
    case CustomType => DecodeEncodeCustom(message);
  }

  /**
   * `self.encoding_methods[encoding_type](message)` (the dispatch in
   * `_create_encoded_messages`): the encoder of `t`, running the Caesar loop for
   * that scheme; `Encode` is the function it is proved against.
   */
  method EncodeWith(t: EncodingType, message: string) returns (encoded: string)
    ensures encoded == Encode(t, message)
  {
    match t {
      case Base64Type => encoded := EncodeBase64(message);
      case CaesarType => encoded := EncodeCaesar(message, CaesarShift);
      case XorType => encoded := Xor(message);
      case CustomType => encoded := EncodeCustom(message);
    }
  }
}
