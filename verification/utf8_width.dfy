/** `count_bits_per_char`: the bit width the encoder gives one message
    character, which is eight times the longest UTF-8 encoding of any
    character in the message; bytes that are not well-formed UTF-8 are
    refused. The syntax of well-formed UTF-8 is that of section 4 of
    RFC 3629, and the encoded length of a character is the one its code
    point is given in the table of section 3. */
module Utf8Width {
  import opened Wrappers
  import opened Numeric

  datatype Utf8Error = InvalidMessageEncoding

  /** UTF8-tail = %x80-BF */
  predicate IsTail(b: Byte)
  {
    0x80 <= b <= 0xBF
  }

  /** UTF8-char = UTF8-1 / UTF8-2 / UTF8-3 / UTF8-4 */
  predicate IsEncodedChar(c: seq<Byte>)
  {
    || (|c| == 1 && c[0] <= 0x7F)
    || (|c| == 2 && 0xC2 <= c[0] <= 0xDF && IsTail(c[1]))
    || (|c| == 3 && IsTail(c[2]) &&
        (|| (c[0] == 0xE0 && 0xA0 <= c[1] <= 0xBF)
         || (0xE1 <= c[0] <= 0xEC && IsTail(c[1]))
         || (c[0] == 0xED && 0x80 <= c[1] <= 0x9F)
         || (0xEE <= c[0] <= 0xEF && IsTail(c[1]))))
    || (|c| == 4 && IsTail(c[2]) && IsTail(c[3]) &&
        (|| (c[0] == 0xF0 && 0x90 <= c[1] <= 0xBF)
         || (0xF1 <= c[0] <= 0xF3 && IsTail(c[1]))
         || (c[0] == 0xF4 && 0x80 <= c[1] <= 0x8F)))
  }

  /** The first `len` bytes of `bytes` form one character. */
  predicate StartsWithChar(bytes: seq<Byte>, len: nat)
  {
    1 <= len <= |bytes| && IsEncodedChar(bytes[..len])
  }

  /** UTF8-octets = *( UTF8-char ) */
  predicate WellFormed(bytes: seq<Byte>)
    decreases |bytes|
  {
    || |bytes| == 0
    || exists len :: 1 <= len <= 4 && StartsWithChar(bytes, len) && WellFormed(bytes[len..])
  }

  /** The concatenation of a sequence of byte strings. */
  function Flatten(parts: seq<seq<Byte>>): seq<Byte>
  {
    if |parts| == 0 then [] else parts[0] + Flatten(parts[1..])
  }

  /** The encoded length a character's first byte announces, or 0 for a
      byte no character can start with. */
  function LeadLength(b: Byte): nat
  {
    if b <= 0x7F then 1
    else if 0xC2 <= b <= 0xDF then 2
    else if 0xE0 <= b <= 0xEF then 3
    else if 0xF0 <= b <= 0xF4 then 4
    else 0
  }

  /** The code point an encoded character stands for, assembled from the
      payload bits of its bytes as section 3 of RFC 3629 lays them out. */
  function CodePoint(c: seq<Byte>): nat
    requires IsEncodedChar(c)
  {
    var b0: int := c[0];
    if |c| == 1 then b0
    else
      var b1: int := c[1];
      if |c| == 2 then (b0 % 32) * 64 + b1 % 64
      else
        var b2: int := c[2];
        if |c| == 3 then (b0 % 16) * 4096 + (b1 % 64) * 64 + b2 % 64
        else
          var b3: int := c[3];
          (b0 % 8) * 262144 + (b1 % 64) * 4096 + (b2 % 64) * 64 + b3 % 64
  }

  /** `char::len_utf8`: the number of bytes section 3 of RFC 3629 assigns to
      a code point's range. */
  function EncodedLength(cp: nat): nat
  {
    if cp <= 0x7F then 1
    else if cp <= 0x7FF then 2
    else if cp <= 0xFFFF then 3
    else 4
  }

  /** `str::from_utf8` followed by `chars()`: the encoded characters of the
      bytes in order, or `None` when the bytes are not well-formed. */
  function Chars(bytes: seq<Byte>): (r: Option<seq<seq<Byte>>>)
    ensures r.Some? <==> WellFormed(bytes)
    ensures r.Some? ==> Flatten(r.value) == bytes
    ensures r.Some? ==> forall k :: 0 <= k < |r.value| ==> IsEncodedChar(r.value[k])
    decreases |bytes|
  {
    if |bytes| == 0 then Some([])
    else
      var len := LeadLength(bytes[0]);
      LeadDeterminesLength(bytes);
      if len == 0 || |bytes| < len || !IsEncodedChar(bytes[..len]) then None
      else match Chars(bytes[len..])
        case None => None
        case Some(rest) =>
          assert bytes == bytes[..len] + bytes[len..];
          Some([bytes[..len]] + rest)
  }

  /** The first byte of a character determines its length: an encoding is
      never a prefix of another. */
  lemma LeadDeterminesLength(bytes: seq<Byte>)
    requires |bytes| > 0
    ensures forall len :: StartsWithChar(bytes, len) ==> len == LeadLength(bytes[0])
  {
    forall len: nat | StartsWithChar(bytes, len)
      ensures len == LeadLength(bytes[0])
    {
      assert bytes[..len][0] == bytes[0];
    }
  }

  /** A well-formed character's encoded length is the length its code point
      is given: no character is encoded in more bytes than it needs. */
  lemma EncodedLengthOfCodePoint(c: seq<Byte>)
    requires IsEncodedChar(c)
    ensures EncodedLength(CodePoint(c)) == |c|
  {
  }

  lemma {:induction false} AsciiCharsAreSingleBytes(bytes: seq<Byte>)
    requires forall i :: 0 <= i < |bytes| ==> bytes[i] <= 0x7F
    ensures Chars(bytes).Some?
    ensures forall k :: 0 <= k < |Chars(bytes).value| ==> |Chars(bytes).value[k]| == 1
    decreases |bytes|
  {
    if |bytes| > 0 {
      AsciiCharsAreSingleBytes(bytes[1..]);
    }
  }

  /** `count_bits_per_char`: eight times the longest character's encoded
      length, over the characters in order. */
  method CountBitsPerChar(bytes: seq<Byte>) returns (r: Result<nat, Utf8Error>)
    ensures r.Failure? <==> !WellFormed(bytes)
    ensures r == Success(0) <==> |bytes| == 0
    ensures r.Success? ==> r.value in {0, 8, 16, 24, 32}
    ensures r.Success? ==> forall k :: 0 <= k < |Chars(bytes).value| ==>
              8 * |Chars(bytes).value[k]| <= r.value
    ensures r.Success? && |bytes| > 0 ==>
              exists k :: 0 <= k < |Chars(bytes).value| && 8 * |Chars(bytes).value[k]| == r.value
    ensures |bytes| > 0 && (forall i :: 0 <= i < |bytes| ==> bytes[i] <= 0x7F) ==> r == Success(8)
  {
    if |bytes| > 0 && forall i :: 0 <= i < |bytes| ==> bytes[i] <= 0x7F {
      AsciiCharsAreSingleBytes(bytes);
    }
    var decoded := Chars(bytes);
    if decoded.None? {
      return Failure(InvalidMessageEncoding);
    }
    var chars := decoded.value;
    var maxBits := LongestCharBits(chars);
    if |bytes| > 0 {
      assert |chars| > 0;
    }
    return Success(maxBits);
  }

  /** The loop of `count_bits_per_char` over the decoded characters: the
      largest `len_utf8() * 8` seen. */
  method LongestCharBits(chars: seq<seq<Byte>>) returns (maxBits: nat)
    requires forall k :: 0 <= k < |chars| ==> IsEncodedChar(chars[k])
    ensures maxBits in {0, 8, 16, 24, 32}
    ensures maxBits == 0 <==> |chars| == 0
    ensures forall k :: 0 <= k < |chars| ==> 8 * |chars[k]| <= maxBits
    ensures |chars| > 0 ==> exists k :: 0 <= k < |chars| && 8 * |chars[k]| == maxBits
  {
    maxBits := 0;
    for k := 0 to |chars|
      invariant maxBits in {0, 8, 16, 24, 32}
      invariant maxBits == 0 <==> k == 0
      invariant forall t :: 0 <= t < k ==> 8 * |chars[t]| <= maxBits
      invariant k > 0 ==> exists t :: 0 <= t < k && 8 * |chars[t]| == maxBits
    {
      EncodedLengthOfCodePoint(chars[k]);
      var bits := EncodedLength(CodePoint(chars[k])) * 8;
      assert bits == 8 * |chars[k]|;
      if bits > maxBits {
        maxBits := bits;
      }
    }
  }
}
