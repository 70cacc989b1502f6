/** Message bytes as an ordered bit stream, most significant bit first, and
    the packing of a bit stream back into bytes. A final partial byte is
    padded with zero bits on the right. */
module BitPacking {
  import opened Numeric

  /** `width` zero bits. */
  function Zeros(width: nat): seq<bool>
  {
    seq(width, _ => false)
  }

  /** The `width` low-order binary digits of `v`, most significant first. */
  function ToBits(v: nat, width: nat): (bits: seq<bool>)
    ensures |bits| == width
  {
    if width == 0 then [] else ToBits(v / 2, width - 1) + [v % 2 == 1]
  }

  /** The number whose binary digits, most significant first, are `bits`. */
  function FromBits(bits: seq<bool>): (v: nat)
    ensures v < Pow2(|bits|)
  {
    if |bits| == 0 then 0
    else 2 * FromBits(bits[..|bits| - 1]) + (if bits[|bits| - 1] then 1 else 0)
  }

  /** The bit stream of a byte sequence: each byte contributes its eight bits,
      most significant first, in byte order. */
  function Unpack(bytes: seq<Byte>): (bits: seq<bool>)
    ensures |bits| == 8 * |bytes|
  {
    if |bytes| == 0 then [] else ToBits(bytes[0], 8) + Unpack(bytes[1..])
  }

  /** The bytes holding a bit stream, eight bits per byte, most significant
      bit first; the last byte is padded with zero bits. */
  function Pack(bits: seq<bool>): (bytes: seq<Byte>)
    ensures |bytes| == (|bits| + 7) / 8
  {
    if |bits| == 0 then []
    else if |bits| < 8 then [FromBits(bits + Zeros(8 - |bits|))]
    else [FromBits(bits[..8])] + Pack(bits[8..])
  }

  lemma {:induction false} FromBitsToBits(v: nat, width: nat)
    requires v < Pow2(width)
    ensures FromBits(ToBits(v, width)) == v
    decreases width
  {
    if width > 0 {
      var high := ToBits(v / 2, width - 1);
      assert (high + [v % 2 == 1])[..width - 1] == high;
      FromBitsToBits(v / 2, width - 1);
    }
  }

  lemma {:induction false} ToBitsFromBits(bits: seq<bool>)
    ensures ToBits(FromBits(bits), |bits|) == bits
    decreases |bits|
  {
    if |bits| > 0 {
      var w := |bits|;
      ToBitsFromBits(bits[..w - 1]);
      assert bits == bits[..w - 1] + [bits[w - 1]];
    }
  }

  /** Bit `k` of `ToBits(v, width)` is the binary digit of weight
      2^(width-1-k): the stream is most significant bit first. */
  lemma {:induction false} ToBitsMsbFirst(v: nat, width: nat, k: nat)
    requires k < width
    ensures ToBits(v, width)[k] == ((v / Pow2(width - 1 - k)) % 2 == 1)
    decreases width
  {
    if k < width - 1 {
      ToBitsMsbFirst(v / 2, width - 1, k);
      HalveThenDivide(v, Pow2(width - 2 - k));
    }
  }

  lemma HalveThenDivide(v: nat, p: nat)
    requires p > 0
    ensures (v / 2) / p == v / (2 * p)
  {
    var q, r := v / (2 * p), v % (2 * p);
    assert v == 2 * p * q + r && 0 <= r < 2 * p;
    assert v / 2 == p * q + r / 2;
    assert 0 <= r / 2 < p;
    WindowOf(v / 2, q, p);
  }

  lemma FromBitsZeros(width: nat)
    ensures FromBits(Zeros(width)) == 0
  {
    if width > 0 {
      assert Zeros(width)[..width - 1] == Zeros(width - 1);
      FromBitsZeros(width - 1);
    }
  }

  /** Unpacking the bytes of a packed bit stream gives back the stream,
      followed by the zero padding of the last byte. */
  lemma {:induction false} UnpackPack(bits: seq<bool>)
    ensures Unpack(Pack(bits)) == bits + Zeros(8 * ((|bits| + 7) / 8) - |bits|)
    decreases |bits|
  {
    var packed := Pack(bits);
    if |bits| == 0 {
    } else if |bits| < 8 {
      var full := bits + Zeros(8 - |bits|);
      ToBitsFromBits(full);
      assert packed[1..] == [];
    } else {
      ToBitsFromBits(bits[..8]);
      UnpackPack(bits[8..]);
      assert packed[1..] == Pack(bits[8..]);
      assert bits == bits[..8] + bits[8..];
    }
  }

  /** Packing the bit stream of a byte sequence gives back the bytes. */
  lemma {:induction false} PackUnpack(bytes: seq<Byte>)
    ensures Pack(Unpack(bytes)) == bytes
    decreases |bytes|
  {
    if |bytes| > 0 {
      var bits := Unpack(bytes);
      assert bits[..8] == ToBits(bytes[0], 8);
      assert bits[8..] == Unpack(bytes[1..]);
      FromBitsToBits(bytes[0], 8);
      PackUnpack(bytes[1..]);
      assert bytes == [bytes[0]] + bytes[1..];
    }
  }

  /** Bit `i` of a byte stream's bit-stream is bit `i % 8`, most significant
      first, of byte `i / 8`. */
  lemma {:induction false} UnpackIndex(bytes: seq<Byte>, i: nat)
    requires i < 8 * |bytes|
    ensures Unpack(bytes)[i] == ToBits(bytes[i / 8], 8)[i % 8]
    decreases |bytes|
  {
    if i >= 8 {
      assert (i - 8) / 8 == i / 8 - 1 && (i - 8) % 8 == i % 8;
      UnpackIndex(bytes[1..], i - 8);
      assert Unpack(bytes)[i] == Unpack(bytes[1..])[i - 8];
    } else {
      assert i / 8 == 0 && i % 8 == i;
      assert Unpack(bytes)[i] == ToBits(bytes[0], 8)[i];
    }
  }

  /** An all-zero bit stream packs into zero bytes. */
  lemma {:induction false} PackZeros(width: nat)
    ensures Pack(Zeros(width)) == seq((width + 7) / 8, _ => 0)
    decreases width
  {
    if 0 < width < 8 {
      assert Zeros(width) + Zeros(8 - width) == Zeros(8);
      FromBitsZeros(8);
    } else if width >= 8 {
      assert Zeros(width)[..8] == Zeros(8);
      assert Zeros(width)[8..] == Zeros(width - 8);
      FromBitsZeros(8);
      PackZeros(width - 8);
    }
  }
}
