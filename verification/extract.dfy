/** The watermark decoder `dest`: one bit per window, decided from the
    normalised residual of the window's first sample alone, packed most
    significant bit first into bytes. */
module Extract {
  import opened Numeric
  import opened BitPacking

  /** The sign (1, -1 or 0) of the normalised residual
      `(stego - orig) / (orig + 2.0)`. At `orig == -2.0` the f64 division
      is by +0.0 and yields an infinity of the numerator's sign, or NaN
      (neither positive nor negative) when the numerator is zero too. */
  function ResidualSign(stego: real, orig: real): (s: int)
    ensures -1 <= s <= 1
    ensures s == 0 <==> stego == orig
    ensures orig + 2.0 >= 0.0 ==> (s == 1 <==> stego > orig)
    ensures orig + 2.0 < 0.0 ==> (s == 1 <==> stego < orig)
  {
    if orig + 2.0 != 0.0 then
      var residual := (stego - orig) / (orig + 2.0);
      QuotientSign(stego - orig, orig + 2.0);
      if residual > 0.0 then 1 else if residual < 0.0 then -1 else 0
    else if stego > orig then 1
    else if stego < orig then -1
    else 0
  }

  /** A quotient is positive exactly when its operands have the same sign,
      and zero exactly when its numerator is. */
  lemma QuotientSign(x: real, y: real)
    requires y != 0.0
    ensures x / y == 0.0 <==> x == 0.0
    ensures x / y > 0.0 <==> (x > 0.0 && y > 0.0) || (x < 0.0 && y < 0.0)
  {
    var q := x / y;
    assert q * y == x;
    if y > 0.0 {
      assert q > 0.0 ==> q * y > 0.0;
      assert q < 0.0 ==> q * y < 0.0;
    } else {
      assert q > 0.0 ==> q * y < 0.0;
      assert q < 0.0 ==> q * y > 0.0;
    }
  }

  /** The decided bit: 1 when the residual and the first key entry are both
      positive or both negative, 0 otherwise. */
  function DecideBit(stego: real, orig: real, key0: I16): (b: bool)
    ensures stego == orig || key0 == 0 ==> !b
    ensures orig + 2.0 >= 0.0 ==> (b <==> (stego > orig && key0 > 0) || (stego < orig && key0 < 0))
  {
    var s := ResidualSign(stego, orig);
    (s > 0 && key0 > 0) || (s < 0 && key0 < 0)
  }

  /** The bits decided for the first `count` windows of width `N`, pushed in
      window order. */
  function DecodeBits(stego: seq<real>, orig: seq<real>, key0: I16, N: nat, count: nat)
    : (bits: seq<bool>)
    requires 1 <= N
    requires count * N <= |stego| && count * N <= |orig|
    ensures |bits| == count
    ensures forall i :: 0 <= i < count ==>
              bits[i] == DecideBit(stego[i * N], orig[i * N], key0)
  {
    if count == 0 then []
    else
      MulMonotone(count - 1, count, N);
      DecodeBits(stego, orig, key0, N, count - 1)
        + [DecideBit(stego[(count - 1) * N], orig[(count - 1) * N], key0)]
  }

  /** `dest(data, N, n, m)`: the `n * m` window bits, packed most significant
      bit first into ceil(n * m / 8) bytes. */
  function Dest(stego: seq<real>, orig: seq<real>, key: seq<I16>, N: nat, n: nat, m: nat)
    : (message: seq<Byte>)
    requires n * m * N <= |stego| && n * m * N <= |orig|
    requires n * m == 0 || (1 <= N && 1 <= |key|)
    ensures |message| == (n * m + 7) / 8
    ensures n * m > 0 ==> Unpack(message)[..n * m] == DecodeBits(stego, orig, key[0], N, n * m)
    ensures forall i :: n * m <= i < |Unpack(message)| ==> !Unpack(message)[i]
  {
    if n * m == 0 then []
    else
      var bits := DecodeBits(stego, orig, key[0], N, n * m);
      UnpackPack(bits);
      Pack(bits)
  }

  /** Decoding a sequence against itself finds a zero residual in every
      window, so every recovered bit and byte is zero. */
  lemma DestOfUnchanged(orig: seq<real>, key: seq<I16>, N: nat, n: nat, m: nat)
    requires n * m * N <= |orig|
    requires n * m == 0 || (1 <= N && 1 <= |key|)
    ensures Dest(orig, orig, key, N, n, m) == seq((n * m + 7) / 8, _ => 0)
  {
    if n * m > 0 {
      var bits := DecodeBits(orig, orig, key[0], N, n * m);
      assert bits == Zeros(n * m);
      PackZeros(n * m);
    }
  }

  /** Only the first key entry is read: keys that agree on it decode alike. */
  lemma DestReadsOnlyFirstKeyEntry(stego: seq<real>, orig: seq<real>, key1: seq<I16>, key2: seq<I16>,
                                   N: nat, n: nat, m: nat)
    requires n * m * N <= |stego| && n * m * N <= |orig|
    requires n * m == 0 || (1 <= N && 1 <= |key1| && 1 <= |key2| && key1[0] == key2[0])
    ensures Dest(stego, orig, key1, N, n, m) == Dest(stego, orig, key2, N, n, m)
  {
  }

  /** The decoder's own example: one sample per bit, eight one-byte windows,
      samples nudged alternately up and down by 0.0001 against a key starting
      with +1, decode to the byte 0b10101010. */
  lemma DestExample()
    ensures Dest([0.1001, 0.1999, 0.3001, 0.3999, 0.5001, 0.5999, 0.7001, 0.7999],
                 [0.1, 0.2, 0.3, 0.4, 0.5, 0.6, 0.7, 0.8],
                 [1, -1, 1, -1, 1, -1, 1, -1], 1, 8, 1) == [0xAA]
  {
    var stego := [0.1001, 0.1999, 0.3001, 0.3999, 0.5001, 0.5999, 0.7001, 0.7999];
    var orig := [0.1, 0.2, 0.3, 0.4, 0.5, 0.6, 0.7, 0.8];
    var bits := DecodeBits(stego, orig, 1, 1, 8);
    assert bits[0] && !bits[1] && bits[2] && !bits[3] by {
      assert DecideBit(0.1001, 0.1, 1) && !DecideBit(0.1999, 0.2, 1);
      assert DecideBit(0.3001, 0.3, 1) && !DecideBit(0.3999, 0.4, 1);
    }
    assert bits[4] && !bits[5] && bits[6] && !bits[7] by {
      assert DecideBit(0.5001, 0.5, 1) && !DecideBit(0.5999, 0.6, 1);
      assert DecideBit(0.7001, 0.7, 1) && !DecideBit(0.7999, 0.8, 1);
    }
    assert bits == ToBits(0xAA, 8);
    FromBitsToBits(0xAA, 8);
    assert bits[..8] == bits;
  }

  /** The decoder's example as its test passes the arguments: the window
      width and the bits-per-character count change places, so one window of
      eight samples is decoded; its first sample is nudged up, and the single
      recovered 1 bit packs to 0b10000000, not to the expected 0b10101010. */
  lemma DestExampleArgumentsSwapped()
    ensures Dest([0.1001, 0.1999, 0.3001, 0.3999, 0.5001, 0.5999, 0.7001, 0.7999],
                 [0.1, 0.2, 0.3, 0.4, 0.5, 0.6, 0.7, 0.8],
                 [1, -1, 1, -1, 1, -1, 1, -1], 8, 1, 1) == [0x80]
  {
    var stego := [0.1001, 0.1999, 0.3001, 0.3999, 0.5001, 0.5999, 0.7001, 0.7999];
    var orig := [0.1, 0.2, 0.3, 0.4, 0.5, 0.6, 0.7, 0.8];
    var bits := DecodeBits(stego, orig, 1, 8, 1);
    assert bits == [true] by {
      assert DecideBit(0.1001, 0.1, 1);
    }
    var padded := bits + Zeros(7);
    assert padded == ToBits(0x80, 8);
    FromBitsToBits(0x80, 8);
  }
}
