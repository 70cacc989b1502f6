/** Decoding inverts encoding. Over the reals the residual the decoder
    computes at a window's first sample is exactly the chip times the
    modulation depth, so its sign against the first key entry gives back
    the bit that chose the chip. */
module RoundTrip {
  import opened Wrappers
  import opened Numeric
  import opened BitPacking
  import opened Embed
  import opened Extract

  /** The residual of a perturbed sample is the applied chip times the
      modulation depth, exactly. */
  lemma ResidualOfPerturb(amp: real, c: I16, b: Option<bool>)
    requires amp != -2.0
    ensures ResidualSign(Perturb(amp, c, b), amp)
            == (if Chip(c, b) > 0 then 1 else if Chip(c, b) < 0 then -1 else 0)
  {
    var chip := Chip(c, b) as real * Depth;
    var lifted := amp + 2.0;
    assert Perturb(amp, c, b) - amp == chip * lifted;
    ScaledQuotient(chip, lifted);
  }

  lemma ScaledQuotient(x: real, y: real)
    requires y != 0.0
    ensures (x * y) / y == x
  {
  }

  /** One sample: perturbing under stream bit `b` with key entry `c`, then
      deciding against the same entry, yields 1 exactly when `b` is not a 0
      bit. */
  lemma DecideRecoversBit(amp: real, c: I16, b: Option<bool>)
    requires amp != -2.0
    requires c != 0 && c != I16Min
    ensures DecideBit(Perturb(amp, c, b), amp, c) == (b != Some(false))
  {
    ResidualOfPerturb(amp, c, b);
  }

  /** Window `i` of the stego sequence decodes to the `i`-th bit of the
      message's stream, or to 1 once the stream is exhausted. */
  lemma DecodeRecoversStream(container: seq<real>, message: seq<Byte>, key: seq<I16>,
                             N: nat, n: nat, m: nat)
    requires 1 <= N <= |key|
    requires n * m * N <= |container|
    requires key[0] != 0 && key[0] != I16Min
    requires forall j :: 0 <= j < n * m * N ==> container[j] != -2.0
    ensures var bits := Unpack(message);
            DecodeBits(Stego(container, message, key, N, n, m), container, key[0], N, n * m)
              == seq(n * m, i requires 0 <= i < n * m => i >= |bits| || bits[i])
  {
    var stego := Stego(container, message, key, N, n, m);
    var bits := Unpack(message);
    var decoded := DecodeBits(stego, container, key[0], N, n * m);
    forall i | 0 <= i < n * m
      ensures decoded[i] == (i >= |bits| || bits[i])
    {
      WindowStartInRange(i, n * m, N);
      WindowOf(i * N, i, N);
      DecideRecoversBit(container[i * N], key[0], StreamBit(bits, i));
    }
  }

  /** The round trip: with eight bits per byte, a message embedded into a
      container with no amplitude at -2.0 is recovered exactly by decoding
      against the original container with the same key. */
  lemma DestInvertsSt(container: seq<real>, message: seq<Byte>, key: seq<I16>, N: nat)
    requires 1 <= N <= |key|
    requires 8 * |message| * N <= |container|
    requires key[0] != 0 && key[0] != I16Min
    requires forall j :: 0 <= j < 8 * |message| * N ==> container[j] != -2.0
    ensures Dest(Stego(container, message, key, N, 8, |message|), container, key, N, 8, |message|)
            == message
  {
    var stego := Stego(container, message, key, N, 8, |message|);
    var bits := Unpack(message);
    var decoded := Dest(stego, container, key, N, 8, |message|);
    if |message| > 0 {
      DecodeRecoversStream(container, message, key, N, 8, |message|);
      assert DecodeBits(stego, container, key[0], N, 8 * |message|) == bits;
      PackUnpack(message);
    }
  }

  lemma {:induction false} UnpackAppend(a: seq<Byte>, b: seq<Byte>)
    ensures Unpack(a + b) == Unpack(a) + Unpack(b)
    decreases |a|
  {
    if |a| > 0 {
      assert (a + b)[0] == a[0];
      assert (a + b)[1..] == a[1..] + b;
      UnpackAppend(a[1..], b);
      calc {
        Unpack(a + b);
        ToBits(a[0], 8) + Unpack(a[1..] + b);
        ToBits(a[0], 8) + (Unpack(a[1..]) + Unpack(b));
        (ToBits(a[0], 8) + Unpack(a[1..])) + Unpack(b);
      }
    } else {
      assert a + b == b;
    }
  }

  lemma {:induction false} UnpackAllOnes(count: nat)
    ensures Unpack(seq(count, _ => 0xFF)) == seq(8 * count, _ => true)
    decreases count
  {
    if count > 0 {
      var bytes: seq<Byte> := seq(count, _ => 0xFF);
      assert bytes[1..] == seq(count - 1, _ => 0xFF);
      UnpackAllOnes(count - 1);
      assert ToBits(0xFF, 8) == seq(8, _ => true);
    }
  }

  /** When the characters are 16 bits wide, the encoder still reads the
      message eight bits per byte: the second half of the windows finds the
      stream exhausted and carries 1 bits, so decoding yields the message
      followed by as many 0xFF bytes. */
  lemma WideWindowsDecodeTrailingOnes(container: seq<real>, message: seq<Byte>, key: seq<I16>, N: nat)
    requires 1 <= N <= |key|
    requires 16 * |message| * N <= |container|
    requires key[0] != 0 && key[0] != I16Min
    requires forall j :: 0 <= j < 16 * |message| * N ==> container[j] != -2.0
    ensures Dest(Stego(container, message, key, N, 16, |message|), container, key, N, 16, |message|)
            == message + seq(|message|, _ => 0xFF)
  {
    var m := |message|;
    var stego := Stego(container, message, key, N, 16, m);
    var padded: seq<Byte> := message + seq(m, _ => 0xFF);
    if m > 0 {
      DecodeRecoversStream(container, message, key, N, 16, m);
      UnpackAppend(message, seq(m, _ => 0xFF));
      UnpackAllOnes(m);
      assert DecodeBits(stego, container, key[0], N, 16 * m) == Unpack(padded);
      PackUnpack(padded);
    }
  }

  /** The scenario of the encoder's and decoder's examples: the container
      0.1, 0.2, ..., 0.8, one sample per bit, the key 1, -1, 1, ..., and the
      message byte 0b10101010 survive the round trip. */
  lemma ExampleRoundTrip()
    ensures var container := [0.1, 0.2, 0.3, 0.4, 0.5, 0.6, 0.7, 0.8];
            var key: seq<I16> := [1, -1, 1, -1, 1, -1, 1, -1];
            Dest(Stego(container, [0xAA], key, 1, 8, 1), container, key, 1, 8, 1) == [0xAA]
  {
    var container := [0.1, 0.2, 0.3, 0.4, 0.5, 0.6, 0.7, 0.8];
    var key: seq<I16> := [1, -1, 1, -1, 1, -1, 1, -1];
    DestInvertsSt(container, [0xAA], key, 1);
  }
}
