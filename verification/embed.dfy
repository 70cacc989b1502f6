/** The watermark encoder `st`: a windowed additive spread-spectrum
    modulation of an amplitude sequence by the message's bit stream.

    Amplitudes are reals standing in for f64. The container is split into
    `n * m` consecutive windows of `N` samples; window `i` carries the `i`-th
    bit of the message, most significant bit of each byte first. Every sample
    of a window is scaled about -2.0 by the spreading-key entry at its offset,
    times the modulation depth, times the bit's sign. */
module Embed {
  import opened Wrappers
  import opened Numeric
  import opened BitPacking

  /** The modulation depth 0.0005. */
  const Depth: real := 0.0005

  datatype EncodeError = InsufficientCapacity

  /** The bit the message stream yields for window `i`: the `i`-th bit while
      the stream lasts, and `None` once it is exhausted. */
  function StreamBit(bits: seq<bool>, i: nat): Option<bool>
  {
    if i < |bits| then Some(bits[i]) else None
  }

  /** The key entry as applied under stream bit `b`: negated when the bit is
      `Some(false)` and kept otherwise, so that an exhausted stream is
      modulated like a 1 bit. The negation is that of `i16`. */
  function Chip(c: I16, b: Option<bool>): (c': I16)
    ensures c' as int == c as int || c' as int == -(c as int)
    ensures b != Some(false) ==> c' == c
    ensures c != I16Min && c != 0 ==> (c' as int == -(c as int) <==> b == Some(false))
  {
    if b == Some(false) then NegI16(c) else c
  }

  /** A sample moved by `factor` times its distance above -2.0. */
  function Shift(amp: real, factor: real): real
  {
    amp + factor * (amp + 2.0)
  }

  /** One perturbed sample: `amp + (chip * 0.0005) * (amp + 2.0)`. */
  function Perturb(amp: real, c: I16, b: Option<bool>): real
  {
    Shift(amp, Chip(c, b) as real * Depth)
  }

  /** The stego sequence `st` produces: sample `j` of the first `n * m * N`
      is perturbed with key entry `j % N` under stream bit `j / N`; every
      later sample is copied. */
  function Stego(container: seq<real>, message: seq<Byte>, key: seq<I16>,
                 N: nat, n: nat, m: nat): (stego: seq<real>)
    requires n * m * N <= |container|
    requires n * m == 0 || N <= |key|
    ensures |stego| == |container|
    ensures forall j :: n * m * N <= j < |container| ==> stego[j] == container[j]
  {
    var bits := Unpack(message);
    seq(|container|, j requires 0 <= j < |container| =>
      if j < n * m * N then Perturb(container[j], key[j % N], StreamBit(bits, j / N))
      else container[j])
  }

  /** `st(data, N, n, m, key)`: walks the `n * m` windows in order, drawing one
      stream bit per window and updating the window's samples in place. */
  method St(container: seq<real>, message: seq<Byte>, N: nat, n: nat, m: nat, key: seq<I16>)
    returns (stego: seq<real>)
    requires n * m * N <= |container|
    requires n * m == 0 || N <= |key|
    ensures stego == Stego(container, message, key, N, n, m)
    ensures |stego| == |container|
    ensures forall j :: n * m * N <= j < |container| ==> stego[j] == container[j]
    ensures n * m * N > 0 ==> 0 < N <= |key|
    ensures forall j :: 0 <= j < n * m * N ==>
              stego[j] == Perturb(container[j], key[j % N], StreamBit(Unpack(message), j / N))
    ensures n * m == 0 ==> stego == container
  {
    ghost var target := Stego(container, message, key, N, n, m);
    ghost var covered := n * m * N;
    stego := container;
    var bits := Unpack(message);
    for i := 0 to n * m
      invariant |stego| == |container|
      invariant i * N <= covered
      invariant forall j :: 0 <= j < i * N ==> stego[j] == target[j]
      invariant forall j :: i * N <= j < |container| ==> stego[j] == container[j]
    {
      var b := StreamBit(bits, i);
      var spread := seq(|key|, k requires 0 <= k < |key| => Chip(key[k], b) as real * Depth);
      var start := i * N;
      var end := (i + 1) * N;
      assert end == start + N;
      WindowStartInRange(i, n * m, N);
      ghost var before := stego;
      stego := ModulateWindow(stego, start, N, spread);
      forall j | start <= j < end
        ensures stego[j] == target[j]
      {
        StegoInWindow(container, message, key, N, n, m, i, j);
        var k := j - start;
        assert stego[j] == Shift(before[j], spread[k]);
        assert before[j] == container[j];
        assert spread[k] == Chip(key[k], b) as real * Depth;
      }
      assert forall j :: 0 <= j < start ==> stego[j] == before[j] == target[j];
      assert forall j :: end <= j < |container| ==> stego[j] == before[j] == container[j];
    }
    assert n * m * N == covered;
    assert stego == target;
    if n * m * N > 0 {
      CoveredLayout(n * m, N);
    }
  }

  /** Sample `j` of window `i` of the reference output is perturbed with the
      key entry at its offset in the window, under the window's stream bit. */
  lemma StegoInWindow(container: seq<real>, message: seq<Byte>, key: seq<I16>,
                      N: nat, n: nat, m: nat, i: nat, j: int)
    requires n * m * N <= |container|
    requires n * m == 0 || N <= |key|
    requires i < n * m && i * N <= j < i * N + N
    ensures 0 <= j - i * N < |key| && j < |container|
    ensures Stego(container, message, key, N, n, m)[j]
              == Perturb(container[j], key[j - i * N], StreamBit(Unpack(message), i))
  {
    WindowStartInRange(i, n * m, N);
    WindowOf(j, i, N);
  }

  /** The inner loop of `st` over one window: sample `start + k` moves by
      `spread[k]` times its distance above -2.0. */
  method ModulateWindow(amps: seq<real>, start: nat, N: nat, spread: seq<real>)
    returns (out: seq<real>)
    requires start + N <= |amps|
    requires N <= |spread|
    ensures |out| == |amps|
    ensures forall j :: start <= j < start + N ==> out[j] == Shift(amps[j], spread[j - start])
    ensures forall j :: 0 <= j < |amps| && !(start <= j < start + N) ==> out[j] == amps[j]
  {
    out := amps;
    for j := start to start + N
      invariant |out| == |amps|
      invariant forall t :: start <= t < j ==> out[t] == Shift(amps[t], spread[t - start])
      invariant forall t :: 0 <= t < |amps| && !(start <= t < j) ==> out[t] == amps[t]
    {
      var amp := out[j];
      out := out[j := amp + spread[j - start] * (amp + 2.0)];
    }
  }

  /** The capacity rule of the command-line encoder: `N` is the number of
      container samples per message bit, `samples div (n * m)`, and a
      container too short for one sample per bit is refused. */
  function SamplesPerBit(samples: nat, n: nat, m: nat): (r: Result<nat, EncodeError>)
    requires n * m > 0
    ensures r.Success? <==> samples >= n * m
    ensures r.Success? ==> 1 <= r.value && n * m * r.value <= samples < n * m * (r.value + 1)
  {
    var perBit := samples / (n * m);
    if perBit == 0 then Failure(InsufficientCapacity) else Success(perBit)
  }

  /** With a key of +1/-1 entries and no amplitude at -2.0, every sample of
      every window changes. */
  lemma EverySampleChanges(container: seq<real>, message: seq<Byte>, key: seq<I16>,
                           N: nat, n: nat, m: nat, j: nat)
    requires n * m * N <= |container|
    requires n * m == 0 || N <= |key|
    requires forall k :: 0 <= k < |key| ==> key[k] == 1 || key[k] == -1
    requires j < n * m * N
    requires container[j] != -2.0
    ensures Stego(container, message, key, N, n, m)[j] != container[j]
  {
  }

  /** Windows past the end of the message's bit stream are modulated as for a
      1 bit: `None == Some(false)` does not hold. */
  lemma ExhaustedStreamActsAsOne(bits: seq<bool>, i: nat, c: I16)
    requires i >= |bits|
    ensures Chip(c, StreamBit(bits, i)) == Chip(c, Some(true)) == c
  {
  }
}
