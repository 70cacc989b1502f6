/** The Park–Miller "minimal standard" multiplicative congruential generator
    (Park and Miller, "Random number generators: good ones are hard to find",
    CACM 1988) that produces the spreading key, one +1/-1 value per step.

    The generator's state is a value type here: every step returns the new
    generator, so a caller that keeps the returned generator continues the
    sequence exactly as repeated calls on one stateful instance do. */
module ParkMiller {

  /** The modulus 2^31 - 1. */
  const Modulus: int := 2147483647

  const Multiplier: int := 16807

  /** The largest value of a signed 64-bit integer, the width of the state. */
  const I64Max: int := 0x7FFF_FFFF_FFFF_FFFF

  /** The integer form of the output threshold.

      A step emits +1 exactly when `state / 2147483647.0 + 0.000000000233 > 0.5`.
      Over the reals that is `state > 2147483647 * (0.5 - 0.000000000233)
      = 1073741822.99963...`, and for an integer state it is
      `state >= 1073741823`. The margin to the boundary on either side
      (about 1.7e-13 above 0.5 at state 1073741823, about 4.7e-10 below it at
      state 1073741822) is far wider than the rounding error of the f64
      computation, so the integer form also decides what the f64 code decides. */
  const Threshold: int := 1073741823

  datatype Generator = Generator(state: int)

  /** The states a generator can reach: every residue modulo 2^31 - 1. */
  predicate ValidState(s: int)
  {
    0 <= s < Modulus
  }

  /** A fresh generator, seeded with the clock reading `clock` (microseconds
      since the epoch) reduced modulo 100. */
  function New(clock: int): (g: Generator)
    requires clock >= 0
    ensures 0 <= g.state < 100
    ensures ValidState(g.state)
  {
    Generator(clock % 100)
  }

  /** The state update; the product is computed exactly in 64-bit arithmetic. */
  function Step(s: int): (s': int)
    requires ValidState(s)
    ensures ValidState(s')
    ensures 0 <= s * Multiplier <= I64Max
  {
    (s * Multiplier) % Modulus
  }

  /** The value emitted for an updated state, by the source's threshold test. */
  function Emit(s: int): (out: int)
    requires ValidState(s)
    ensures out == 1 || out == -1
    ensures out == 1 <==> s >= Threshold
  {
    if (s as real) / 2147483647.0 + 0.000000000233 > 0.5 then 1 else -1
  }

  /** One call of `next`: update the state, then emit +1 or -1. */
  function Next(g: Generator): (r: (Generator, int))
    requires ValidState(g.state)
    ensures ValidState(r.0.state)
    ensures r.1 == 1 || r.1 == -1
    ensures r.1 == 1 <==> r.0.state >= Threshold
  {
    var s := Step(g.state);
    (Generator(s), Emit(s))
  }

  /** The state after `k` updates from `s`. */
  function Iterate(s: int, k: nat): (t: int)
    requires ValidState(s)
    ensures ValidState(t)
  {
    if k == 0 then s else Step(Iterate(s, k - 1))
  }

  /** `generate_prs(num)`: the next `num` values of the generator, and the
      generator that continues after them. */
  function Generate(g: Generator, num: nat): (r: (Generator, seq<int>))
    requires ValidState(g.state)
    ensures r.0.state == Iterate(g.state, num)
    ensures |r.1| == num
    ensures forall i :: 0 <= i < num ==> r.1[i] == Emit(Iterate(g.state, i + 1))
  {
    if num == 0 then (g, [])
    else
      var (g', prefix) := Generate(g, num - 1);
      var (g'', b) := Next(g');
      (g'', prefix + [b])
  }

  /** The loop of `generate_prs`, pushing one `next` value per iteration. */
  method GeneratePrs(g: Generator, num: nat) returns (g': Generator, prs: seq<int>)
    requires ValidState(g.state)
    ensures (g', prs) == Generate(g, num)
    ensures ValidState(g'.state)
    ensures |prs| == num
    ensures forall i :: 0 <= i < num ==> prs[i] == 1 || prs[i] == -1
  {
    g' := g;
    prs := [];
    for i := 0 to num
      invariant (g', prs) == Generate(g, i)
    {
      var step := Next(g');
      g' := step.0;
      prs := prs + [step.1];
    }
  }

  lemma {:induction false} IterateAdd(s: int, a: nat, b: nat)
    requires ValidState(s)
    ensures Iterate(Iterate(s, a), b) == Iterate(s, a + b)
    decreases b
  {
    if b > 0 {
      IterateAdd(s, a, b - 1);
    }
  }

  /** Drawing `a` values and then `b` more from the continuing generator is
      drawing `a + b` values at once, split at `a`. */
  lemma {:induction false} GenerateSplit(g: Generator, a: nat, b: nat)
    requires ValidState(g.state)
    ensures var (g1, xs) := Generate(g, a);
            var (g2, ys) := Generate(g1, b);
            Generate(g, a + b) == (g2, xs + ys)
  {
    var (g1, xs) := Generate(g, a);
    var (g2, ys) := Generate(g1, b);
    var (g3, zs) := Generate(g, a + b);
    IterateAdd(g.state, a, b);
    forall i | 0 <= i < b
      ensures ys[i] == zs[a + i]
    {
      IterateAdd(g.state, a, i + 1);
    }
    assert zs == xs + ys;
  }

  lemma {:induction false} IterateFromZero(k: nat)
    ensures Iterate(0, k) == 0
  {
    if k > 0 {
      IterateFromZero(k - 1);
    }
  }

  /** State 0 is a fixed point of the update, so a generator seeded with 0
      emits nothing but -1. */
  lemma ZeroSeedEmitsMinusOne(num: nat)
    ensures Generate(Generator(0), num).1 == seq(num, _ => -1)
  {
    forall k: nat
      ensures Iterate(0, k) == 0
    {
      IterateFromZero(k);
    }
  }

  /** Equal seeds give equal keys, and the seed keeps only the clock reading
      modulo 100: readings 100 microseconds apart produce the same key. */
  lemma KeyRepeatsEveryHundredTicks(clock: int, num: nat)
    requires clock >= 0
    ensures Generate(New(clock + 100), num) == Generate(New(clock), num)
  {
    assert (clock + 100) % 100 == clock % 100;
  }
}
