/** The Small Fast Counter generator (sfc32) that drives the maze carving,
    and the draw of a random index from one of its outputs. */
module Sfc32 {

  /** The four 32-bit words the generator's closure owns. */
  datatype State = State(a: bv32, b: bv32, c: bv32, d: bv32)

  const TwoPow32: nat := 0x1_0000_0000

  /** Addition modulo 2^32 (the source's `wrapping_add`). */
  function WrappingAdd(x: bv32, y: bv32): bv32
  {
    x + y
  }

  /** Rotation left by 21 places, written as the source writes it: two shifts and an or. */
  function Rotl21(x: bv32): (r: bv32)
    ensures r == x.RotateLeft(21)
  {
    (x << 21) | (x >> 11)
  }

  /** The raw output of one draw, taken from the words before they advance. */
  function Output(s: State): bv32
  {
    WrappingAdd(WrappingAdd(s.a, s.b), s.d)
  }

  /** The words after one draw. Every new word is computed from the old words:
      `b` uses the old `c`, `a` the old `b`, and `c` the output `t`. */
  function Step(s: State): (s': State)
    ensures s'.d - s.d == 1
  {
    State(s.a ^ (s.b >> 9),
          WrappingAdd(WrappingAdd(s.b, s.c), s.c << 3),
          WrappingAdd(Rotl21(s.c), Output(s)),
          WrappingAdd(s.d, 1))
  }

  /** f applied k times to s. */
  function Power<S>(f: S -> S, s: S, k: nat): S
  {
    if k == 0 then s else f(Power(f, s, k - 1))
  }

  /** g of each of s, f(s), ..., the first k states reached by f. */
  function Trace<S, T>(f: S -> S, g: S -> T, s: S, k: nat): (ts: seq<T>)
    ensures |ts| == k
  {
    if k == 0 then [] else Trace(f, g, s, k - 1) + [g(Power(f, s, k - 1))]
  }

  /** The words after k draws. */
  function Iterate(s: State, k: nat): State
  {
    Power(Step, s, k)
  }

  /** The raw outputs of the first k draws, in order. */
  function Outputs(s: State, k: nat): seq<bv32>
  {
    Trace(Step, Output, s, k)
  }

  /** One call of the closure, statement by statement on its own copies of the
      words; it returns the raw output t (the closure returns t / 2^32). */
  method Draw(a0: bv32, b0: bv32, c0: bv32, d0: bv32)
    returns (t: bv32, a: bv32, b: bv32, c: bv32, d: bv32)
    ensures t == Output(State(a0, b0, c0, d0))
    ensures State(a, b, c, d) == Step(State(a0, b0, c0, d0))
  {
    a, b, c, d := a0, b0, c0, d0;
    t := WrappingAdd(WrappingAdd(a, b), d);
    d := WrappingAdd(d, 1);
    a := a ^ (b >> 9);
    b := WrappingAdd(WrappingAdd(b, c), c << 3);
    c := Rotl21(c);
    c := WrappingAdd(c, t);
  }

  /** The generator: the closure returned by `sfc32`, whose captured words are
      updated in place on every call. */
  class Generator {
    var a: bv32
    var b: bv32
    var c: bv32
    var d: bv32

    function Current(): State
      reads this
    {
      State(a, b, c, d)
    }

    constructor (a: bv32, b: bv32, c: bv32, d: bv32)
      ensures Current() == State(a, b, c, d)
    {
      this.a, this.b, this.c, this.d := a, b, c, d;
    }

    /** One call of the closure. */
    method Next() returns (t: bv32)
      modifies this
      ensures t == Output(old(Current()))
      ensures Current() == Step(old(Current()))
    {
      var a', b', c', d';
      t, a', b', c', d' := Draw(a, b, c, d);
      a, b, c, d := a', b', c', d';
    }
  }

  /** Applying f j times and then k more times is applying it j + k times. */
  lemma {:induction false} PowerAdds<S>(f: S -> S, s: S, j: nat, k: nat)
    ensures Power(f, s, j + k) == Power(f, Power(f, s, j), k)
  {
    if k > 0 {
      PowerAdds(f, s, j, k - 1);
    }
  }

  lemma {:induction false} TraceSplit<S, T>(f: S -> S, g: S -> T, s: S, j: nat, k: nat)
    ensures Trace(f, g, s, j + k) == Trace(f, g, s, j) + Trace(f, g, Power(f, s, j), k)
  {
    if k > 0 {
      TraceSplit(f, g, s, j, k - 1);
      PowerAdds(f, s, j, k - 1);
    }
  }

  /** The outputs of j + k draws are those of the first j followed by those of
      the next k, drawn from where the first j left the words. */
  lemma OutputsSplit(s: State, j: nat, k: nat)
    ensures |Outputs(s, j + k)| == j + k
    ensures Outputs(s, j + k) == Outputs(s, j) + Outputs(Iterate(s, j), k)
  {
    TraceSplit(Step, Output, s, j, k);
  }

  /** The fixed start of the sequence from the seed (1, 2, 3, 4). */
  lemma GoldenVector()
    ensures Output(State(1, 2, 3, 4)) == 7
    ensures Step(State(1, 2, 3, 4)) == State(1, 29, 6291463, 5)
    ensures Outputs(State(1, 2, 3, 4), 5) == [7, 35, 56623203, 188882335, 3506797914]
  {
    assert Iterate(State(1, 2, 3, 4), 1) == State(1, 29, 6291463, 5);
    assert Iterate(State(1, 2, 3, 4), 2) == State(1, 56623196, 14683171, 6);
    assert Iterate(State(1, 2, 3, 4), 3) == State(110593, 188771735, 2277514340, 7);
    assert Iterate(State(1, 2, 3, 4), 4) == State(266295, 3506531611, 2547193250, 8);
  }

  // ---------------------------------------------------------------------
  // Turning a draw into an index.

  /** The raw output as a natural number below 2^32. */
  function Value(t: bv32): (v: nat)
    ensures v < TwoPow32
  {
    t as int
  }

  /** The closure's result v / 2^32, which lies in [0, 1). */
  function Unit(v: nat): (u: real)
    requires v < TwoPow32
    ensures 0.0 <= u < 1.0
  {
    v as real / (TwoPow32 as real)
  }

  /** random_range(0, n) computed exactly: the draw scaled by n and truncated.
      It always lies in [0, n) when n > 0. */
  function RandomRange(v: nat, n: nat): (r: nat)
    requires v < TwoPow32
    ensures n > 0 ==> r < n
    ensures n == 0 ==> r == 0
    ensures r * TwoPow32 <= v * n < (r + 1) * TwoPow32
  {
    ScaledBelow(v, n);
    (v * n) / TwoPow32
  }

  lemma ScaledBelow(v: nat, n: nat)
    requires v < TwoPow32
    ensures (v * n) / TwoPow32 <= n
    ensures n > 0 ==> (v * n) / TwoPow32 < n
  {
    if n > 0 {
      assert v * n < TwoPow32 * n;
    }
  }

  /** The index is the integer part of Unit(v) * n. */
  lemma RandomRangeIsFloor(v: nat, n: nat)
    requires v < TwoPow32
    ensures RandomRange(v, n) as real <= Unit(v) * n as real < (RandomRange(v, n) + 1) as real
  {
    var r := RandomRange(v, n);
    var m := TwoPow32 as real;
    assert (v as real / m) * n as real == (v * n) as real / m;
    assert (r * TwoPow32) as real == r as real * m;
    assert ((r + 1) * TwoPow32) as real == (r + 1) as real * m;
  }

  // ---------------------------------------------------------------------
  // random_range as written: the f64 draw is cast to f32 before it is scaled.

  /** The spacing of f32 values near v / 2^32, in units of 2^-32 (for v < 2^32). */
  function F32Spacing(v: nat): (q: nat)
    ensures q >= 1
  {
    if v < 0x100_0000 then 1
    else if v < 0x200_0000 then 2
    else if v < 0x400_0000 then 4
    else if v < 0x800_0000 then 8
    else if v < 0x1000_0000 then 16
    else if v < 0x2000_0000 then 32
    else if v < 0x4000_0000 then 64
    else if v < 0x8000_0000 then 128
    else 256
  }

  /** v / 2^32 rounded to the nearest f32, ties to even, in units of 2^-32. */
  function RoundToF32(v: nat): (rv: nat)
    ensures 2 * (rv - v) <= F32Spacing(v) && 2 * (v - rv) <= F32Spacing(v)
  {
    var q := F32Spacing(v);
    var m := v / q;
    var r := v % q;
    MultipleNear(v, q);
    if 2 * r > q || (2 * r == q && m % 2 == 1) then (m + 1) * q else m * q
  }

  /** random_range(0, n) as written: the f32 value of the draw times n, truncated
      (the f32 product itself is taken exactly). */
  function RandomRangeAsWritten(v: nat, n: nat): (r: nat)
    ensures r * TwoPow32 <= RoundToF32(v) * n < (r + 1) * TwoPow32
  {
    (RoundToF32(v) * n) / TwoPow32
  }

  lemma MultipleNear(v: nat, q: nat)
    requires q >= 1
    ensures v == (v / q) * q + v % q
    ensures (v / q + 1) * q == (v / q) * q + q
  {
  }

  lemma TopRoundsToOne(v: nat)
    requires TwoPow32 - 128 <= v < TwoPow32
    ensures RoundToF32(v) == TwoPow32
  {
    assert F32Spacing(v) == 256;
    var m := v / 256;
    var r := v % 256;
    assert m == 0xFF_FFFF && r >= 128 by {
      assert v == 256 * m + r;
    }
  }

  /** Every one of the top 128 draws rounds to 1.0 and yields n itself: an
      index one past the end of the list it is meant to pick from. */
  lemma RandomRangeAsWrittenReachesN(v: nat, n: nat)
    requires TwoPow32 - 128 <= v < TwoPow32
    ensures RandomRangeAsWritten(v, n) == n
    ensures RandomRange(v, n) < n || n == 0
  {
    TopRoundsToOne(v);
  }
}
