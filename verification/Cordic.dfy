/** The integer CORDIC that turns an (I, Q) pair into its magnitude. */
module Cordic {
  import opened Arithmetic

  const MAX_LEVEL := 11
  const GAIN64 := 2608131600  // 2^32 divided by the gain of twelve iterations
  const TWO32 := 0x1_0000_0000

  newtype int32 = x: int | -0x8000_0000 <= x < 0x8000_0000

  datatype Vec = Vec(i: int, q: int)

  function Abs(x: int): nat { if x < 0 then -x else x }

  function Energy(v: Vec): int { v.i * v.i + v.q * v.q }

  function Reach(v: Vec): int { Abs(v.i) + Abs(v.q) }

  function Pow2(n: nat): (p: int)
    ensures p > 0
  {
    if n == 0 then 1 else 2 * Pow2(n - 1)
  }

  /** Arithmetic right shift. */
  function Shr(x: int, n: nat): int { x / Pow2(n) }

  /** Rotation by a right angle into the half plane I >= 0. */
  function Fold(v: Vec): Vec {
    if v.i >= 0 then v
    else if v.q > 0 then Vec(v.q, -v.i)
    else Vec(-v.q, v.i)
  }

  /** One CORDIC step. */
  function Turn(v: Vec, l: nat): Vec {
    if v.q >= 0 then Vec(v.i + Shr(v.q, l), v.q - Shr(v.i, l))
    else Vec(v.i - Shr(v.q, l), v.q + Shr(v.i, l))
  }

  /** The vector after the steps 0, ..., n-1. */
  function Rotated(v: Vec, n: nat): Vec {
    if n == 0 then Fold(v) else Turn(Rotated(v, n - 1), n - 1)
  }

  function Correct(i: int): int { GAIN64 * i / TWO32 }

  function Amp(v: Vec): int { Correct(Rotated(v, MAX_LEVEL + 1).i) }

  /** Folding loses nothing. */
  lemma FoldKeeps(v: Vec)
    ensures Fold(v).i >= 0 && Energy(Fold(v)) == Energy(v) && Reach(Fold(v)) == Reach(v)
  {
  }

  lemma ShrBounds(x: int, n: nat)
    ensures Pow2(n) * Shr(x, n) <= x < Pow2(n) * Shr(x, n) + Pow2(n)
  {
  }

  lemma MulAtLeast(p: int, y: int)
    requires p >= 1
    ensures y >= 0 ==> p * y >= y
    ensures y < 0 ==> p * y <= y && p * y <= -p
  {
    if y >= 0 {
      assert (p - 1) * y >= 0;
    } else {
      assert (p - 1) * (-y) >= 0;
      assert p * (-y - 1) >= 0;
    }
  }

  lemma ShrSign(x: int, n: nat)
    ensures x >= 0 ==> 0 <= Shr(x, n) <= x
    ensures x < 0 ==> x <= Shr(x, n) < 0
  {
    ShrBounds(x, n);
    MulAtLeast(Pow2(n), Shr(x, n));
    MulAtLeast(Pow2(n), Shr(x, n) + 1);
    assert Pow2(n) * (Shr(x, n) + 1) == Pow2(n) * Shr(x, n) + Pow2(n);
  }

  /** The in-phase part never decreases. */
  lemma TurnGrows(v: Vec, l: nat)
    requires v.i >= 0
    ensures Turn(v, l).i >= v.i && (l == 0 ==> Turn(v, l).i == Reach(v))
    ensures l == 0 ==> Energy(Turn(v, l)) == 2 * Energy(v) && Abs(Turn(v, l).q) <= Turn(v, l).i
  {
    ShrSign(v.q, l);
    if l == 0 {
      assert Shr(v.q, 0) == v.q && Shr(v.i, 0) == v.i;
    }
  }

  /** From the first step on, I is at least |I| + |Q|. */
  lemma {:induction false} Grows(v: Vec, m: nat, n: nat)
    requires m <= n
    ensures 0 <= Rotated(v, m).i <= Rotated(v, n).i
    ensures n >= 1 ==> Reach(v) <= Rotated(v, n).i
    decreases n
  {
    FoldKeeps(v);
    if n > 0 {
      Grows(v, if m == n then m - 1 else m, n - 1);
      TurnGrows(Rotated(v, n - 1), n - 1);
      if n > 1 {
        Grows(v, 1, n - 1);
      } else {
        assert Rotated(v, 0) == Fold(v);
      }
    }
  }

  // ---- Residual --------------------------------------------------------------------------

  lemma ShrHalves(x: int, n: nat)
    ensures 2 * Shr(x, n + 1) <= Shr(x, n) <= 2 * Shr(x, n + 1) + 1
  {
    ShrBounds(x, n);
    ShrBounds(x, n + 1);
    var p, y, z := Pow2(n), Shr(x, n), Shr(x, n + 1);
    assert p * (2 * z) == 2 * p * z && p * (2 * z + 2) == 2 * p * z + 2 * p;
    if 2 * z > y { MulLess(p, y + 1, 2 * z); }
    if y > 2 * z + 1 { MulLess(p, 2 * z + 2, y); }
  }

  lemma ShrMono(x: int, y: int, n: nat)
    requires x <= y
    ensures Shr(x, n) <= Shr(y, n)
  {
    ShrBounds(x, n);
    ShrBounds(y, n);
    if Shr(y, n) + 1 <= Shr(x, n) {
      MulLess(Pow2(n), Shr(y, n) + 1, Shr(x, n));
    }
  }

  /** A step subtracts I >> L from |Q|. */
  lemma TurnQ(v: Vec, l: nat)
    requires v.i >= 0
    ensures Abs(Turn(v, l).q) == Abs(Abs(v.q) - Shr(v.i, l))
  {
  }

  /** After step L the quadrature part is at most (I >> L) + L. */
  lemma {:induction false} Residual(v: Vec, l: nat)
    ensures Rotated(v, l + 1).i >= 0
    ensures Abs(Rotated(v, l + 1).q) <= Shr(Rotated(v, l + 1).i, l) + l
  {
    var u := Rotated(v, l);
    FoldKeeps(v);
    Grows(v, l, l + 1);
    TurnQ(u, l);
    TurnGrows(u, l);
    ShrMono(u.i, Turn(u, l).i, l);
    ShrSign(u.i, l);
    if l > 0 {
      Residual(v, l - 1);
      ShrHalves(u.i, l - 1);
    } else {
      assert Shr(Turn(u, 0).i, 0) == Turn(u, 0).i;
    }
  }

  // ---- Energy ----------------------------------------------------------------------------

  lemma ExactTurn(p: int, i: int, q: int)
    ensures (p * i + q) * (p * i + q) + (p * q - i) * (p * q - i) == (p * p + 1) * (i * i + q * q)
  {
    var a, b := p * i, p * q;
    assert (a + q) * (a + q) == a * a + 2 * (a * q) + q * q;
    assert (b - i) * (b - i) == b * b - 2 * (b * i) + i * i;
    assert a * q == b * i == p * (i * q);
    assert a * a == (p * p) * (i * i) && b * b == (p * p) * (q * q);
    assert (p * p) * (i * i + q * q) == a * a + b * b;
  }

  /** Moving a coordinate by d changes its square by a multiple of the new coordinate. */
  lemma Perturb(x: int, d: int)
    ensures (x + d) * (x + d) == x * x + 2 * (d * (x + d)) - d * d
  {
  }

  lemma ScaledSquares(p: int, x: int, y: int)
    ensures p * p * (x * x + y * y) == (p * x) * (p * x) + (p * y) * (p * y)
  {
    assert p * p * (x * x) == (p * x) * (p * x);
    assert p * p * (y * y) == (p * y) * (p * y);
  }

  /** The rounding error of a turn to (x, y) whose exact target, scaled by p, is missed by c
      and d. */
  lemma TurnIdentity(p: int, i: int, q: int, x: int, y: int, c: int, d: int)
    requires (p * x == p * i + q + c && p * y == p * q - i + d)
          || (p * x == p * i - q + c && p * y == p * q + i + d)
    ensures p * p * (x * x + y * y) - (p * p + 1) * (i * i + q * q)
            == 2 * (c * (p * x)) - c * c + 2 * (d * (p * y)) - d * d
  {
    ExactTurn(p, i, q);
    ExactTurn(p, i, -q);
    ScaledSquares(p, x, y);
    assert p * -q == -(p * q);
    Perturb(p * x - c, c);
    Perturb(p * y - d, d);
    assert (p * -q - i) * (p * -q - i) == (p * q + i) * (p * q + i);
  }

  lemma Regroup(a: int, b: int, x: int)
    ensures a * (b * x) == (b * a) * x
  {
  }

  lemma ErrorBound(p: int, c: int, x: int)
    requires -p < c < p
    ensures Abs(c * (p * x)) <= p * p * Abs(x) && 0 <= c * c <= p * p
  {
    Regroup(c, p, x);
    MulLess(p, c, p);
    MulLess(p, -p, c);
    assert p * -p == -(p * p);
    MulAbsLess(p * c, p * p, x);
    MulAbsLess(c, p, c);
    MulLess(p, Abs(c), p);
  }

  lemma MulAbsLess(a: int, b: int, x: int)
    requires -b <= a <= b
    ensures Abs(a * x) <= b * Abs(x)
  {
    if x >= 0 {
      assert (b - a) * x >= 0 && (b + a) * x >= 0;
    } else {
      assert (b - a) * -x >= 0 && (b + a) * -x >= 0;
    }
  }

  /** Adding or subtracting y >> n misses the exact target by less than one. */
  lemma Target(x: int, y: int, n: nat)
    ensures var p := Pow2(n);
            -p < p * (x + Shr(y, n)) - (p * x + y) <= 0 <= p * (x - Shr(y, n)) - (p * x - y) < p
  {
    var p, a := Pow2(n), Shr(y, n);
    ShrBounds(y, n);
    Distribute(p, x, a);
  }

  /** The energy statement for a turn whose misses are below one. */
  lemma TurnEnergyOf(p: int, v: Vec, t: Vec, c: int, d: int)
    requires -p < c < p && -p < d < p && t.i >= 0
    requires (p * t.i == p * v.i + v.q + c && p * t.q == p * v.q - v.i + d)
          || (p * t.i == p * v.i - v.q + c && p * t.q == p * v.q + v.i + d)
    ensures Abs(p * p * Energy(t) - (p * p + 1) * Energy(v)) <= 2 * (p * p * (t.i + Abs(t.q) + 1))
  {
    var m, e := p * p, p * p * Energy(t) - (p * p + 1) * Energy(v);
    assert e == 2 * (c * (p * t.i)) - c * c + 2 * (d * (p * t.q)) - d * d by {
      TurnIdentity(p, v.i, v.q, t.i, t.q, c, d);
    }
    ErrorBound(p, c, t.i);
    ErrorBound(p, d, t.q);
    assert m * (t.i + Abs(t.q) + 1) == m * t.i + m * Abs(t.q) + m by {
      Distribute(m, t.i, Abs(t.q));
      Distribute(m, t.i + Abs(t.q), 1);
    }
    SumBound(e, c * (p * t.i), c * c, d * (p * t.q), d * d, m * t.i, m * Abs(t.q), m);
  }

  lemma SumBound(e: int, u: int, uu: int, w: int, ww: int, a: int, b: int, m: int)
    requires e == 2 * u - uu + 2 * w - ww && Abs(u) <= a && Abs(w) <= b && 0 <= uu <= m && 0 <= ww <= m
    ensures Abs(e) <= 2 * (a + b + m)
  {
  }

  /** A step L multiplies the energy by 1 + 4^-L, up to an error linear in the new vector. */
  lemma TurnEnergy(v: Vec, l: nat)
    requires v.i >= 0
    ensures var p, t := Pow2(l), Turn(v, l);
            Abs(p * p * Energy(t) - (p * p + 1) * Energy(v)) <= 2 * (p * p * (t.i + Abs(t.q) + 1))
  {
    var p, t := Pow2(l), Turn(v, l);
    TurnGrows(v, l);
    Target(v.i, v.q, l);
    Target(v.q, v.i, l);
    var c := if v.q >= 0 then p * t.i - (p * v.i + v.q) else p * t.i - (p * v.i - v.q);
    var d := if v.q >= 0 then p * t.q - (p * v.q - v.i) else p * t.q - (p * v.q + v.i);
    TurnEnergyOf(p, v, t, c, d);
  }

  // ---- All twelve steps ------------------------------------------------------------------

  lemma Powers()
    ensures Pow2(0) == 1 && Pow2(1) == 2 && Pow2(2) == 4 && Pow2(3) == 8 && Pow2(4) == 16
    ensures Pow2(5) == 32 && Pow2(6) == 64 && Pow2(7) == 128 && Pow2(8) == 256 && Pow2(9) == 512
    ensures Pow2(10) == 1024 && Pow2(11) == 2048
  {
    assert Pow2(4) == 16;
    assert Pow2(8) == 256;
  }

  lemma Negate(p: int, a: int)
    ensures p * -a == -(p * a)
  {
  }

  /** I grows by |Q| >> n, rounded up. */
  lemma TurnRises(v: Vec, n: nat)
    ensures Pow2(n) * (Turn(v, n).i - v.i) <= Abs(v.q) + Pow2(n)
  {
    var p, a, rise := Pow2(n), Shr(v.q, n), Turn(v, n).i - v.i;
    ShrBounds(v.q, n);
    assert rise == if v.q >= 0 then a else -a;
    Negate(p, a);
    assert p * rise == if v.q >= 0 then p * a else -(p * a);
  }

  lemma GrowthArithmetic(h: int, i: int, w: int, q: int, a: int, k: int)
    requires h > 0 && 2 * h * w <= q + 2 * h && q <= a + k && h * a <= i
    ensures 2 * (h * h) * (i + w) <= (2 * (h * h) + 1) * i + h * k + 2 * (h * h)
  {
    MulLess(h, q, a + k);
    Distribute(h, a, k);
    MulLess(h, 2 * h * w, q + 2 * h);
    Distribute(h, q, 2 * h);
    assert h * (2 * h * w) == 2 * (h * h) * w;
    assert h * (2 * h) == 2 * (h * h);
    Distribute(2 * (h * h), i, w);
  }

  /** By the residual bound, step n adds at most about I / 2^(2n-1). */
  lemma GrowthStep(v: Vec, n: nat, h: int)
    requires n >= 1 && h == Pow2(n - 1)
    ensures var i, i' := Rotated(v, n).i, Rotated(v, n + 1).i;
            2 * (h * h) * i' <= (2 * (h * h) + 1) * i + h * (n - 1) + 2 * (h * h)
  {
    var u := Rotated(v, n);
    Residual(v, n - 1);
    ShrBounds(u.i, n - 1);
    TurnRises(u, n);
    GrowthArithmetic(h, u.i, Rotated(v, n + 1).i - u.i, Abs(u.q), Shr(u.i, n - 1), n - 1);
  }

  lemma GrowthSum(s: int, a: int, b: int, c: int, d: int, e: int, f: int,
                  g: int, h: int, i: int, j: int, k: int)
    requires 2 * a <= 3 * s + 2 && 8 * b <= 9 * a + 10 && 32 * c <= 33 * b + 40
    requires 128 * d <= 129 * c + 152 && 512 * e <= 513 * d + 576 && 2048 * f <= 2049 * e + 2208
    requires 8192 * g <= 8193 * f + 8576 && 32768 * h <= 32769 * g + 33664
    requires 131072 * i <= 131073 * h + 133120 && 524288 * j <= 524289 * i + 528896
    requires 2097152 * k <= 2097153 * j + 2107392 && s >= 0
    ensures 5 * k <= 9 * s + 65
  {
  }

  lemma Start(v: Vec)
    ensures Rotated(v, 1).i == Reach(v) && Energy(Rotated(v, 1)) == 2 * Energy(v)
  {
    FoldKeeps(v);
    TurnGrows(Fold(v), 0);
    assert Rotated(v, 0) == Fold(v) && Rotated(v, 1) == Turn(Fold(v), 0);
  }

  /** The step with its coefficients multiplied out. */
  lemma GrowthAt(v: Vec, n: nat, h: int, m: int, c: int)
    requires n >= 1 && h == Pow2(n - 1) && m == 2 * (h * h) && c == h * (n - 1) + m
    ensures m * Rotated(v, n + 1).i <= (m + 1) * Rotated(v, n).i + c
  {
    GrowthStep(v, n, h);
  }

  lemma GrowthEnd(v: Vec)
    ensures 5 * Rotated(v, MAX_LEVEL + 1).i <= 9 * Reach(v) + 65
  {
    Start(v);
    Powers();
    GrowthAt(v, 1, 1, 2, 2);
    GrowthAt(v, 2, 2, 8, 10);
    GrowthAt(v, 3, 4, 32, 40);
    GrowthAt(v, 4, 8, 128, 152);
    GrowthAt(v, 5, 16, 512, 576);
    GrowthAt(v, 6, 32, 2048, 2208);
    GrowthAt(v, 7, 64, 8192, 8576);
    GrowthAt(v, 8, 128, 32768, 33664);
    GrowthAt(v, 9, 256, 131072, 133120);
    GrowthAt(v, 10, 512, 524288, 528896);
    GrowthAt(v, 11, 1024, 2097152, 2107392);
    GrowthSum(Reach(v), Rotated(v, 2).i, Rotated(v, 3).i, Rotated(v, 4).i, Rotated(v, 5).i,
              Rotated(v, 6).i, Rotated(v, 7).i, Rotated(v, 8).i, Rotated(v, 9).i,
              Rotated(v, 10).i, Rotated(v, 11).i, Rotated(v, 12).i);
  }

  /** I stays below 9/5 of |I| + |Q|, up to a constant. */
  lemma Growth(v: Vec, n: nat)
    requires n <= MAX_LEVEL + 1
    ensures 0 <= Rotated(v, n).i && 5 * Rotated(v, n).i <= 9 * Reach(v) + 65
  {
    GrowthEnd(v);
    Grows(v, n, MAX_LEVEL + 1);
    Grows(v, 0, n);
  }

  // ---- The error of the whole rotation ---------------------------------------------------

  /** Energies before and after step n agree up to the error of the step; p is 2^n. */
  ghost predicate StepOk(e: int, e': int, s: int, p: int, n: int) {
    var err := 18 * (p * (p + 1) * s) + 130 * (p * (p + 1)) + 10 * (p * p * (n + 1));
    -err <= 5 * (p * p * e' - (p * p + 1) * e) <= err
  }

  lemma StepErrorProduct(p: int, i: int, q: int, n: int)
    requires p > 0 && p * q <= i + p * n
    ensures p * p * (i + q + 1) <= p * (p + 1) * i + p * p * (n + 1)
  {
    MulLess(p, p * q, i + p * n);
    Distribute(p, i, p * n);
    Distribute(p * p, i + q, 1);
    Distribute(p * p, i, q);
    Distribute(p * p, n, 1);
    assert p * (p + 1) == p * p + p && (p * p + p) * i == p * p * i + p * i;
    assert p * (p * q) == p * p * q && p * (p * n) == p * p * n;
  }

  lemma StepErrorSize(m: int, s: int, i: int, a: int, err: int)
    requires m > 0 && 5 * i <= 9 * s + 65 && err <= 2 * (m * i + a)
    ensures 5 * err <= 18 * (m * s) + 130 * m + 10 * a
  {
    MulLess(m, 5 * i, 9 * s + 65);
    Distribute(m, 9 * s, 65);
  }

  lemma EnergyStep(v: Vec, n: nat, p: int, e: int, e': int)
    requires 1 <= n <= MAX_LEVEL && p == Pow2(n)
    requires e == Energy(Rotated(v, n)) && e' == Energy(Rotated(v, n + 1))
    ensures StepOk(e, e', Reach(v), p, n)
  {
    var t := Rotated(v, n + 1);
    var i, q, err := t.i, Abs(t.q), Abs(p * p * e' - (p * p + 1) * e);
    assert err <= 2 * (p * p * (i + q + 1)) by {
      Growth(v, n);
      TurnEnergy(Rotated(v, n), n);
    }
    assert p * p * (i + q + 1) <= p * (p + 1) * i + p * p * (n + 1) by {
      ResidualTimes(v, n);
      StepErrorProduct(p, i, q, n);
    }
    assert 5 * i <= 9 * Reach(v) + 65 by { Growth(v, n + 1); }
    StepErrorSize(p * (p + 1), Reach(v), i, p * p * (n + 1), err);
  }

  lemma ResidualTimes(v: Vec, n: nat)
    ensures Pow2(n) * Abs(Rotated(v, n + 1).q) <= Rotated(v, n + 1).i + Pow2(n) * n
  {
    var t := Rotated(v, n + 1);
    Residual(v, n);
    ShrBounds(t.i, n);
    MulLess(Pow2(n), Abs(t.q), Shr(t.i, n) + n);
    Distribute(Pow2(n), Shr(t.i, n), n);
  }

  /** The energies along the rotation, with the input energy in front. */
  lemma {:induction false} EnergySteps(v: Vec, n: nat) returns (es: seq<int>)
    requires 1 <= n <= MAX_LEVEL + 1
    ensures |es| == n + 1 && es[0] == Energy(v) && es[1] == 2 * es[0]
    ensures es[n] == Energy(Rotated(v, n))
    ensures StepsOk(es, Reach(v))
  {
    var e := Energy(Rotated(v, n));
    if n == 1 {
      Start(v);
      es := [Energy(v), e];
    } else {
      var init := EnergySteps(v, n - 1);
      EnergyStep(v, n - 1, Pow2(n - 1), Energy(Rotated(v, n - 1)), e);
      es := init + [e];
      forall k: nat | 1 <= k < n ensures StepHolds(es, Reach(v), k) {
        if k < n - 1 { assert StepHolds(init, Reach(v), k); }
      }
    }
  }

  ghost predicate StepsOk(es: seq<int>, s: int) {
    forall k: nat {:trigger StepHolds(es, s, k)} :: 1 <= k < |es| - 1 ==> StepHolds(es, s, k)
  }

  ghost predicate StepHolds(es: seq<int>, s: int, k: nat)
    requires k < |es| - 1
  {
    StepOk(es[k], es[k + 1], s, Pow2(k), k)
  }

  /** A step with its coefficients multiplied out. */
  lemma StepAt(es: seq<int>, s: int, k: nat, p: int, a: int, b: int, c: int)
    requires StepsOk(es, s) && 1 <= k < |es| - 1 && p == Pow2(k)
    requires a == p * p && b == 18 * (p * (p + 1)) && c == 130 * (p * (p + 1)) + 10 * (p * p * (k + 1))
    ensures -(b * s + c) <= 5 * (a * es[k + 1] - (a + 1) * es[k]) <= b * s + c
  {
    assert StepHolds(es, s, k);
    StepCoefficients(p * p, p * (p + 1), p * p * (k + 1), es[k], es[k + 1], s, a, b, c);
  }

  /** The energy after a step is at most what the step and its error allow, or at least. */
  ghost predicate Above(e: int, e': int, s: int, a: int, b: int, c: int) {
    5 * (a * e' - (a + 1) * e) <= b * s + c
  }

  ghost predicate Below(e: int, e': int, s: int, a: int, b: int, c: int) {
    5 * (a * e' - (a + 1) * e) >= -(b * s + c)
  }

  lemma PowerTable(k: nat)
    requires 1 <= k <= MAX_LEVEL
    ensures Pow2(k) == [2, 4, 8, 16, 32, 64, 128, 256, 512, 1024, 2048][k - 1]
  {
    Powers();
  }

  lemma StepAbove(es: seq<int>, s: int, k: nat, p: int, a: int, b: int, c: int)
    requires StepsOk(es, s) && 1 <= k < |es| - 1 && k <= MAX_LEVEL
    requires p == [2, 4, 8, 16, 32, 64, 128, 256, 512, 1024, 2048][k - 1]
    requires a == p * p && b == 18 * (p * (p + 1)) && c == 130 * (p * (p + 1)) + 10 * (p * p * (k + 1))
    ensures Above(es[k], es[k + 1], s, a, b, c)
  {
    PowerTable(k);
    StepAt(es, s, k, p, a, b, c);
  }

  lemma StepBelow(es: seq<int>, s: int, k: nat, p: int, a: int, b: int, c: int)
    requires StepsOk(es, s) && 1 <= k < |es| - 1 && k <= MAX_LEVEL
    requires p == [2, 4, 8, 16, 32, 64, 128, 256, 512, 1024, 2048][k - 1]
    requires a == p * p && b == 18 * (p * (p + 1)) && c == 130 * (p * (p + 1)) + 10 * (p * p * (k + 1))
    ensures Below(es[k], es[k + 1], s, a, b, c)
  {
    PowerTable(k);
    StepAt(es, s, k, p, a, b, c);
  }

  lemma StepCoefficients(x: int, y: int, z: int, e: int, e': int, s: int, a: int, b: int, c: int)
    requires a == x && b == 18 * y && c == 130 * y + 10 * z
    ensures a * e' == x * e' && (a + 1) * e == (x + 1) * e && b * s + c == 18 * (y * s) + 130 * y + 10 * z
  {
  }

  /** The squares of the gain correction's numerator and denominator. */
  const GAIN_SQUARE := GAIN64 * GAIN64
  const RANGE_SQUARE := TWO32 * TWO32

  /** Bounds of the energy in fixed point, `e0` being that of the input. */
  ghost predicate AboveInput(e0: int, e: int, s: int, r: int, x: int, y: int) {
    10_000_000_000_000 * e <= r * e0 + 1_000_000_000_000 * (x * s + y)
  }

  lemma FirstSumAbove(s: int, e0: int, z: int, a: int, b: int, c: int, d: int, e: int)
    requires s >= 0 && z == 2 * e0 && e0 >= 0
    requires Above(z, a, s, 4, 108, 860)
    requires Above(a, b, s, 16, 360, 3080)
    requires Above(b, c, s, 64, 1296, 11920)
    requires Above(c, d, s, 256, 4896, 48160)
    requires Above(d, e, s, 1024, 19008, 198720)
    ensures AboveInput(e0, e, s, 27_109_368_238_599, 221, 1999)
  {
  }

  lemma NextSumAbove(s: int, e0: int, e: int, f: int, g: int, h: int)
    requires s >= 0 && e0 >= 0 && AboveInput(e0, e, s, 27_109_368_238_599, 221, 1999)
    requires Above(e, f, s, 4096, 74880, 827520)
    requires Above(f, g, s, 16384, 297216, 3457280)
    requires Above(g, h, s, 65536, 1184256, 14451200)
    ensures AboveInput(e0, h, s, 27_118_055_547_568, 331, 3271)
  {
  }

  /** The step errors add up to less than 17 (|I| + |Q|) + 180; `k` is the energy after the last
      step. */
  lemma LastSumAbove(s: int, e0: int, h: int, i: int, j: int, k: int)
    requires s >= 0 && e0 >= 0 && AboveInput(e0, h, s, 27_118_055_547_568, 331, 3271)
    requires Above(h, i, s, 262144, 4727808, 60359680)
    requires Above(i, j, s, 1048576, 18892800, 251791360)
    requires Above(j, k, s, 4194304, 75534336, 1048842240)
    ensures 10_000_000_000 * (GAIN_SQUARE * k)
            <= RANGE_SQUARE * (10_000_000_001 * e0 + 10_000_000_000 * (17 * s + 180))
  {
  }

  lemma EnergySumBelow(s: int, e0: int, z: int, a: int, b: int, c: int, d: int,
                       e: int, f: int, g: int, h: int, i: int, j: int, k: int)
    requires s >= 0 && z == 2 * e0 && e0 >= 0
    requires Below(z, a, s, 4, 108, 860)
    requires Below(a, b, s, 16, 360, 3080)
    requires Below(b, c, s, 64, 1296, 11920)
    requires Below(c, d, s, 256, 4896, 48160)
    requires Below(d, e, s, 1024, 19008, 198720)
    requires Below(e, f, s, 4096, 74880, 827520)
    requires Below(f, g, s, 16384, 297216, 3457280)
    requires Below(g, h, s, 65536, 1184256, 14451200)
    requires Below(h, i, s, 262144, 4727808, 60359680)
    requires Below(i, j, s, 1048576, 18892800, 251791360)
    requires Below(j, k, s, 4194304, 75534336, 1048842240)
    ensures GAIN_SQUARE * k >= RANGE_SQUARE * (e0 - 17 * s - 180)
  {
  }

  ghost predicate EnergyKept(e0: int, k: int, s: int) {
    && 10_000_000_000 * (GAIN_SQUARE * k)
       <= RANGE_SQUARE * (10_000_000_001 * e0 + 10_000_000_000 * (17 * s + 180))
    && GAIN_SQUARE * k >= RANGE_SQUARE * (e0 - 17 * s - 180)
  }

  lemma SumAbove(es: seq<int>, s: int)
    requires |es| == 13 && s >= 0 && es[0] >= 0 && es[1] == 2 * es[0] && StepsOk(es, s)
    ensures 10_000_000_000 * (GAIN_SQUARE * es[12])
            <= RANGE_SQUARE * (10_000_000_001 * es[0] + 10_000_000_000 * (17 * s + 180))
  {
    assert AboveInput(es[0], es[6], s, 27_109_368_238_599, 221, 1999) by {
      StepAbove(es, s, 1, 2, 4, 108, 860);
      StepAbove(es, s, 2, 4, 16, 360, 3080);
      StepAbove(es, s, 3, 8, 64, 1296, 11920);
      StepAbove(es, s, 4, 16, 256, 4896, 48160);
      StepAbove(es, s, 5, 32, 1024, 19008, 198720);
      FirstSumAbove(s, es[0], es[1], es[2], es[3], es[4], es[5], es[6]);
    }
    assert AboveInput(es[0], es[9], s, 27_118_055_547_568, 331, 3271) by {
      StepAbove(es, s, 6, 64, 4096, 74880, 827520);
      StepAbove(es, s, 7, 128, 16384, 297216, 3457280);
      StepAbove(es, s, 8, 256, 65536, 1184256, 14451200);
      NextSumAbove(s, es[0], es[6], es[7], es[8], es[9]);
    }
    StepAbove(es, s, 9, 512, 262144, 4727808, 60359680);
    StepAbove(es, s, 10, 1024, 1048576, 18892800, 251791360);
    StepAbove(es, s, 11, 2048, 4194304, 75534336, 1048842240);
    LastSumAbove(s, es[0], es[9], es[10], es[11], es[12]);
  }

  lemma SumBelow(es: seq<int>, s: int)
    requires |es| == 13 && s >= 0 && es[0] >= 0 && es[1] == 2 * es[0] && StepsOk(es, s)
    ensures GAIN_SQUARE * es[12] >= RANGE_SQUARE * (es[0] - 17 * s - 180)
  {
    StepBelow(es, s, 1, 2, 4, 108, 860);
    StepBelow(es, s, 2, 4, 16, 360, 3080);
    StepBelow(es, s, 3, 8, 64, 1296, 11920);
    StepBelow(es, s, 4, 16, 256, 4896, 48160);
    StepBelow(es, s, 5, 32, 1024, 19008, 198720);
    StepBelow(es, s, 6, 64, 4096, 74880, 827520);
    StepBelow(es, s, 7, 128, 16384, 297216, 3457280);
    StepBelow(es, s, 8, 256, 65536, 1184256, 14451200);
    StepBelow(es, s, 9, 512, 262144, 4727808, 60359680);
    StepBelow(es, s, 10, 1024, 1048576, 18892800, 251791360);
    StepBelow(es, s, 11, 2048, 4194304, 75534336, 1048842240);
    EnergySumBelow(s, es[0], es[1], es[2], es[3], es[4], es[5], es[6],
                   es[7], es[8], es[9], es[10], es[11], es[12]);
  }

  lemma EnergySum(es: seq<int>, s: int)
    requires |es| == 13 && s >= 0 && es[0] >= 0 && es[1] == 2 * es[0] && StepsOk(es, s)
    ensures EnergyKept(es[0], es[12], s)
  {
    SumAbove(es, s);
    SumBelow(es, s);
  }

  /** Corrected by the gain, the energy after all steps is the input energy up to a linear error. */
  lemma TotalEnergy(v: Vec)
    ensures EnergyKept(Energy(v), Energy(Rotated(v, MAX_LEVEL + 1)), Reach(v))
  {
    var es := EnergySteps(v, MAX_LEVEL + 1);
    EnergySum(es, Reach(v));
  }

  // ---- The magnitude ---------------------------------------------------------------------

  lemma SquareLess(x: int, y: int)
    requires 0 <= x <= y
    ensures x * x <= y * y
  {
    MulLess(x, x, y);
    MulLess(y, x, y);
  }

  lemma SquareOfProduct(g: int, x: int)
    ensures (g * x) * (g * x) == (g * g) * (x * x)
  {
  }

  lemma UpperBound(r: int, rr: int, i: int, ii: int, qq: int, e0: int, s: int)
    requires 0 <= TWO32 * r <= GAIN64 * i && rr == r * r && ii == i * i && qq >= 0 && 0 <= s
    requires EnergyKept(e0, ii + qq, s)
    ensures 10_000_000_000 * rr <= 10_000_000_001 * e0 + 10_000_000_000 * (17 * s + 180)
  {
    SquareLess(TWO32 * r, GAIN64 * i);
    SquareOfProduct(TWO32, r);
    SquareOfProduct(GAIN64, i);
    UpperSum(rr, ii, qq, e0, s);
  }

  lemma UpperSum(rr: int, ii: int, qq: int, e0: int, s: int)
    requires RANGE_SQUARE * rr <= GAIN_SQUARE * ii && qq >= 0 && 0 <= s
    requires EnergyKept(e0, ii + qq, s)
    ensures 10_000_000_000 * rr <= 10_000_000_001 * e0 + 10_000_000_000 * (17 * s + 180)
  {
  }

  lemma LowerBound(r: int, rr: int, i: int, ii: int, q: int, qq: int, e0: int, s: int)
    requires 0 <= TWO32 * r <= GAIN64 * i < TWO32 * (r + 1)
    requires rr == r * r && ii == i * i && qq == q * q && q >= 0 && 0 <= s
    requires 2048 * q <= i + 22528 && 5 * i <= 9 * s + 65 && EnergyKept(e0, ii + qq, s)
    ensures 0x40_0000 * e0 <= 0x40_0001 * rr + 0x40_0000 * (21 * s + 250)
  {
    assert GAIN_SQUARE * ii <= RANGE_SQUARE * (rr + 2 * r + 1) by {
      SquareLess(GAIN64 * i, TWO32 * (r + 1));
      SquareOfProduct(TWO32, r + 1);
      SquareOfProduct(GAIN64, i);
      assert (r + 1) * (r + 1) == rr + 2 * r + 1;
    }
    assert 0x40_0000 * qq <= ii + 45056 * i + 507_510_784 by {
      SquareLess(2048 * q, i + 22528);
      SquareOfProduct(2048, q);
      assert (i + 22528) * (i + 22528) == ii + 45056 * i + 507_510_784;
    }
    LowerSum(r, rr, i, ii, qq, e0, s);
  }

  lemma LowerSum(r: int, rr: int, i: int, ii: int, qq: int, e0: int, s: int)
    requires 0 <= TWO32 * r <= GAIN64 * i && 5 * i <= 9 * s + 65 && 0 <= s
    requires GAIN_SQUARE * ii <= RANGE_SQUARE * (rr + 2 * r + 1)
    requires 0x40_0000 * qq <= ii + 45056 * i + 507_510_784
    requires EnergyKept(e0, ii + qq, s)
    ensures 0x40_0000 * e0 <= 0x40_0001 * rr + 0x40_0000 * (21 * s + 250)
  {
  }

  lemma EnergyParts(t: Vec)
    ensures Energy(t) == t.i * t.i + Abs(t.q) * Abs(t.q)
  {
  }

  /** The result is the magnitude of the input: its square misses I^2 + Q^2 by no more than a
      term linear in |I| + |Q| and a relative 1e-10 above or 2^-22 below. */
  lemma AmpIsMagnitude(v: Vec)
    ensures var r, e, s := Amp(v), Energy(v), Reach(v);
            && 0 <= r
            && 10_000_000_000 * (r * r) <= 10_000_000_001 * e + 10_000_000_000 * (17 * s + 180)
            && 0x40_0000 * e <= 0x40_0001 * (r * r) + 0x40_0000 * (21 * s + 250)
  {
    var t, r := Rotated(v, MAX_LEVEL + 1), Amp(v);
    var i, q := t.i, Abs(t.q);
    Growth(v, MAX_LEVEL + 1);
    assert 0 <= r && TWO32 * r <= GAIN64 * i < TWO32 * (r + 1);
    FinalResidual(v);
    AmpSquare(v, r, i, q);
  }

  lemma FinalResidual(v: Vec)
    ensures 2048 * Abs(Rotated(v, MAX_LEVEL + 1).q) <= Rotated(v, MAX_LEVEL + 1).i + 22528
  {
    Powers();
    Residual(v, MAX_LEVEL);
  }

  lemma AmpSquare(v: Vec, r: int, i: int, q: int)
    requires 0 <= r && TWO32 * r <= GAIN64 * i < TWO32 * (r + 1)
    requires q >= 0 && 2048 * q <= i + 22528
    requires i == Rotated(v, MAX_LEVEL + 1).i && q == Abs(Rotated(v, MAX_LEVEL + 1).q)
    ensures var e, s := Energy(v), Reach(v);
            && 10_000_000_000 * (r * r) <= 10_000_000_001 * e + 10_000_000_000 * (17 * s + 180)
            && 0x40_0000 * e <= 0x40_0001 * (r * r) + 0x40_0000 * (21 * s + 250)
  {
    var e, s := Energy(v), Reach(v);
    assert 5 * i <= 9 * s + 65 by { Growth(v, MAX_LEVEL + 1); }
    FinalEnergy(v, i, q);
    UpperBound(r, r * r, i, i * i, q * q, e, s);
    LowerBound(r, r * r, i, i * i, q, q * q, e, s);
  }

  lemma FinalEnergy(v: Vec, i: int, q: int)
    requires i == Rotated(v, MAX_LEVEL + 1).i && q == Abs(Rotated(v, MAX_LEVEL + 1).q)
    ensures EnergyKept(Energy(v), i * i + q * q, Reach(v))
  {
    TotalEnergy(v);
    EnergyParts(Rotated(v, MAX_LEVEL + 1));
  }

  // ---- Range -----------------------------------------------------------------------------

  const INT_RANGE := 0x8000_0000

  predicate InRange(v: Vec) { Abs(v.i) < INT_RANGE && Abs(v.q) < INT_RANGE }

  /** No vector leaves 32 bits exactly if the last one does not. */
  lemma FitsIff(v: Vec)
    ensures (forall n: nat :: n <= MAX_LEVEL + 1 ==> InRange(Rotated(v, n)))
            <==> Rotated(v, MAX_LEVEL + 1).i < INT_RANGE
  {
    Grows(v, 0, MAX_LEVEL + 1);
    if Rotated(v, MAX_LEVEL + 1).i < INT_RANGE {
      forall n: nat | n <= MAX_LEVEL + 1 ensures InRange(Rotated(v, n)) { FitsBelow(v, n); }
    } else {
      assert !InRange(Rotated(v, MAX_LEVEL + 1));
    }
  }

  lemma OutOfRange(v: Vec, n: nat)
    requires n <= MAX_LEVEL + 1 && !InRange(Rotated(v, n))
    ensures Rotated(v, MAX_LEVEL + 1).i >= INT_RANGE
  {
    if Rotated(v, MAX_LEVEL + 1).i < INT_RANGE { FitsBelow(v, n); }
  }

  lemma FitsBelow(v: Vec, n: nat)
    requires n <= MAX_LEVEL + 1 && Rotated(v, MAX_LEVEL + 1).i < INT_RANGE
    ensures InRange(Rotated(v, n)) && 0 <= Rotated(v, n).i
  {
    Grows(v, n, MAX_LEVEL + 1);
    if n == 0 {
      FoldKeeps(v);
      Grows(v, 0, MAX_LEVEL + 1);
    } else {
      var x := Rotated(v, n).i;
      Residual(v, n - 1);
      if n == 1 {
        assert Shr(x, 0) == x;
      } else {
        ShrHalves(x, n - 2);
        ShrSign(x, n - 2);
      }
    }
  }

  /** Up to this I^2 + Q^2 every input keeps within 32 bits, from the other on none does; the two
      are less than 3 parts in ten million apart. */
  const SAFE_ENERGY := 1_700_587_579_000_000_000
  const OVERFLOW_ENERGY := 1_700_588_052_000_000_000

  lemma EnergyDecidesRange(v: Vec)
    ensures Energy(v) <= SAFE_ENERGY ==> Rotated(v, MAX_LEVEL + 1).i < INT_RANGE
    ensures Energy(v) >= OVERFLOW_ENERGY ==> Rotated(v, MAX_LEVEL + 1).i >= INT_RANGE
  {
    var i, q := Rotated(v, MAX_LEVEL + 1).i, Abs(Rotated(v, MAX_LEVEL + 1).q);
    FinalEnergy(v, i, q);
    FinalResidual(v);
    Grows(v, 0, MAX_LEVEL + 1);
    if Energy(v) <= SAFE_ENERGY {
      ReachByEnergy(v);
      if Reach(v) > 1_844_232_947 { SquareLess(1_844_232_948, Reach(v)); }
      SafeSum(i * i, q * q, Energy(v), Reach(v));
      if i >= INT_RANGE { SquareLess(INT_RANGE, i); }
    }
    if i < INT_RANGE {
      SquareLess(i, INT_RANGE - 1);
      SquareLess(q, 1_048_587);
      OverflowSum(i * i, q * q, Energy(v), Reach(v));
    }
  }

  lemma SafeSum(ii: int, qq: int, e: int, s: int)
    requires qq >= 0 && e <= SAFE_ENERGY && s <= 1_844_232_947 && EnergyKept(e, ii + qq, s)
    ensures ii < INT_RANGE * INT_RANGE
  {
  }

  lemma OverflowSum(ii: int, qq: int, e: int, s: int)
    requires ii <= (INT_RANGE - 1) * (INT_RANGE - 1) && qq <= 1_048_587 * 1_048_587 && s < INT_RANGE
    requires EnergyKept(e, ii + qq, s)
    ensures e < OVERFLOW_ENERGY
  {
  }

  lemma ReachByEnergy(v: Vec)
    ensures Reach(v) * Reach(v) <= 2 * Energy(v)
  {
    var a, b := Abs(v.i), Abs(v.q);
    assert Energy(v) == a * a + b * b;
    var d: int := a as int - b;
    assert d * d >= 0;
    assert (a + b) * (a + b) == 2 * (a * a + b * b) - d * d;
  }

  // ---- The program -----------------------------------------------------------------------

  newtype int64 = x: int | -0x8000_0000_0000_0000 <= x < 0x8000_0000_0000_0000

  method ShiftRight(x: int32, n: nat) returns (y: int32)
    ensures y as int == Shr(x as int, n)
  {
    ShrSign(x as int, n);
    y := Shr(x as int, n) as int32;
  }

  method CordicCorrect(iVx: int32) returns (r: int32)
    requires iVx >= 0
    ensures r as int == Correct(iVx as int)
  {
    var product := GAIN64 as int64 * iVx as int64;
    r := (product / TWO32 as int64) as int32;
  }

  /** A signed operation that leaves 32 bits has no defined result. */
  datatype Amplitude = Value(r: int32) | Overflow

  predicate IsInt32(x: int) { -INT_RANGE <= x < INT_RANGE }

  method FoldInput(i: int, q: int) returns (I: int, Q: int)
    ensures Vec(I, Q) == Fold(Vec(i, q))
  {
    I, Q := i, q;
    if I < 0 {
      var tmp := I;
      if Q > 0 {
        I := Q;
        Q := -tmp;
      } else {
        I := -Q;
        Q := tmp;
      }
    }
  }

  method Step(i: int32, q: int32, L: nat) returns (I: int, Q: int)
    ensures Vec(I, Q) == Turn(Vec(i as int, q as int), L)
  {
    var dI := ShiftRight(q, L);
    var dQ := ShiftRight(i, L);
    if q >= 0 {
      I, Q := i as int + dI as int, q as int - dQ as int;
    } else {
      I, Q := i as int - dI as int, q as int + dQ as int;
    }
  }

  /** For every input: some operation overflows exactly if the last I leaves 32 bits, which
      `EnergyDecidesRange` tells from the input; otherwise the result is the magnitude in the
      sense of `AmpIsMagnitude`. */
  method CordicAmp(i: int32, q: int32) returns (a: Amplitude)
    ensures a.Overflow? <==> Rotated(Vec(i as int, q as int), MAX_LEVEL + 1).i >= INT_RANGE
    ensures a.Value? ==> a.r as int == Amp(Vec(i as int, q as int))
  {
    ghost var v := Vec(i as int, q as int);
    var I, Q := FoldInput(i as int, q as int);
    if !IsInt32(I) || !IsInt32(Q) {
      OutOfRange(v, 0);
      return Overflow;
    }
    var L := 0;
    while L <= MAX_LEVEL
      invariant 0 <= L <= MAX_LEVEL + 1 && IsInt32(I) && IsInt32(Q)
      invariant Vec(I, Q) == Rotated(v, L)
    {
      I, Q := Step(I as int32, Q as int32, L);
      L := L + 1;
      if !IsInt32(I) || !IsInt32(Q) {
        OutOfRange(v, L);
        return Overflow;
      }
    }
    Grows(v, 0, MAX_LEVEL + 1);
    var r := CordicCorrect(I as int32);
    a := Value(r);
  }

  // ---- Zero ------------------------------------------------------------------------------

  predicate IsSilent(v: Vec) { v == Vec(0, 0) || v == Vec(0, 1) }

  /** Two inputs have no magnitude, and no other. */
  lemma AmpIsZeroIff(v: Vec)
    ensures Amp(v) >= 0 && (Amp(v) == 0 <==> IsSilent(v))
  {
    if IsSilent(v) {
      SilentFirst(v);
      StaysPut(v, MAX_LEVEL + 1);
    } else {
      LoudEnd(v, MAX_LEVEL + 1);
    }
    CorrectIsZeroIff(Rotated(v, MAX_LEVEL + 1).i);
  }

  lemma SilentFirst(v: Vec)
    requires v.i == 0 && 0 <= v.q <= 1
    ensures Rotated(v, 1).i == Rotated(v, 1).q == v.q
  {
    FirstStep(v);
  }

  lemma LoudEnd(v: Vec, n: nat)
    requires !IsSilent(v) && n >= 2
    ensures Rotated(v, n).i >= 2
  {
    if Reach(v) == 1 {
      UnitSteps(v);
      Grows(v, 2, n);
    } else {
      Grows(v, 1, n);
    }
  }

  lemma CorrectIsZeroIff(i: int)
    requires i >= 0
    ensures Correct(i) >= 0 && (Correct(i) == 0 <==> i <= 1)
  {
  }

  lemma FirstStep(v: Vec)
    ensures var u := Fold(v);
            Rotated(v, 1) == if u.q >= 0 then Vec(u.i + u.q, u.q - u.i) else Vec(u.i - u.q, u.q + u.i)
  {
    TurnAtZero(Fold(v));
    assert Rotated(v, 0) == Fold(v) && Rotated(v, 1) == Turn(Fold(v), 0);
  }

  lemma UnitSteps(v: Vec)
    requires Reach(v) == 1 && !IsSilent(v)
    ensures Rotated(v, 2) == Vec(2, -1)
  {
    assert Rotated(v, 1) == Vec(1, -1) by {
      UnitFold(v);
      FirstStep(v);
    }
    TurnOfUnit();
    Unroll(v, 1);
  }

  lemma Unroll(v: Vec, n: nat)
    ensures Rotated(v, n + 1) == Turn(Rotated(v, n), n)
  {
  }

  lemma UnitFold(v: Vec)
    requires Reach(v) == 1 && !IsSilent(v)
    ensures Fold(v) == Vec(1, 0) || Fold(v) == Vec(0, -1)
  {
  }

  lemma TurnOfUnit()
    ensures Turn(Vec(1, -1), 1) == Vec(2, -1)
  {
    assert Pow2(1) == 2;
  }

  lemma TurnAtZero(u: Vec)
    ensures Turn(u, 0) == if u.q >= 0 then Vec(u.i + u.q, u.q - u.i) else Vec(u.i - u.q, u.q + u.i)
  {
    assert Shr(u.i, 0) == u.i && Shr(u.q, 0) == u.q;
  }

  lemma TurnOfBit(u: Vec, l: nat)
    requires l >= 1 && 0 <= u.i == u.q <= 1
    ensures Turn(u, l) == u
  {
    var p := Pow2(l);
    assert p == 2 * Pow2(l - 1);
    ModUnique(u.i, p, 0, u.i);
  }

  lemma {:induction false} StaysPut(v: Vec, n: nat)
    requires n >= 1 && 0 <= Rotated(v, 1).i == Rotated(v, 1).q <= 1
    ensures Rotated(v, n) == Rotated(v, 1)
  {
    if n == 1 {
    } else {
      StaysPut(v, n - 1);
      TurnOfBit(Rotated(v, n - 1), n - 1);
      assert Rotated(v, n) == Turn(Rotated(v, n - 1), n - 1);
    }
  }
}
