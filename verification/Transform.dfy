/** Raw history-buffer atoms to positions, in place.  A raw atom and the atom computed from it
    occupy the same eight 32-bit words, and the words are overwritten while they are read. */
module Transform {
  import opened Arithmetic
  import opened Cordic

  /** Eight words: cos and sin of the electrodes a, b, c, d when raw; Va, Vb, Vc, Vd, X, Y, Q
      and Sum when transformed. */
  datatype Words = Words(w0: int32, w1: int32, w2: int32, w3: int32,
                         w4: int32, w5: int32, w6: int32, w7: int32)

  datatype Amps = Amps(a: int, b: int, c: int, d: int)

  datatype Cache = Cache(kx: int, ky: int, xOffset: int, yOffset: int, qOffset: int)

  const MAX_COEF := 0x1FFF_FFFF  // INT_MAX / 4

  predicate ValidCoef(k: int) { 0 <= k <= MAX_COEF }

  predicate ValidOffset(o: int) { -0x2000_0000 <= o <= MAX_COEF }

  /** X and Y carry the sum of two validated offsets, Q one. */
  predicate ValidCache(c: Cache) {
    && ValidCoef(c.kx) && ValidCoef(c.ky) && ValidOffset(c.qOffset)
    && -0x4000_0000 <= c.xOffset <= 2 * MAX_COEF && -0x4000_0000 <= c.yOffset <= 2 * MAX_COEF
  }

  /** C division truncates towards zero. */
  function TruncDiv(x: int, s: int): int
    requires s > 0
  {
    if x >= 0 then x / s else -((-x) / s)
  }

  function Total(v: Amps): int { v.a + v.b + v.c + v.d }

  predicate ValidAmps(v: Amps) {
    && 0 <= v.a < 0x8000_0000 && 0 <= v.b < 0x8000_0000
    && 0 <= v.c < 0x8000_0000 && 0 <= v.d < 0x8000_0000 && Total(v) > 0
  }

  function XOf(c: Cache, v: Amps): int
    requires ValidAmps(v)
  {
    TruncDiv((v.a + v.d - v.b - v.c) * c.kx, Total(v)) - c.xOffset
  }

  function YOf(c: Cache, v: Amps): int
    requires ValidAmps(v)
  {
    TruncDiv((v.a + v.b - v.c - v.d) * c.ky, Total(v)) - c.yOffset
  }

  function QOf(c: Cache, v: Amps): int
    requires ValidAmps(v)
  {
    TruncDiv((v.a + v.c - v.b - v.d) * c.kx, Total(v)) - c.qOffset
  }

  lemma DivBound(x: int, s: int, k: int)
    requires 0 <= x <= s && s > 0 && k >= 0
    ensures 0 <= x * k / s <= k
  {
    MulLess(k, x, s);
    assert x * k >= 0;
    QuotientBound(x * k, s, k);
  }

  /** A difference of non-negative amplitudes, scaled by K and divided by their sum, is at most K. */
  lemma CoordBound(x: int, s: int, k: int)
    requires -s <= x <= s && s > 0 && k >= 0
    ensures -k <= TruncDiv(x * k, s) <= k
  {
    if x >= 0 {
      DivBound(x, s, k);
    } else {
      DivBound(-x, s, k);
      assert -(x * k) == -x * k;
    }
  }

  /** Validated coefficients and offsets make every coordinate fit 32 bits; without the offset
      it is bounded by its coefficient. */
  lemma PositionFits(c: Cache, v: Amps)
    requires ValidCache(c) && ValidAmps(v)
    ensures -c.kx <= XOf(c, v) + c.xOffset <= c.kx && -0x8000_0000 <= XOf(c, v) < 0x8000_0000
    ensures -c.ky <= YOf(c, v) + c.yOffset <= c.ky && -0x8000_0000 <= YOf(c, v) < 0x8000_0000
    ensures -c.kx <= QOf(c, v) + c.qOffset <= c.kx && -0x8000_0000 <= QOf(c, v) < 0x8000_0000
    ensures 0 <= Total(v) / 4 < 0x8000_0000
  {
    CoordBound(v.a + v.d - v.b - v.c, Total(v), c.kx);
    CoordBound(v.a + v.b - v.c - v.d, Total(v), c.ky);
    CoordBound(v.a + v.c - v.b - v.d, Total(v), c.kx);
  }

  /** Swapping the electrodes left and right mirrors X and Q and leaves Y and the sum alone. */
  lemma Mirror(c: Cache, v: Amps)
    requires ValidAmps(v)
    ensures var m := Amps(v.b, v.a, v.d, v.c);
            && XOf(c, m) + c.xOffset == -(XOf(c, v) + c.xOffset)
            && QOf(c, m) + c.qOffset == -(QOf(c, v) + c.qOffset)
            && YOf(c, m) == YOf(c, v) && Total(m) == Total(v)
  {
    TruncDivOdd((v.a + v.d - v.b - v.c) * c.kx, Total(v));
    TruncDivOdd((v.a + v.c - v.b - v.d) * c.kx, Total(v));
    var x, q := v.a + v.d - v.b - v.c, v.a + v.c - v.b - v.d;
    assert (-x) * c.kx == -(x * c.kx) && (-q) * c.kx == -(q * c.kx);
  }

  lemma TruncDivOdd(x: int, s: int)
    requires s > 0
    ensures TruncDiv(-x, s) == -TruncDiv(x, s)
  {
  }

  /** Swapping top and bottom mirrors Y and Q and leaves X and the sum alone. */
  lemma MirrorTop(c: Cache, v: Amps)
    requires ValidAmps(v)
    ensures var m := Amps(v.d, v.c, v.b, v.a);
            && YOf(c, m) + c.yOffset == -(YOf(c, v) + c.yOffset)
            && QOf(c, m) + c.qOffset == -(QOf(c, v) + c.qOffset)
            && XOf(c, m) == XOf(c, v) && Total(m) == Total(v)
  {
    TruncDivOdd((v.a + v.b - v.c - v.d) * c.ky, Total(v));
    TruncDivOdd((v.a + v.c - v.b - v.d) * c.kx, Total(v));
    var y, q := v.a + v.b - v.c - v.d, v.a + v.c - v.b - v.d;
    assert (-y) * c.ky == -(y * c.ky) && (-q) * c.kx == -(q * c.kx);
  }

  /** The transformed atom that belongs to four amplitudes. */
  function Position(c: Cache, v: Amps): Words
    requires ValidCache(c) && ValidAmps(v)
  {
    PositionFits(c, v);
    Words(v.a as int32, v.b as int32, v.c as int32, v.d as int32,
          XOf(c, v) as int32, YOf(c, v) as int32, QOf(c, v) as int32, (Total(v) / 4) as int32)
  }

  // ---- Where the coordinates point ------------------------------------------------------

  /** All signal on one electrode: the beam is at the corner where that electrode is. */
  lemma Corners(c: Cache, n: nat)
    requires ValidCache(c) && 0 < n < 0x8000_0000
    ensures Position(c, Amps(n, 0, 0, 0)) == Corner(c, n, 0, 1, 1, 1)
    ensures Position(c, Amps(0, n, 0, 0)) == Corner(c, n, 1, -1, 1, -1)
    ensures Position(c, Amps(0, 0, n, 0)) == Corner(c, n, 2, -1, -1, 1)
    ensures Position(c, Amps(0, 0, 0, n)) == Corner(c, n, 3, 1, -1, -1)
  {
    WholeRatio(n, c.kx);
    WholeRatio(n, c.ky);
  }

  /** An atom with amplitude n on one electrode, and the coordinates full in these directions. */
  function Corner(c: Cache, n: nat, electrode: nat, x: int, y: int, q: int): Words
    requires ValidCache(c) && 0 < n < 0x8000_0000 && x in {-1, 1} && y in {-1, 1} && q in {-1, 1}
  {
    Words(if electrode == 0 then n as int32 else 0, if electrode == 1 then n as int32 else 0,
          if electrode == 2 then n as int32 else 0, if electrode == 3 then n as int32 else 0,
          (if x == 1 then c.kx - c.xOffset else -c.kx - c.xOffset) as int32,
          (if y == 1 then c.ky - c.yOffset else -c.ky - c.yOffset) as int32,
          (if q == 1 then c.kx - c.qOffset else -c.kx - c.qOffset) as int32,
          (n / 4) as int32)
  }

  lemma WholeRatio(n: int, k: int)
    requires n > 0 && k >= 0
    ensures TruncDiv(n * k, n) == k && TruncDiv(-n * k, n) == -k
  {
    MulLess(n, 0, k);
    ModUnique(n * k, n, k, 0);
    assert -n * k == -(n * k);
  }

  /** Each coordinate grows with the electrodes it points to and falls with the others. */
  lemma CoordinatesFollow(c: Cache, v: Amps, u: Amps)
    requires ValidCache(c) && ValidAmps(v) && ValidAmps(u)
    ensures v.a + v.d <= u.a + u.d && v.b + v.c >= u.b + u.c ==> XOf(c, v) <= XOf(c, u)
    ensures v.a + v.b <= u.a + u.b && v.c + v.d >= u.c + u.d ==> YOf(c, v) <= YOf(c, u)
    ensures v.a + v.c <= u.a + u.c && v.b + v.d >= u.b + u.d ==> QOf(c, v) <= QOf(c, u)
  {
    if v.a + v.d <= u.a + u.d && v.b + v.c >= u.b + u.c {
      DifferenceGrows(v.a + v.d, v.b + v.c, v.a + v.d - v.b - v.c, Total(v),
                      u.a + u.d, u.b + u.c, u.a + u.d - u.b - u.c, Total(u), c.kx);
    }
    if v.a + v.b <= u.a + u.b && v.c + v.d >= u.c + u.d {
      DifferenceGrows(v.a + v.b, v.c + v.d, v.a + v.b - v.c - v.d, Total(v),
                      u.a + u.b, u.c + u.d, u.a + u.b - u.c - u.d, Total(u), c.ky);
    }
    if v.a + v.c <= u.a + u.c && v.b + v.d >= u.b + u.d {
      DifferenceGrows(v.a + v.c, v.b + v.d, v.a + v.c - v.b - v.d, Total(v),
                      u.a + u.c, u.b + u.d, u.a + u.c - u.b - u.d, Total(u), c.kx);
    }
  }

  lemma DifferenceGrows(p: int, n: int, x: int, s: int, p': int, n': int, x': int, s': int, k: int)
    requires 0 <= p <= p' && 0 <= n' <= n && k >= 0
    requires x == p - n && s == p + n > 0 && x' == p' - n' && s' == p' + n' > 0
    ensures TruncDiv(x * k, s) <= TruncDiv(x' * k, s')
  {
    RatioGrows(p, n, p', n', k);
  }

  lemma RatioGrows(p: int, n: int, p': int, n': int, k: int)
    requires 0 <= p <= p' && 0 <= n' <= n && p + n > 0 && p' + n' > 0 && k >= 0
    ensures TruncDiv((p - n) * k, p + n) <= TruncDiv((p' - n') * k, p' + n')
  {
    var x, x' := (p - n) * (p' + n'), (p' - n') * (p + n);
    assert x <= x' by {
      MulLess(n', p, p');
      MulLess(p', n', n);
      assert x' - x == 2 * (p' * n) - 2 * (p * n');
    }
    MulLess(k, x, x');
    assert (p - n) * k * (p' + n') == k * x && (p' - n') * k * (p + n) == k * x';
    TruncDivGrows((p - n) * k, p + n, (p' - n') * k, p' + n');
  }

  lemma TruncDivGrows(x: int, s: int, x': int, s': int)
    requires s > 0 && s' > 0 && x * s' <= x' * s
    ensures TruncDiv(x, s) <= TruncDiv(x', s')
  {
    if x >= 0 {
      MulSign(s', x);
      if x' < 0 { MulSign(s, x'); MulLess(s, x', -1); }
      QuotientGrows(x, s, x', s');
    } else if x' < 0 {
      assert -x' * s == -(x' * s) && -x * s' == -(x * s');
      QuotientGrows(-x', s', -x, s);
    } else {
      QuotientSign(-x, s);
      QuotientSign(x', s');
    }
  }

  lemma QuotientGrows(x: int, s: int, x': int, s': int)
    requires 0 <= x && 0 <= x' && s > 0 && s' > 0 && x * s' <= x' * s
    ensures x / s <= x' / s'
  {
    var q := x / s;
    MulLess(s', s * q, x);
    assert s * (s' * q) == s' * (s * q);
    Cancel(s, s' * q, x');
    AtMostQuotient(q, x', s');
  }

  lemma Cancel(s: int, a: int, b: int)
    requires s > 0 && s * a <= s * b
    ensures a <= b
  {
    if a > b {
      Distribute(s, b, 1);
      MulLess(s, b + 1, a);
    }
  }

  lemma AtMostQuotient(q: int, x: int, s: int)
    requires s > 0 && s * q <= x
    ensures q <= x / s
  {
    if q > x / s {
      Distribute(s, x / s, 1);
      MulLess(s, x / s + 1, q);
    }
  }

  // ---- Raw atoms -------------------------------------------------------------------------

  function Pair(sin: int32, cos: int32): Vec { Vec(sin as int / 2, cos as int / 2) }

  function RawAmps(w: Words): Amps {
    Amps(Amp(Pair(w.w1, w.w0)), Amp(Pair(w.w3, w.w2)), Amp(Pair(w.w5, w.w4)), Amp(Pair(w.w7, w.w6)))
  }

  /** The raw atoms the transformation handles, told from their words: no electrode carries more
      energy than the CORDIC can take, and not all of them are silent. */
  predicate ValidRaw(w: Words) {
    && Energy(Pair(w.w1, w.w0)) <= SAFE_ENERGY && Energy(Pair(w.w3, w.w2)) <= SAFE_ENERGY
    && Energy(Pair(w.w5, w.w4)) <= SAFE_ENERGY && Energy(Pair(w.w7, w.w6)) <= SAFE_ENERGY
    && !AllSilent(w)
  }

  predicate SilentPair(sin: int32, cos: int32) { 0 <= sin <= 1 && 0 <= cos <= 3 }

  predicate AllSilent(w: Words) {
    && SilentPair(w.w1, w.w0) && SilentPair(w.w3, w.w2)
    && SilentPair(w.w5, w.w4) && SilentPair(w.w7, w.w6)
  }

  lemma SilentPairIff(sin: int32, cos: int32)
    ensures IsSilent(Pair(sin, cos)) <==> SilentPair(sin, cos)
  {
  }

  /** The divisor of the positions is zero exactly for the atoms whose four electrodes are silent. */
  lemma DivisorIsZeroIff(w: Words)
    ensures Total(RawAmps(w)) >= 0 && (Total(RawAmps(w)) == 0 <==> AllSilent(w))
  {
    AmpIsZeroIff(Pair(w.w1, w.w0));
    AmpIsZeroIff(Pair(w.w3, w.w2));
    AmpIsZeroIff(Pair(w.w5, w.w4));
    AmpIsZeroIff(Pair(w.w7, w.w6));
    SilentPairIff(w.w1, w.w0);
    SilentPairIff(w.w3, w.w2);
    SilentPairIff(w.w5, w.w4);
    SilentPairIff(w.w7, w.w6);
  }

  /** Two such atoms: no signal at all, and one with only low bits set. */
  lemma ZeroDivisors(w: Words)
    requires w == Words(0, 0, 0, 0, 0, 0, 0, 0) || w == Words(3, 1, 0, 0, 2, 0, 1, 1)
    ensures Total(RawAmps(w)) == 0
  {
    DivisorIsZeroIff(w);
  }

  lemma RawAmpsAreValid(w: Words)
    requires ValidRaw(w)
    ensures ValidAmps(RawAmps(w))
  {
    AmpFits(Pair(w.w1, w.w0));
    AmpFits(Pair(w.w3, w.w2));
    AmpFits(Pair(w.w5, w.w4));
    AmpFits(Pair(w.w7, w.w6));
    DivisorIsZeroIff(w);
  }

  lemma AmpFits(v: Vec)
    requires Energy(v) <= SAFE_ENERGY
    ensures 0 <= Amp(v) < 0x8000_0000 && Rotated(v, MAX_LEVEL + 1).i < INT_RANGE
  {
    EnergyDecidesRange(v);
    Grows(v, 0, MAX_LEVEL + 1);
  }

  /** r is the length of (x, y), in the sense of `AmpIsMagnitude`. */
  ghost predicate IsLength(r: int, x: int, y: int) {
    var e, s := x * x + y * y, Abs(x) + Abs(y);
    && 0 <= r
    && 10_000_000_000 * (r * r) <= 10_000_000_001 * e + 10_000_000_000 * (17 * s + 180)
    && 0x40_0000 * e <= 0x40_0001 * (r * r) + 0x40_0000 * (21 * s + 250)
  }

  /** Each amplitude is the length of its own pair of halved raw words. */
  lemma AmplitudesAreLengths(w: Words)
    ensures var v := RawAmps(w);
            && IsLength(v.a, w.w0 as int / 2, w.w1 as int / 2) && IsLength(v.b, w.w2 as int / 2, w.w3 as int / 2)
            && IsLength(v.c, w.w4 as int / 2, w.w5 as int / 2) && IsLength(v.d, w.w6 as int / 2, w.w7 as int / 2)
  {
    AmpIsLength(Pair(w.w1, w.w0));
    AmpIsLength(Pair(w.w3, w.w2));
    AmpIsLength(Pair(w.w5, w.w4));
    AmpIsLength(Pair(w.w7, w.w6));
  }

  lemma AmpIsLength(v: Vec)
    ensures IsLength(Amp(v), v.q, v.i)
  {
    AmpIsMagnitude(v);
  }

  predicate AllSilentBut(w: Words, electrode: nat) {
    && (electrode != 0 ==> SilentPair(w.w1, w.w0)) && (electrode != 1 ==> SilentPair(w.w3, w.w2))
    && (electrode != 2 ==> SilentPair(w.w5, w.w4)) && (electrode != 3 ==> SilentPair(w.w7, w.w6))
  }

  /** With silence on three electrodes the amplitudes are those of the fourth alone. */
  lemma OneAmplitude(w: Words, electrode: nat) returns (n: nat)
    requires ValidRaw(w) && electrode < 4 && AllSilentBut(w, electrode)
    ensures 0 < n < 0x8000_0000
    ensures RawAmps(w) == if electrode == 0 then Amps(n, 0, 0, 0) else if electrode == 1 then Amps(0, n, 0, 0)
                          else if electrode == 2 then Amps(0, 0, n, 0) else Amps(0, 0, 0, n)
  {
    RawAmpsAreValid(w);
    SilentIsZero(w.w1, w.w0);
    SilentIsZero(w.w3, w.w2);
    SilentIsZero(w.w5, w.w4);
    SilentIsZero(w.w7, w.w6);
    n := Total(RawAmps(w));
  }

  /** A signal on the raw words of one electrode, and silence on the others, puts the beam at its
      corner. */
  lemma SignalOnOne(c: Cache, w: Words, electrode: nat) returns (n: nat)
    requires ValidCache(c) && ValidRaw(w) && electrode < 4 && AllSilentBut(w, electrode)
    ensures 0 < n < 0x8000_0000
    ensures Plain(c, w) == Corner(c, n, electrode, if electrode in {0, 3} then 1 else -1,
                                  if electrode in {0, 1} then 1 else -1, if electrode in {0, 2} then 1 else -1)
  {
    n := OneAmplitude(w, electrode);
    Corners(c, n);
  }

  lemma SilentIsZero(sin: int32, cos: int32)
    ensures SilentPair(sin, cos) ==> Amp(Pair(sin, cos)) == 0
  {
    SilentPairIff(sin, cos);
    AmpIsZeroIff(Pair(sin, cos));
  }

  function Plain(c: Cache, w: Words): Words
    requires ValidCache(c) && ValidRaw(w)
  {
    RawAmpsAreValid(w);
    Position(c, RawAmps(w))
  }

  // ---- The program -----------------------------------------------------------------------

  method Coordinate(x: int, k: int, s: int, offset: int) returns (r: int32)
    requires s > 0 && -0x8000_0000 <= TruncDiv(x * k, s) - offset < 0x8000_0000
    ensures r as int == TruncDiv(x * k, s) - offset
  {
    var product := x * k;
    var quotient := if product >= 0 then product / s else -((-product) / s);
    r := (quotient - offset) as int32;
  }

  /** The magnitude of one electrode's raw words. */
  method Magnitude(sin: int32, cos: int32) returns (r: int32)
    requires Energy(Pair(sin, cos)) <= SAFE_ENERGY
    ensures r as int == Amp(Pair(sin, cos))
  {
    AmpFits(Pair(sin, cos));
    var a := CordicAmp((sin as int / 2) as int32, (cos as int / 2) as int32);
    r := a.r;
  }

  /** First half: each amplitude is stored over words that later amplitudes no longer need. */
  method StoreAmplitudes(mem: array<Words>, k: nat) returns (a: int, b: int, c: int, d: int)
    requires k < mem.Length && ValidRaw(mem[k])
    modifies mem
    ensures Amps(a, b, c, d) == RawAmps(old(mem[k])) && ValidAmps(Amps(a, b, c, d))
    ensures mem[k] == old(mem[k]).(w0 := a as int32, w1 := b as int32, w2 := c as int32, w3 := d as int32)
    ensures forall j :: 0 <= j < mem.Length && j != k ==> mem[j] == old(mem[j])
  {
    RawAmpsAreValid(mem[k]);
    var va := Magnitude(mem[k].w1, mem[k].w0);
    mem[k] := mem[k].(w0 := va);
    var vb := Magnitude(mem[k].w3, mem[k].w2);
    mem[k] := mem[k].(w1 := vb);
    var vc := Magnitude(mem[k].w5, mem[k].w4);
    mem[k] := mem[k].(w2 := vc);
    var vd := Magnitude(mem[k].w7, mem[k].w6);
    mem[k] := mem[k].(w3 := vd);
    a, b, c, d := va as int, vb as int, vc as int, vd as int;
  }

  /** Second half: the coordinates and the sum, behind the stored amplitudes. */
  method StorePosition(mem: array<Words>, k: nat, c: Cache, a: int, b: int, cc: int, d: int)
    requires k < mem.Length && ValidCache(c) && ValidAmps(Amps(a, b, cc, d))
    requires mem[k].w0 as int == a && mem[k].w1 as int == b && mem[k].w2 as int == cc && mem[k].w3 as int == d
    modifies mem
    ensures mem[k] == Position(c, Amps(a, b, cc, d))
    ensures forall j :: 0 <= j < mem.Length && j != k ==> mem[j] == old(mem[j])
  {
    PositionFits(c, Amps(a, b, cc, d));
    var s := a + b + cc + d;
    var x := Coordinate(a + d - b - cc, c.kx, s, c.xOffset);
    mem[k] := mem[k].(w4 := x);
    var y := Coordinate(a + b - cc - d, c.ky, s, c.yOffset);
    mem[k] := mem[k].(w5 := y);
    var q := Coordinate(a + cc - b - d, c.kx, s, c.qOffset);
    mem[k] := mem[k].(w6 := q);
    mem[k] := mem[k].(w7 := (s / 4) as int32);
  }

  /** Transforms atom k in place. */
  method TransformSingle(mem: array<Words>, k: nat, c: Cache)
    requires k < mem.Length && ValidCache(c) && ValidRaw(mem[k])
    modifies mem
    ensures mem[k] == Plain(c, old(mem[k]))
    ensures forall j :: 0 <= j < mem.Length && j != k ==> mem[j] == old(mem[j])
  {
    var va, vb, vc, vd := StoreAmplitudes(mem, k);
    StorePosition(mem, k, c, va, vb, vc, vd);
  }

  /** The in-place loop equals the map of `Plain` over the original buffer. */
  method TransformDd(mem: array<Words>, c: Cache, count: nat)
    requires count <= mem.Length && ValidCache(c)
    requires forall k :: 0 <= k < count ==> ValidRaw(mem[k])
    modifies mem
    ensures forall k :: 0 <= k < count ==> mem[k] == Plain(c, old(mem[k]))
    ensures mem[count..] == old(mem[count..])
  {
    for i := 0 to count
      invariant forall k :: 0 <= k < i ==> mem[k] == Plain(c, old(mem[k]))
      invariant forall k :: i <= k < mem.Length ==> mem[k] == old(mem[k])
    {
      TransformSingle(mem, i, c);
    }
  }
}
