/** When spike removal stays inside its buffer, never divides by zero and ends.  Indices are unsigned
    32-bit numbers, as in the program. */
module SpikeSafety {
  import opened Arithmetic
  import opened Cordic
  import opened Wrapping

  datatype Params = Params(averagingStop: int, averageWindow: int, start: int, window: int)

  const MAX_ATOMS := 0x800_0000  // atoms of 32 bytes in the address space

  /** The ranges the validators let pass; the averaging window may be any integer. */
  predicate Validated(p: Params) {
    && -16 <= p.averagingStop <= 15 && -16 <= p.start <= 15 && 0 <= p.window <= 127
    && 0 <= p.averageWindow < 0x8000_0000
  }

  // ---- The first edge --------------------------------------------------------------------

  /** Distance from an edge to the averaging interval of its spike. */
  function Lead(p: Params): int { p.start + p.averagingStop - p.averageWindow + 1 }

  /** First edge the program accepts. */
  function FirstEdge(p: Params): int { U32(-Lead(p)) }

  /** The edge after k turns of the loop that looks for it. */
  function EdgeAt(eb: nat, period: nat, k: nat): int { U32(eb + k * period) }

  ghost predicate StopsAt(p: Params, eb: nat, period: nat, k: nat) {
    && EdgeAt(eb, period, k) >= FirstEdge(p)
    && forall j: nat :: j < k ==> EdgeAt(eb, period, j) < FirstEdge(p)
  }

  ghost predicate Ends(p: Params, eb: nat, period: nat) {
    exists k: nat :: EdgeAt(eb, period, k) >= FirstEdge(p)
  }

  lemma NextEdge(eb: nat, period: nat, k: nat)
    ensures EdgeAt(eb, period, k + 1) == U32(EdgeAt(eb, period, k) + period)
  {
    Distribute(period, k, 1);
    assert (k + 1) * period == k * period + period;
    U32Add(eb + k * period, period);
  }

  lemma {:induction false} FirstStop(p: Params, eb: nat, period: nat, k: nat) returns (first: nat)
    requires EdgeAt(eb, period, k) >= FirstEdge(p)
    ensures StopsAt(p, eb, period, first)
  {
    if j: nat :| j < k && EdgeAt(eb, period, j) >= FirstEdge(p) {
      first := FirstStop(p, eb, period, j);
    } else {
      first := k;
    }
  }

  /** Exponent of the largest power of two that divides x. */
  function Twos(x: nat): nat
    requires x > 0
  {
    if x % 2 == 1 then 0 else 1 + Twos(x / 2)
  }

  /** Without a lead past the edge the loop just counts up; with one it waits for the index to wrap
      around just below 2^32, where only every g-th number can be hit, g being the largest power of
      two in the period. */
  predicate EndsByNumbers(p: Params, eb: nat, period: nat)
    requires period > 0
  {
    var g := Pow2(Twos(period));
    Lead(p) <= 0 || g - eb % g <= Lead(p)
  }

  lemma {:induction false} TwosSplit(x: nat) returns (m: nat)
    requires x > 0
    ensures x == Pow2(Twos(x)) * m && m % 2 == 1
  {
    if x % 2 == 1 {
      m := x;
    } else {
      m := TwosSplit(x / 2);
      assert x == 2 * (x / 2);
      assert 2 * (Pow2(Twos(x / 2)) * m) == (2 * Pow2(Twos(x / 2))) * m;
    }
  }

  lemma {:induction false} Pow2Add(a: nat, b: nat)
    ensures Pow2(a + b) == Pow2(a) * Pow2(b)
  {
    if a == 0 {
    } else {
      Pow2Add(a - 1, b);
      assert 2 * (Pow2(a - 1) * Pow2(b)) == (2 * Pow2(a - 1)) * Pow2(b);
    }
  }

  /** Multiples of an odd number reach every residue of a power of two. */
  lemma {:induction false} OddReaches(m: nat, t: int, b: nat) returns (k: nat, c: int)
    requires m % 2 == 1
    ensures k * m == t + Pow2(b) * c
  {
    if b == 0 {
      k, c := 0, -t;
    } else {
      var p := Pow2(b - 1);
      k, c := OddReaches(m, t, b - 1);
      if c % 2 == 0 {
        Doubled(p, c, c / 2);
        c := c / 2;
      } else {
        assert (k + p) * m == k * m + p * m by { Distribute(m, k, p); }
        Distribute(p, c, m);
        Doubled(p, c + m, (c + m) / 2);
        k, c := k + p, (c + m) / 2;
      }
    }
  }

  lemma Doubled(p: int, c: int, half: int)
    requires c == 2 * half
    ensures p * c == (2 * p) * half
  {
    assert p * (2 * half) == (2 * p) * half;
  }

  lemma Pow2Of32()
    ensures Pow2(32) == WORD_RANGE
  {
    Powers();
    Pow2Add(11, 11);
    Pow2Add(22, 10);
  }

  /** The power of two in a period divides 2^32. */
  lemma PowerDivides(period: nat) returns (m: nat, b: nat)
    requires 0 < period < MAX_ATOMS
    ensures period == Pow2(Twos(period)) * m && m % 2 == 1
    ensures WORD_RANGE == Pow2(Twos(period)) * Pow2(b)
  {
    m := TwosSplit(period);
    var a := Twos(period);
    MulLess(Pow2(a), 1, m);
    if a >= 32 {
      Pow2Add(32, a - 32);
      Pow2Of32();
      MulLess(Pow2(32), 1, Pow2(a - 32));
    }
    b := 32 - a;
    Pow2Add(a, b);
    Pow2Of32();
  }

  lemma FirstEdgeIs(p: Params)
    requires Validated(p)
    ensures FirstEdge(p) == if Lead(p) <= 0 then -Lead(p) else WORD_RANGE - Lead(p)
    ensures -0x8000_0040 < Lead(p) <= 31
  {
  }

  /** Counting up in steps of the period passes any bound by less than a period. */
  lemma StepsPast(first: nat, eb: nat, period: nat) returns (k: nat)
    requires period > 0 && eb < first
    ensures first <= eb + k * period < first + period
  {
    var last, rest := LastRound(first - eb + period - 1, period);
    k := last;
  }

  lemma EndsPlain(p: Params, eb: nat, period: nat)
    requires Validated(p) && Lead(p) <= 0 && eb < MAX_ATOMS && 0 < period < MAX_ATOMS
    ensures Ends(p, eb, period)
  {
    FirstEdgeIs(p);
    var first, k := -Lead(p), 0;
    if eb < first { k := StepsPast(first, eb, period); } else { assert 0 * period == 0; }
    U32Is(eb + k * period, 0, eb + k * period);
    assert EdgeAt(eb, period, k) >= FirstEdge(p);
  }

  /** The search hits the number g - r below 2^32. */
  lemma HitBelow(g: int, pb: int, q: int, r: int, km: int, c: int)
    requires km == pb - 1 - q + pb * c
    ensures g * q + r + g * km == g * pb * c + (g * pb - (g - r))
  {
    Distribute(g, pb - 1 - q, pb * c);
    Distribute(g, pb - 1, q);
    Distribute(g, pb, 1);
    assert g * (pb * c) == g * pb * c;
  }

  lemma ReachBelow(g: nat, m: nat, b: nat, eb: nat) returns (k: nat, c: int)
    requires g > 0 && m % 2 == 1 && WORD_RANGE == g * Pow2(b)
    ensures eb + k * (g * m) == WORD_RANGE * c + (WORD_RANGE - (g - eb % g))
  {
    var q, r := eb / g, eb % g;
    assert eb == g * q + r;
    k, c := OddReaches(m, Pow2(b) - 1 - q, b);
    Regroup(k, g, m);
    assert k * (g * m) == g * (k * m);
    HitBelow(g, Pow2(b), q, r, k * m, c);
  }

  lemma EndsAround(p: Params, eb: nat, period: nat)
    requires Validated(p) && Lead(p) > 0 && 0 < period < MAX_ATOMS && EndsByNumbers(p, eb, period)
    ensures Ends(p, eb, period)
  {
    FirstEdgeIs(p);
    var m, b := PowerDivides(period);
    var g := Pow2(Twos(period));
    PowerAtMost(period, m);
    var k, c := ReachBelow(g, m, b, eb);
    U32Is(eb + k * period, c, WORD_RANGE - (g - eb % g));
    assert EdgeAt(eb, period, k) >= FirstEdge(p);
  }

  lemma PowerAtMost(period: nat, m: nat)
    requires period > 0 && period == Pow2(Twos(period)) * m
    ensures Pow2(Twos(period)) <= period
  {
    MulSign(Pow2(Twos(period)), m);
  }

  lemma StopsAtOnce(p: Params, eb: nat, period: nat)
    requires FirstEdge(p) <= eb < WORD_RANGE
    ensures EdgeAt(eb, period, 0) == eb && StopsAt(p, eb, period, 0)
  {
    assert 0 * period == 0;
    U32Is(eb, 0, eb);
  }

  /** What the search hits lies a multiple of g above the first edge's residue. */
  lemma HitResidue(g: int, pb: int, q: int, r: int, km: int, c: int, x: int)
    requires g * q + r + g * km == g * pb * c + x
    ensures g * pb - x + r == g * (pb + pb * c - km - q)
  {
    Distribute(g, pb + pb * c - km, q);
    Distribute(g, pb + pb * c, km);
    Distribute(g, pb, pb * c);
    assert g * (pb * c) == g * pb * c;
  }

  lemma HitsOnly(g: nat, m: nat, pb: nat, eb: nat, k: nat, c: int, x: int)
    requires g > 0 && WORD_RANGE == g * pb && eb + k * (g * m) == WORD_RANGE * c + x && x < WORD_RANGE
    ensures WORD_RANGE - x >= g - eb % g
  {
    var q, r := eb / g, eb % g;
    assert eb == g * q + r;
    Regroup(k, g, m);
    assert k * (g * m) == g * (k * m);
    HitResidue(g, pb, q, r, k * m, c, x);
    MulSign(g, pb + pb * c - k * m - q);
  }

  lemma OnlyAround(p: Params, eb: nat, period: nat, k: nat)
    requires Validated(p) && Lead(p) > 0 && 0 < period < MAX_ATOMS
    requires EdgeAt(eb, period, k) >= FirstEdge(p)
    ensures EndsByNumbers(p, eb, period)
  {
    FirstEdgeIs(p);
    var m, b := PowerDivides(period);
    var y := eb + k * period;
    HitsOnly(Pow2(Twos(period)), m, Pow2(b), eb, k, y / WORD_RANGE, EdgeAt(eb, period, k));
  }

  /** The search for the first edge ends exactly under the condition on the numbers. */
  lemma EndsIff(p: Params, eb: nat, period: nat)
    requires Validated(p) && eb < MAX_ATOMS && 0 < period < MAX_ATOMS
    ensures Ends(p, eb, period) <==> EndsByNumbers(p, eb, period)
  {
    if Lead(p) <= 0 {
      EndsPlain(p, eb, period);
    } else {
      if EndsByNumbers(p, eb, period) { EndsAround(p, eb, period); }
      if k: nat :| EdgeAt(eb, period, k) >= FirstEdge(p) { OnlyAround(p, eb, period, k); }
    }
  }

  /** Without a lead past the edge the search finds the first spike with room for averaging. */
  lemma {:induction false} EdgeIsNatural(p: Params, eb: nat, period: nat, k: nat, j: nat)
    requires Validated(p) && Lead(p) <= 0 && eb < MAX_ATOMS && 0 < period < MAX_ATOMS
    requires StopsAt(p, eb, period, k) && j <= k
    ensures EdgeAt(eb, period, j) == eb + j * period
  {
    FirstEdgeIs(p);
    if j == 0 {
      assert 0 * period == 0;
      U32Is(eb, 0, eb);
    } else {
      EdgeIsNatural(p, eb, period, k, j - 1);
      var before := eb + (j - 1) * period;
      assert before < FirstEdge(p);
      assert j * period == (j - 1) * period + period by { Distribute(period, j, 1); }
      U32Is(before + period, 0, before + period);
    }
  }

  // ---- Hold windows ----------------------------------------------------------------------

  /** Distance from the start of an averaging interval to the start of its hold window. */
  function Gap(p: Params): int { p.averageWindow - 1 - p.averagingStop }

  /** Start of the averaging interval that belongs to the hold window at hs. */
  function AveStart(p: Params, hs: int): int { hs - Gap(p) }

  /** Start of the first hold window, for the edge the search ended at; a negative one stands for an
      index that wrapped past the end of every buffer. */
  function HoldStart(p: Params, edge: int): int { edge - FirstEdge(p) + Gap(p) }

  function RoundStart(hs: int, period: int, j: nat): int { hs + j * period }

  /** A round over the hold window at hs divides by an empty sum or reads outside n atoms. */
  predicate RoundFaults(p: Params, n: nat, hs: int) {
    p.averageWindow == 0 || !(0 <= AveStart(p, hs) < n)
  }

  /** No round of the loop over the hold windows faults. */
  ghost predicate RoundsSafe(p: Params, n: nat, period: nat, hs: int) {
    hs >= 0 ==> forall j: nat {:trigger RoundStart(hs, period, j)} ::
                  RoundStart(hs, period, j) < n ==> !RoundFaults(p, n, RoundStart(hs, period, j))
  }

  /** The same in numbers: some round is entered only with something to average, and if averaging
      starts behind the start of the window, the last window is as far from the end. */
  predicate RoundsSafeByNumbers(p: Params, n: nat, period: nat, hs: int)
    requires period > 0
  {
    0 <= hs < n ==> p.averageWindow >= 1 && (Gap(p) >= 0 || (n - 1 - hs) % period >= -Gap(p))
  }

  lemma RoundsSafeIff(p: Params, n: nat, period: nat, hs: int)
    requires Validated(p) && period > 0 && 0 <= AveStart(p, hs)
    ensures RoundsSafe(p, n, period, hs) <==> RoundsSafeByNumbers(p, n, period, hs)
  {
    if 0 <= hs < n {
      var last, rest := LastRound(n - 1 - hs, period);
      assert rest == (n - 1 - hs) % period;
      assert RoundStart(hs, period, last) == n - 1 - rest;
      if RoundsSafeByNumbers(p, n, period, hs) {
        forall j: nat {:trigger RoundStart(hs, period, j)} | RoundStart(hs, period, j) < n
          ensures !RoundFaults(p, n, RoundStart(hs, period, j))
        {
          RoundIsInside(p, n, period, hs, j, last, rest);
        }
      }
    } else if hs >= n {
      forall j: nat ensures RoundStart(hs, period, j) >= n { assert j * period >= 0; }
    }
  }

  lemma LastRound(x: nat, period: nat) returns (last: nat, rest: nat)
    requires period > 0
    ensures x == period * last + rest && rest == x % period && rest < period
    ensures last * period == period * last
  {
    MulLess(x, 1, period);
    assert period * x == x * period;
    QuotientBound(x, period, x);
    last, rest := x / period, x % period;
  }

  lemma RoundIsInside(p: Params, n: nat, period: nat, hs: int, j: nat, last: nat, rest: nat)
    requires 0 <= AveStart(p, hs) && n - 1 - hs == period * last + rest && period > rest
    requires RoundStart(hs, period, j) < n && (Gap(p) >= 0 || rest >= -Gap(p))
    ensures 0 <= AveStart(p, RoundStart(hs, period, j)) < n
  {
    assert j * period == period * j >= 0;
    if j > last {
      MulLess(period, last + 1, j);
      Distribute(period, last, 1);
    }
    if j <= last { MulLess(period, j, last); }
  }

  // ---- The whole pass --------------------------------------------------------------------

  /** With its first two edges at eb and eb + period, the pass over n atoms ends, stays inside them
      and never divides by an empty sum. */
  ghost predicate WellBehaved(p: Params, n: nat, eb: nat, period: nat) {
    exists k: nat :: StopsAt(p, eb, period, k) && RoundsSafe(p, n, period, HoldStart(p, EdgeAt(eb, period, k)))
  }

  lemma StopIsUnique(p: Params, eb: nat, period: nat, k: nat, k': nat)
    requires StopsAt(p, eb, period, k) && StopsAt(p, eb, period, k')
    ensures k == k'
  {
  }

  /** Exactly when: the search ends, and the rounds are safe from the edge it ends at. */
  lemma WellBehavedIff(p: Params, n: nat, eb: nat, period: nat)
    requires Validated(p) && eb < MAX_ATOMS && 0 < period < MAX_ATOMS
    ensures WellBehaved(p, n, eb, period)
            <==> EndsByNumbers(p, eb, period)
                 && forall k: nat {:trigger StopsAt(p, eb, period, k)} :: StopsAt(p, eb, period, k) ==>
                      RoundsSafeByNumbers(p, n, period, HoldStart(p, EdgeAt(eb, period, k)))
  {
    EndsIff(p, eb, period);
    if k: nat :| EdgeAt(eb, period, k) >= FirstEdge(p) {
      var first := FirstStop(p, eb, period, k);
      RoundsSafeIff(p, n, period, HoldStart(p, EdgeAt(eb, period, first)));
      forall k': nat | StopsAt(p, eb, period, k') ensures k' == first {
        StopIsUnique(p, eb, period, k', first);
      }
    }
  }

  /** The parameters that are safe for all data: something to average, averaging that starts no
      later than the window it is for, and no lead past the edge. */
  predicate Usable(p: Params) {
    p.averageWindow >= 1 && p.averagingStop < p.averageWindow && Lead(p) <= 0
  }

  lemma UsableIsWellBehaved(p: Params, n: nat, eb: nat, period: nat)
    requires Validated(p) && Usable(p) && eb < MAX_ATOMS && 0 < period < MAX_ATOMS
    ensures WellBehaved(p, n, eb, period)
  {
    WellBehavedIff(p, n, eb, period);
  }

  /** Both edges early in 200 atoms. */
  lemma EarlyEdges(p: Params)
    requires Validated(p) && Lead(p) <= 0 && p.averageWindow <= 16
    ensures StopsAt(p, 64, 1, 0) && HoldStart(p, EdgeAt(64, 1, 0)) == 64 + p.start
  {
    FirstEdgeIs(p);
    StopsAtOnce(p, 64, 1);
  }

  /** Nothing to average: the first window divides by zero. */
  lemma EmptyWindowFaults(p: Params)
    requires Validated(p) && p.averageWindow == 0 && Lead(p) <= 0
    ensures !WellBehaved(p, 200, 64, 1)
  {
    EarlyEdges(p);
    WellBehavedIff(p, 200, 64, 1);
  }

  /** Averaging that starts behind the start of its window: the last window reads outside. */
  lemma LateAveragingFaults(p: Params)
    requires Validated(p) && 1 <= p.averageWindow <= p.averagingStop && Lead(p) <= 0
    ensures !WellBehaved(p, 200, 64, 1)
  {
    EarlyEdges(p);
    WellBehavedIff(p, 200, 64, 1);
  }

  /** A lead past the edge: with edges at 32 and 64 the search never ends. */
  lemma PositiveLeadHangs(p: Params)
    requires Validated(p) && Lead(p) > 0
    ensures !Ends(p, 32, 32) && !WellBehaved(p, 65, 32, 32)
  {
    FirstEdgeIs(p);
    Powers();
    assert Twos(32) == 5;
    EndsIff(p, 32, 32);
    WellBehavedIff(p, 65, 32, 32);
  }

  /** And where the search does end after wrapping around, it may end between the spikes: with edges
      at 1, 4, 7, ... windows that should start two samples later start at 1, 4, 7 themselves. */
  lemma PositiveLeadMisplaces(p: Params)
    requires p.averagingStop == 0 && p.averageWindow == 1 && p.start == 2 && 0 <= p.window <= 127
    ensures Lead(p) == 2 && StopsAt(p, 1, 3, 2863311530)
    ensures HoldStart(p, EdgeAt(1, 3, 2863311530)) == 1
  {
    FirstEdgeIs(p);
    forall j: nat | j < 2863311530 ensures EdgeAt(1, 3, j) < FirstEdge(p) {
      if j <= 1431655764 {
        ModUnique(1 + j * 3, WORD_RANGE, 0, 1 + j * 3);
      } else {
        ModUnique(1 + j * 3, WORD_RANGE, 1, 1 + j * 3 - WORD_RANGE);
      }
    }
  }

  /** For an empty read both edges are at 1 and the period is zero: past that the search hangs. */
  lemma EmptyReadHangs(p: Params)
    requires Validated(p)
    ensures Ends(p, 1, 0) <==> FirstEdge(p) <= 1
  {
    forall k: nat ensures EdgeAt(1, 0, k) == 1 { assert k * 0 == 0; }
    if FirstEdge(p) <= 1 { assert EdgeAt(1, 0, 0) >= FirstEdge(p); }
  }
}
