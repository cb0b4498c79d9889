/** Removal of switching spikes from transformed history-buffer data.  The trigger bit is the
    lowest bit of cosVa in the raw atoms; input and output share one buffer. */
module Spikes {
  import opened Arithmetic
  import opened Cordic
  import opened SpikeSafety
  import opened Transform
  import opened Wrapping

  // ---- Parameter validation --------------------------------------------------------------

  /** Zero and the single bits up to 16. */
  method IsValidAverageWindow(param: int) returns (ok: bool)
    requires 0 <= param < WORD_RANGE
    ensures ok <==> param in {0, 1, 2, 4, 8, 16}
  {
    if param > 16 {
      return false;
    }
    var val := param % 32;
    ghost var shift := 0;
    while val % 2 == 0 && val != 0
      invariant 0 <= val && 0 <= shift <= 5 && param == val * Pow2(shift)
      decreases val
    {
      val := val / 2;
      shift := shift + 1;
      assert Pow2(shift) == 2 * Pow2(shift - 1);
      SmallShift(val, shift, param);
    }
    ok := val / 2 == 0;
    SmallShift(val, shift, param);
  }

  lemma SmallShift(val: int, shift: nat, param: int)
    requires 0 <= val && param == val * Pow2(shift) && param <= 16 && shift <= 6
    ensures val > 0 ==> shift <= 4
    ensures (param in {0, 1, 2, 4, 8, 16}) <==> (exists k | 0 <= k <= 4 :: val * Pow2(shift) == Pow2(k)) || val == 0
  {
    Powers();
    if val > 0 && shift >= 5 {
      MulLess(Pow2(shift), 1, val);
    }
    assert Pow2(0) == 1 && Pow2(1) == 2 && Pow2(2) == 4 && Pow2(3) == 8 && Pow2(4) == 16;
  }

  // ---- Edges -----------------------------------------------------------------------------

  function Bit(w: Words): int { w.w0 as int % 2 }

  ghost predicate Steady(raw: seq<Words>, from: nat, to: nat)
    requires from < to <= |raw|
  {
    forall j :: from <= j < to ==> Bit(raw[j]) == Bit(raw[from])
  }

  /** `at` is the first index after `from` where the trigger bit differs. */
  ghost predicate FirstChange(raw: seq<Words>, from: nat, at: nat) {
    from < at < |raw| && Bit(raw[at]) != Bit(raw[from]) && Steady(raw, from, at)
  }

  /** The trigger bit rides on the lowest bit of the first raw word: no other word carries it, and it does
      not disturb the transform. */
  lemma TriggerBitIsSilent(c: Cache, w: Words, u: Words)
    requires ValidCache(c) && ValidRaw(w) && w.w0 as int % 2 == 0
    requires u == w.(w0 := (w.w0 as int + 1) as int32)
    ensures Bit(w) == 0 && Bit(u) == 1 && ValidRaw(u) && Plain(c, u) == Plain(c, w)
  {
    assert Pair(u.w1, u.w0) == Pair(w.w1, w.w0);
    SilentPairIff(u.w1, u.w0);
    SilentPairIff(w.w1, w.w0);
  }

  ghost predicate IsPow2(x: int) { exists k: nat :: x == Pow2(k) }

  // ---- Hold windows ----------------------------------------------------------------------

  /** Last index of the hold window that starts at hs; the unsigned stop index wraps when an
      empty window starts at 0. */
  function HoldLast(p: Params, n: int, hs: int): int {
    var stop := (hs + p.window - 1) % WORD_RANGE;
    var last := if stop < n then stop else n - 1;
    if last < hs then hs else last
  }

  function Hold(sigma: seq<nat>, lo: int, hi: int, x: nat): (r: seq<nat>)
    ensures |r| == |sigma|
  {
    seq(|sigma|, i requires 0 <= i < |sigma| => if lo <= i <= hi then x else sigma[i])
  }

  ghost predicate Indices(sigma: seq<nat>) {
    forall i :: 0 <= i < |sigma| ==> sigma[i] < |sigma|
  }

  /** Rounds from the hold window at hs on, each safe. */
  predicate Rounds(p: Params, n: nat, period: int, hs: int) {
    period > 0 && 0 <= AveStart(p, hs) && RoundsSafeByNumbers(p, n, period, hs)
  }

  lemma RoundsStep(p: Params, n: nat, period: int, hs: int)
    requires Rounds(p, n, period, hs) && 0 <= hs < n
    ensures AveStart(p, hs) < n && Rounds(p, n, period, hs + period)
  {
    var last, rest := LastRound(n - 1 - hs, period);
    if hs + period < n {
      Distribute(period, last, 1);
      ModUnique(n - 1 - hs - period, period, last - 1, rest);
    }
    assert period * last >= 0;
  }

  /** Where each output atom comes from, window after window; a window that starts before the buffer
      stands for an index that wrapped past its end. */
  function Source(p: Params, period: int, hs: int, sigma: seq<nat>): (r: seq<nat>)
    requires Rounds(p, |sigma|, period, hs)
    ensures |r| == |sigma|
    decreases |sigma| - hs
  {
    if hs < 0 || hs >= |sigma| then sigma
    else
      RoundsStep(p, |sigma|, period, hs);
      Source(p, period, hs + period, HoldNext(p, hs, sigma))
  }

  /** The effect of one hold window. */
  function HoldNext(p: Params, hs: int, sigma: seq<nat>): (r: seq<nat>)
    requires 0 <= AveStart(p, hs) < |sigma| && 0 <= hs < |sigma|
    ensures |r| == |sigma|
  {
    Hold(sigma, hs, HoldLast(p, |sigma|, hs), sigma[AveStart(p, hs)])
  }

  lemma SourceStep(p: Params, period: int, hs: int, sigma: seq<nat>)
    requires Rounds(p, |sigma|, period, hs) && 0 <= hs < |sigma|
    ensures 0 <= AveStart(p, hs) < |sigma| && Rounds(p, |sigma|, period, hs + period)
    ensures Source(p, period, hs, sigma) == Source(p, period, hs + period, HoldNext(p, hs, sigma))
  {
    RoundsStep(p, |sigma|, period, hs);
  }

  function Identity(n: nat): seq<nat> { seq(n, i => i) }

  // ---- The program -----------------------------------------------------------------------

  /** An odd number times a power of two is a power of two only if it is 1. */
  lemma {:induction false} OddFactor(i: int, s: nat, k: nat)
    requires i > 0 && i % 2 == 1 && i * Pow2(s) == Pow2(k)
    ensures i == 1
  {
    if s == 0 {
    } else {
      assert i * Pow2(s) == 2 * (i * Pow2(s - 1));
      if k > 0 {
        OddFactor(i, s - 1, k - 1);
      }
    }
  }

  /** Decides whether the window is zero or a power of two, and which. */
  method CountShifts(averageWindow: int) returns (shifts: nat, ok: bool)
    requires 0 <= averageWindow < WORD_RANGE
    ensures ok <==> averageWindow == 0 || IsPow2(averageWindow)
    ensures ok ==> averageWindow == (if shifts == 64 then 0 else Pow2(shifts))
  {
    var i := averageWindow;
    shifts := 0;
    while i % 2 == 0 && shifts < 64
      invariant 0 <= i && 0 <= shifts <= 64 && averageWindow == i * Pow2(shifts)
      decreases 64 - shifts
    {
      HalfStep(i / 2, shifts);
      i := i / 2;
      shifts := shifts + 1;
    }
    ok := i / 2 == 0;
    ShiftsTell(averageWindow, i, shifts);
  }

  lemma ShiftsTell(averageWindow: int, i: int, shifts: nat)
    requires 0 <= averageWindow < WORD_RANGE && 0 <= i && averageWindow == i * Pow2(shifts)
    requires i % 2 == 1 || shifts == 64
    ensures i / 2 == 0 <==> averageWindow == 0 || IsPow2(averageWindow)
    ensures i / 2 == 0 ==> averageWindow == (if shifts == 64 then 0 else Pow2(shifts))
  {
    if shifts == 64 && i > 0 { TooBig(i, shifts); }
    if i > 0 && IsPow2(averageWindow) {
      var k: nat :| averageWindow == Pow2(k);
      OddFactor(i, shifts, k);
    }
  }

  lemma HalfStep(i: int, s: nat)
    ensures (2 * i) * Pow2(s) == i * Pow2(s + 1)
  {
    assert Pow2(s + 1) == 2 * Pow2(s);
    assert (2 * i) * Pow2(s) == i * (2 * Pow2(s));
  }

  lemma TooBig(i: int, s: nat)
    requires i >= 1 && s >= 32
    ensures i * Pow2(s) >= WORD_RANGE
  {
    BigPower(s);
    MulLess(Pow2(s), 1, i);
    assert Pow2(s) * i == i * Pow2(s);
  }

  lemma {:induction false} BigPower(n: nat)
    requires n >= 32
    ensures Pow2(n) >= WORD_RANGE
  {
    if n == 32 {
      Powers();
      assert Pow2(16) == 65536;
      assert Pow2(24) == 0x100_0000;
    } else {
      BigPower(n - 1);
    }
  }

  ghost predicate AllRaw(raw: seq<Words>) {
    forall k {:trigger ValidRaw(raw[k])} :: 0 <= k < |raw| ==> ValidRaw(raw[k])
  }

  /** The plain transform of every atom. */
  ghost function PlainAll(c: Cache, raw: seq<Words>): (r: seq<Words>)
    requires ValidCache(c) && AllRaw(raw)
    ensures |r| == |raw|
  {
    seq(|raw|, k requires 0 <= k < |raw| => Plain(c, raw[k]))
  }

  /** The first n atoms are transformed, the others still raw. */
  ghost predicate Progress(mem: seq<Words>, raw: seq<Words>, plain: seq<Words>, n: int)
    requires |raw| == |plain| && 0 <= n <= |raw|
  {
    mem == plain[..n] + raw[n..]
  }

  lemma StillRaw(mem: seq<Words>, raw: seq<Words>, plain: seq<Words>, i: int)
    requires |raw| == |plain| && 0 <= i < |raw| && Progress(mem, raw, plain, i)
    ensures |mem| == |raw| && mem[i] == raw[i]
  {
  }

  /** Transforms the next of the atoms that `raw` tells of; memory behind them is left alone. */
  method TransformNext(mem: array<Words>, c: Cache, i: nat, ghost raw: seq<Words>, ghost plain: seq<Words>)
    requires ValidCache(c) && AllRaw(raw) && plain == PlainAll(c, raw)
    requires i < |raw| <= mem.Length && Progress(mem[..|raw|], raw, plain, i)
    modifies mem
    ensures Progress(mem[..|raw|], raw, plain, i + 1)
    ensures mem[|raw|..] == old(mem[|raw|..])
  {
    assert mem[i] == mem[..|raw|][i] == raw[i];
    ghost var before := mem[..|raw|];
    TransformSingle(mem, i, c);
    assert mem[..|raw|] == before[i := plain[i]];
  }

  /** Transforms atoms from index i0 on while the trigger bit stays `tb`. */
  method TransformWhileSteady(mem: array<Words>, c: Cache, count: nat, from: nat, i0: nat, tb: int,
                              ghost raw: seq<Words>, ghost plain: seq<Words>) returns (i: nat)
    requires ValidCache(c) && AllRaw(raw) && plain == PlainAll(c, raw)
    requires count <= |raw| <= mem.Length && from <= i0 <= |raw| && from + 1 >= i0
    requires from < |raw| ==> tb == Bit(raw[from])
    requires Progress(mem[..|raw|], raw, plain, i0)
    modifies mem
    ensures i0 <= i <= |raw| && Progress(mem[..|raw|], raw, plain, i) && mem[|raw|..] == old(mem[|raw|..])
    ensures i0 >= count ==> i == i0
    ensures i0 < count ==> from < i <= count
    ensures from < i ==> Steady(raw, from, i)
    ensures i < count ==> FirstChange(raw, from, i)
  {
    i := i0;
    if i < |raw| { StillRaw(mem[..|raw|], raw, plain, i); }
    while i < count && Bit(mem[i]) == tb
      invariant i0 <= i && (i == i0 || i <= count) && i <= |raw|
      invariant Progress(mem[..|raw|], raw, plain, i) && mem[|raw|..] == old(mem[|raw|..])
      invariant forall k :: from <= k < i ==> Bit(raw[k]) == tb
      invariant i < |raw| ==> mem[i] == raw[i]
    {
      TransformNext(mem, c, i, raw, plain);
      i := i + 1;
      if i < |raw| { StillRaw(mem[..|raw|], raw, plain, i); }
    }
  }

  /** Sums each amplitude over the averaging interval.  The loop moves the input pointer and
      leaves `q` on the first atom of the interval, so that its end may lie past the buffer. */
  method AverageAmplitudes(mem: array<Words>, avestart: nat, avestop: nat, shifts: nat)
      returns (a: int, b: int, c: int, d: int)
    requires avestart < mem.Length && avestart <= avestop && avestop - avestart + 1 == Pow2(shifts)
    ensures a == mem[avestart].w0 as int && b == mem[avestart].w1 as int
    ensures c == mem[avestart].w2 as int && d == mem[avestart].w3 as int
  {
    a, b, c, d := 0, 0, 0, 0;
    var q := mem[avestart];
    var i := avestart;
    while i <= avestop
      invariant avestart <= i <= avestop + 1
      invariant a == (i - avestart) * q.w0 as int && b == (i - avestart) * q.w1 as int
      invariant c == (i - avestart) * q.w2 as int && d == (i - avestart) * q.w3 as int
    {
      a, b, c, d := a + q.w0 as int, b + q.w1 as int, c + q.w2 as int, d + q.w3 as int;
      i := i + 1;
    }
    ShrExact(q.w0 as int, shifts);
    ShrExact(q.w1 as int, shifts);
    ShrExact(q.w2 as int, shifts);
    ShrExact(q.w3 as int, shifts);
    a, b, c, d := Shr(a, shifts), Shr(b, shifts), Shr(c, shifts), Shr(d, shifts);
  }

  lemma ShrExact(x: int, n: nat)
    ensures Shr(Pow2(n) * x, n) == x
  {
    var p, y := Pow2(n), Shr(Pow2(n) * x, n);
    ShrBounds(p * x, n);
    if y < x {
      MulLess(p, y + 1, x);
      Distribute(p, y, 1);
    } else if y > x {
      MulLess(p, x + 1, y);
      Distribute(p, x, 1);
    }
  }

  /** Output atom k is atom sigma[k] of `plain`. */
  ghost predicate ComesFrom(out: seq<Words>, plain: seq<Words>, sigma: seq<nat>) {
    && |out| == |plain| == |sigma| && Indices(sigma)
    && forall k :: 0 <= k < |out| ==> out[k] == plain[sigma[k]]
  }

  function AmpsOf(w: Words): Amps { Amps(w.w0 as int, w.w1 as int, w.w2 as int, w.w3 as int) }

  /** The position of the atom belongs to its amplitudes. */
  ghost predicate Consistent(c: Cache, w: Words) {
    ValidCache(c) && ValidAmps(AmpsOf(w)) && Position(c, AmpsOf(w)) == w
  }

  ghost predicate AllConsistent(c: Cache, s: seq<Words>) {
    forall k {:trigger Consistent(c, s[k])} :: 0 <= k < |s| ==> Consistent(c, s[k])
  }

  lemma PlainConsistent(c: Cache, raw: seq<Words>)
    requires ValidCache(c) && AllRaw(raw)
    ensures AllConsistent(c, PlainAll(c, raw))
  {
    forall k | 0 <= k < |raw| ensures Consistent(c, PlainAll(c, raw)[k]) {
      RawAmpsAreValid(raw[k]);
      assert PlainAll(c, raw)[k] == Position(c, RawAmps(raw[k]));
    }
  }

  method PositionOf(c: Cache, a: int, b: int, cc: int, d: int) returns (w: Words)
    requires ValidCache(c) && ValidAmps(Amps(a, b, cc, d))
    ensures w == Position(c, Amps(a, b, cc, d))
  {
    PositionFits(c, Amps(a, b, cc, d));
    var s := a + b + cc + d;
    var x := Coordinate(a + d - b - cc, c.kx, s, c.xOffset);
    var y := Coordinate(a + b - cc - d, c.ky, s, c.yOffset);
    var q := Coordinate(a + cc - b - d, c.kx, s, c.qOffset);
    w := Words(a as int32, b as int32, cc as int32, d as int32, x, y, q, (s / 4) as int32);
  }

  method Fill(mem: array<Words>, lo: nat, last: int, held: Words)
    requires lo < mem.Length && last < mem.Length
    modifies mem
    ensures forall k :: 0 <= k < mem.Length ==>
              mem[k] == if k == lo || lo <= k <= last then held else old(mem[k])
  {
    mem[lo] := held;
    var i := lo + 1;
    while i <= last
      invariant lo < i && (i <= last + 1 || i == lo + 1)
      invariant forall k :: 0 <= k < mem.Length ==>
                  mem[k] == if lo <= k < i then held else old(mem[k])
    {
      mem[i] := held;
      i := i + 1;
    }
  }

  /** The four averages make up the atom at the start of the averaging interval. */
  method HeldAtom(mem: array<Words>, c: Cache, avestart: nat, avestop: nat, shifts: nat)
      returns (held: Words)
    requires avestart < mem.Length && avestart <= avestop && avestop - avestart + 1 == Pow2(shifts)
    requires Consistent(c, mem[avestart])
    ensures held == mem[avestart]
  {
    var a, b, cc, d := AverageAmplitudes(mem, avestart, avestop, shifts);
    held := PositionOf(c, a, b, cc, d);
  }

  /** Averages and overwrites one hold window. */
  method HoldWindow(mem: array<Words>, c: Cache, p: Params, shifts: nat,
                    avestart: nat, avestop: nat, holdstart: nat, holdstop: nat)
    requires p.averageWindow == Pow2(shifts) && holdstart < mem.Length
    requires avestart == AveStart(p, holdstart) < mem.Length && avestop == avestart + p.averageWindow - 1
    requires holdstop == U32(holdstart + p.window - 1)
    requires Consistent(c, mem[avestart])
    modifies mem
    ensures forall k :: 0 <= k < mem.Length ==>
              mem[k] == if holdstart <= k <= HoldLast(p, mem.Length, holdstart)
                        then old(mem[avestart]) else old(mem[k])
  {
    var held := HeldAtom(mem, c, avestart, avestop, shifts);
    var last := if holdstop < mem.Length then holdstop else mem.Length - 1;
    Fill(mem, holdstart, last, held);
  }

  lemma HoldComesFrom(before: seq<Words>, after: seq<Words>, plain: seq<Words>,
                      sigma: seq<nat>, lo: int, hi: int, x: nat)
    requires ComesFrom(before, plain, sigma) && x < |before| == |after|
    requires forall k :: 0 <= k < |after| ==> after[k] == if lo <= k <= hi then before[x] else before[k]
    ensures ComesFrom(after, plain, Hold(sigma, lo, hi, sigma[x]))
  {
  }

  /** The pass may be called: with the first two edges of the data at eb and ee, it is well behaved,
      unless the averaging window is rejected. */
  ghost predicate Behaves(p: Params, raw: seq<Words>)
    requires |raw| > 0
  {
    forall eb: nat, ee: nat :: FirstChange(raw, 0, eb) && FirstChange(raw, eb, ee) && Accepted(p) ==>
      WellBehaved(p, |raw|, eb, ee - eb)
  }

  ghost predicate Accepted(p: Params) { p.averageWindow == 0 || IsPow2(p.averageWindow) }

  /** hs is the first hold window of the spikes with the first edge at eb. */
  ghost predicate FirstHold(p: Params, n: nat, eb: nat, period: nat, hs: int) {
    Rounds(p, n, period, hs)
    && exists k: nat :: StopsAt(p, eb, period, k) && hs == HoldStart(p, EdgeAt(eb, period, k))
  }

  /** The result of the pass, given the plain transform of the input: `eb` and `ee` are the first
      two changes of the trigger bit, `hs` the first hold window. */
  ghost predicate Despiked(out: seq<Words>, plain: seq<Words>, p: Params, raw: seq<Words>,
                           code: int, eb: nat, ee: nat, hs: int)
    requires |raw| > 0
  {
    if Steady(raw, 0, |raw|) then code == -1 && out == plain
    else
      && FirstChange(raw, 0, eb)
      && if Steady(raw, eb, |raw|) then code == -2 && out == plain
         else
           && FirstChange(raw, eb, ee)
           && if !Accepted(p) then code == -3 && out == plain
              else
                && code == 0 && FirstHold(p, |raw|, eb, ee - eb, hs)
                && ComesFrom(out, plain, Source(p, ee - eb, hs, Identity(|raw|)))
  }

  method TransformRest(mem: array<Words>, c: Cache, count: nat, from: nat,
                       ghost raw: seq<Words>, ghost plain: seq<Words>)
    requires ValidCache(c) && AllRaw(raw) && plain == PlainAll(c, raw)
    requires from <= |raw| <= mem.Length && (count == |raw| || count <= from == |raw|)
    requires Progress(mem[..|raw|], raw, plain, from)
    modifies mem
    ensures mem[..|raw|] == plain && mem[|raw|..] == old(mem[|raw|..])
  {
    var i := from;
    while i < count
      invariant from <= i <= |raw| && Progress(mem[..|raw|], raw, plain, i)
      invariant mem[|raw|..] == old(mem[|raw|..])
    {
      TransformNext(mem, c, i, raw, plain);
      i := i + 1;
    }
  }

  /** After n turns of the search none of the edges passed is accepted. */
  ghost predicate Searched(p: Params, eb0: nat, period: nat, n: nat, eb: int) {
    eb == EdgeAt(eb0, period, n) && forall j: nat :: j < n ==> EdgeAt(eb0, period, j) < FirstEdge(p)
  }

  lemma SearchOn(p: Params, eb0: nat, period: nat, n: nat, eb: int)
    requires Searched(p, eb0, period, n, eb) && eb < FirstEdge(p)
    ensures Searched(p, eb0, period, n + 1, U32(eb + period))
  {
    NextEdge(eb0, period, n);
  }

  lemma SearchFrom(p: Params, eb0: nat, period: nat)
    requires eb0 < MAX_ATOMS
    ensures Searched(p, eb0, period, 0, eb0)
  {
    assert 0 * period == 0;
  }

  lemma SearchGoesOn(p: Params, eb0: nat, period: nat, n: nat, eb: int, stop: nat)
    requires Searched(p, eb0, period, n, eb) && EdgeAt(eb0, period, stop) >= FirstEdge(p)
    ensures n <= stop && (eb < FirstEdge(p) ==> n < stop)
  {
  }

  /** Moves the first edge on to the first one accepted. */
  method FirstUsableEdge(p: Params, eb0: nat, period: nat) returns (eb: nat, ghost n: nat)
    requires Validated(p) && Ends(p, eb0, period) && eb0 < MAX_ATOMS
    ensures StopsAt(p, eb0, period, n) && eb == EdgeAt(eb0, period, n)
  {
    ghost var stop: nat :| EdgeAt(eb0, period, stop) >= FirstEdge(p);
    eb := eb0;
    n := 0;
    SearchFrom(p, eb0, period);
    while eb < FirstEdge(p)
      invariant Searched(p, eb0, period, n, eb)
      decreases stop - n
    {
      SearchGoesOn(p, eb0, period, n, eb, stop);
      SearchOn(p, eb0, period, n, eb);
      eb := U32(eb + period);
      n := n + 1;
    }
  }

  /** The edge lies close behind the first one accepted. */
  lemma EdgeBound(p: Params, eb: nat, period: nat, k: nat)
    requires StopsAt(p, eb, period, k) && eb < MAX_ATOMS && period < MAX_ATOMS
    ensures 0 <= EdgeAt(eb, period, k) - FirstEdge(p) < MAX_ATOMS
  {
    if k == 0 {
      assert 0 * period == 0;
      U32Is(eb, 0, eb);
    } else {
      var before := EdgeAt(eb, period, k - 1);
      assert before < FirstEdge(p);
      NextEdge(eb, period, k - 1);
      U32AtMost(before, period);
    }
  }

  lemma U32AtMost(x: nat, y: nat)
    requires x + y < 2 * WORD_RANGE
    ensures U32(x + y) <= x + y
  {
  }

  /** The windows from hs on turn sigma into goal. */
  ghost predicate LeadsTo(p: Params, period: int, hs: int, sigma: seq<nat>, goal: seq<nat>) {
    Rounds(p, |sigma|, period, hs) && Source(p, period, hs, sigma) == goal
  }

  /** The indices the loop works with. */
  datatype Round = Round(avestart: int, avestop: int, holdstart: int, holdstop: int)

  /** They are those of the hold window at hs. */
  predicate Belongs(p: Params, hs: int, r: Round) {
    && -16 <= hs < 0xC000_0000 && 0 <= AveStart(p, hs) < 0x4000_0000
    && r == Round(AveStart(p, hs), U32(AveStart(p, hs) + p.averageWindow - 1), U32(hs), U32(hs + p.window - 1))
  }

  /** The averaging interval of the first round starts as far behind the first edge accepted as the
      edge does. */
  lemma FirstAveStart(p: Params, eb: nat, avestart: int)
    requires Validated(p) && 0 <= eb - FirstEdge(p) < MAX_ATOMS
    requires avestart == U32(U32(eb + p.start + p.averagingStop) - p.averageWindow + 1)
    ensures avestart == U32(eb + Lead(p)) == eb - FirstEdge(p)
  {
    FirstEdgeIs(p);
    U32Is(eb + Lead(p), if Lead(p) <= 0 then 0 else 1, eb - FirstEdge(p));
    U32Add(eb + p.start + p.averagingStop, 1 - p.averageWindow);
  }

  lemma FirstRoundBounds(p: Params, eb: nat, hs: int)
    requires Validated(p) && 0 <= eb - FirstEdge(p) < MAX_ATOMS && hs == HoldStart(p, eb)
    ensures -16 <= hs < 0xC000_0000 && AveStart(p, hs) == eb - FirstEdge(p) < 0x4000_0000
  {
  }

  lemma HoldEnds(p: Params, hs: int)
    ensures U32(U32(hs) + p.window - 1) == U32(hs + p.window - 1)
  {
    U32Add(hs, p.window - 1);
  }

  lemma FirstIntervals(p: Params, eb: nat, avestart: int, hs: int)
    requires avestart == U32(eb + Lead(p)) && avestart == AveStart(p, hs)
    ensures U32(eb + p.start + p.averagingStop) == U32(AveStart(p, hs) + p.averageWindow - 1)
    ensures U32(eb + p.start) == U32(hs)
  {
    var x := eb + Lead(p);
    WrapsFrom(x, avestart, p.averageWindow - 1, eb + p.start + p.averagingStop, avestart + p.averageWindow - 1);
    WrapsFrom(x, avestart, Gap(p), eb + p.start, hs);
  }

  /** Sums that start from the same index in the ring of 32-bit numbers. */
  lemma WrapsFrom(x: int, a: int, d: int, y: int, b: int)
    requires U32(x) == a && y == x + d && b == a + d
    ensures U32(y) == U32(b)
  {
    U32Add(x, d);
  }

  method FirstRound(p: Params, eb: nat, ghost hs: int) returns (r: Round)
    requires Validated(p) && 0 <= eb - FirstEdge(p) < MAX_ATOMS && hs == HoldStart(p, eb)
    ensures Belongs(p, hs, r)
  {
    var avestop := U32(eb + p.start + p.averagingStop);
    var avestart := U32(avestop - p.averageWindow + 1);
    FirstAveStart(p, eb, avestart);
    FirstRoundBounds(p, eb, hs);
    FirstIntervals(p, eb, avestart, hs);
    var holdstart := U32(eb + p.start);
    var holdstop := U32(holdstart + p.window - 1);
    HoldEnds(p, hs);
    r := Round(avestart, avestop, holdstart, holdstop);
  }

  lemma NextRoundBelongs(p: Params, hs: int, period: nat, r: Round)
    requires 0 <= hs < MAX_ATOMS && AveStart(p, hs) < MAX_ATOMS && period < MAX_ATOMS && Belongs(p, hs, r)
    ensures Belongs(p, hs + period, Round(U32(r.avestart + period), U32(r.avestop + period),
                                          U32(r.holdstart + period), U32(r.holdstop + period)))
  {
    var a := AveStart(p, hs);
    U32Add(a + p.averageWindow - 1, period);
    U32Add(hs, period);
    U32Add(hs + p.window - 1, period);
    ModUnique(a + period, WORD_RANGE, 0, a + period);
  }

  method NextRound(p: Params, ghost hs: int, period: nat, r: Round) returns (next: Round)
    requires 0 <= hs < MAX_ATOMS && AveStart(p, hs) < MAX_ATOMS && period < MAX_ATOMS && Belongs(p, hs, r)
    ensures Belongs(p, hs + period, next)
  {
    NextRoundBelongs(p, hs, period, r);
    next := Round(U32(r.avestart + period), U32(r.avestop + period),
                  U32(r.holdstart + period), U32(r.holdstop + period));
  }

  /** The loop test sees a window that starts before the buffer as one that starts after it. */
  lemma TestTells(p: Params, hs: int, n: nat, r: Round)
    requires Belongs(p, hs, r) && n < MAX_ATOMS
    ensures r.holdstart < n <==> 0 <= hs < n
    ensures hs >= 0 ==> r.holdstart == hs
  {
  }

  /** The hold windows, once both edges are known. */
  method HoldAll(mem: array<Words>, c: Cache, p: Params, eb: nat, period: nat, shifts: nat, ghost hs0: int)
    requires Validated(p) && p.averageWindow == (if shifts == 64 then 0 else Pow2(shifts))
    requires 0 < period < MAX_ATOMS && mem.Length < MAX_ATOMS && AllConsistent(c, mem[..])
    requires 0 <= eb - FirstEdge(p) < MAX_ATOMS && hs0 == HoldStart(p, eb)
    requires Rounds(p, mem.Length, period, hs0)
    modifies mem
    ensures ComesFrom(mem[..], old(mem[..]), Source(p, period, hs0, Identity(mem.Length)))
  {
    ghost var sigma := Identity(mem.Length);
    assert ComesFrom(mem[..], mem[..], sigma);
    var r := FirstRound(p, eb, hs0);
    HoldLoop(mem, c, p, r, period, shifts, hs0, sigma, Source(p, period, hs0, sigma));
  }

  method HoldLoop(mem: array<Words>, c: Cache, p: Params, r0: Round, period: nat, shifts: nat,
                  ghost hs0: int, ghost sigma0: seq<nat>, ghost goal: seq<nat>)
    requires Validated(p) && p.averageWindow == (if shifts == 64 then 0 else Pow2(shifts))
    requires 0 < period < MAX_ATOMS && mem.Length < MAX_ATOMS && AllConsistent(c, mem[..])
    requires Belongs(p, hs0, r0) && ComesFrom(mem[..], mem[..], sigma0)
    requires LeadsTo(p, period, hs0, sigma0, goal)
    modifies mem
    ensures ComesFrom(mem[..], old(mem[..]), goal)
  {
    ghost var hs, plain, sigma := hs0, mem[..], sigma0;
    var r := r0;
    TestTells(p, hs, mem.Length, r);
    while r.holdstart < mem.Length
      invariant Belongs(p, hs, r) && (r.holdstart < mem.Length <==> 0 <= hs < mem.Length)
      invariant ComesFrom(mem[..], plain, sigma) && LeadsTo(p, period, hs, sigma, goal)
      decreases mem.Length - hs
    {
      r, sigma := HoldOne(mem, c, p, r, hs, period, shifts, plain, sigma, goal);
      hs := hs + period;
    }
    NothingLeads(p, period, hs, sigma, goal);
  }

  lemma NothingLeads(p: Params, period: int, hs: int, sigma: seq<nat>, goal: seq<nat>)
    requires LeadsTo(p, period, hs, sigma, goal) && !(0 <= hs < |sigma|)
    ensures goal == sigma
  {
  }

  /** One round: average, overwrite the hold window, and move on. */
  method HoldOne(mem: array<Words>, c: Cache, p: Params, r: Round, ghost hs: int, period: nat, shifts: nat,
                 ghost plain: seq<Words>, ghost sigma: seq<nat>, ghost goal: seq<nat>)
      returns (nextRound: Round, ghost next: seq<nat>)
    requires Validated(p) && p.averageWindow == (if shifts == 64 then 0 else Pow2(shifts))
    requires 0 <= hs < mem.Length < MAX_ATOMS && period < MAX_ATOMS && Belongs(p, hs, r)
    requires AllConsistent(c, plain) && ComesFrom(mem[..], plain, sigma)
    requires LeadsTo(p, period, hs, sigma, goal)
    modifies mem
    ensures Belongs(p, hs + period, nextRound)
    ensures nextRound.holdstart < mem.Length <==> 0 <= hs + period < mem.Length
    ensures ComesFrom(mem[..], plain, next) && LeadsTo(p, period, hs + period, next, goal)
  {
    SourceStep(p, period, hs, sigma);
    TestTells(p, hs, mem.Length, r);
    StopIsPlain(p, hs, mem.Length, r);
    ghost var before := mem[..];
    assert Consistent(c, plain[sigma[r.avestart]]);
    HoldWindow(mem, c, p, shifts, r.avestart, r.avestop, r.holdstart, r.holdstop);
    HoldComesFrom(before, mem[..], plain, sigma, hs, HoldLast(p, mem.Length, hs), r.avestart);
    next := HoldNext(p, hs, sigma);
    nextRound := NextRound(p, hs, period, r);
    TestTells(p, hs + period, mem.Length, nextRound);
  }

  lemma StopIsPlain(p: Params, hs: int, n: nat, r: Round)
    requires Validated(p) && Belongs(p, hs, r) && AveStart(p, hs) < n < MAX_ATOMS && p.averageWindow >= 1
    ensures r.avestop == r.avestart + p.averageWindow - 1
  {
  }

  /** The atoms the first half of the pass transforms: those counted, but always the first. */
  function Reached(count: nat): nat { if count == 0 then 1 else count }

  /** First half of the pass: transform everything and find the edges.  For a count of 0 that is an
      atom behind the data, the trigger bit of the next one is looked at, and both edges come out
      as 1. */
  method TransformAndFindEdges(mem: array<Words>, c: Cache, count: nat)
      returns (code: int, eb: nat, ee: nat)
    requires count <= mem.Length && (if count == 0 then 2 <= mem.Length else true)
    requires ValidCache(c) && AllRaw(mem[..Reached(count)])
    modifies mem
    ensures mem[..Reached(count)] == PlainAll(c, old(mem[..Reached(count)]))
    ensures mem[Reached(count)..] == old(mem[Reached(count)..])
    ensures count == 0 ==> code == 0 && eb == ee == 1
    ensures code in {0, -1, -2} && (count > 0 ==> eb <= count)
    ensures count > 0 ==> (code == -1 <==> Steady(old(mem[..count]), 0, count))
    ensures count > 0 && code != -1 ==> FirstChange(old(mem[..count]), 0, eb)
    ensures code == -2 ==> Steady(old(mem[..count]), eb, count)
    ensures count > 0 && code == 0 ==> FirstChange(old(mem[..count]), eb, ee)
  {
    ghost var raw := mem[..Reached(count)];
    ghost var plain := PlainAll(c, raw);
    ee := 0;
    assert mem[0] == raw[0];
    var tb := Bit(mem[0]);
    TransformNext(mem, c, 0, raw, plain);
    eb := TransformWhileSteady(mem, c, count, 0, 1, tb, raw, plain);
    if eb == count {
      return -1, eb, ee;
    }
    if eb < |raw| { StillRaw(mem[..|raw|], raw, plain, eb); }
    tb := Bit(mem[eb]);
    ee := TransformWhileSteady(mem, c, count, eb, eb, tb, raw, plain);
    code := if ee == count then -2 else 0;
    TransformRest(mem, c, count, ee, raw, plain);
  }

  /** Second half: hold windows over the transformed buffer. */
  method HoldWindows(mem: array<Words>, c: Cache, p: Params, eb: nat, ee: nat)
      returns (code: int, ghost hs: int)
    requires Validated(p) && eb < ee < mem.Length < MAX_ATOMS && AllConsistent(c, mem[..])
    requires Accepted(p) ==> WellBehaved(p, mem.Length, eb, ee - eb)
    modifies mem
    ensures code == (if Accepted(p) then 0 else -3)
    ensures code == -3 ==> mem[..] == old(mem[..])
    ensures code == 0 ==>
              FirstHold(p, mem.Length, eb, ee - eb, hs)
              && ComesFrom(mem[..], old(mem[..]), Source(p, ee - eb, hs, Identity(mem.Length)))
  {
    hs := 0;
    var shifts, ok := CountShifts(p.averageWindow);
    if !ok {
      return -3, 0;
    }
    var period := ee - eb;
    var edge, k := FirstUsableEdge(p, eb, period);
    EdgeBound(p, eb, period, k);
    hs := HoldStart(p, edge);
    WellBehavedIff(p, mem.Length, eb, period);
    HoldAll(mem, c, p, edge, period, shifts, hs);
    code := 0;
  }

  /** Removes the spikes from all data on which the pass is well behaved. */
  method RemoveSpikes(mem: array<Words>, c: Cache, p: Params)
      returns (code: int, ghost eb: nat, ghost ee: nat, ghost hs: int)
    requires 0 < mem.Length < MAX_ATOMS && ValidCache(c) && Validated(p)
    requires AllRaw(mem[..]) && Behaves(p, mem[..])
    modifies mem
    ensures Despiked(mem[..], PlainAll(c, old(mem[..])), p, old(mem[..]), code, eb, ee, hs)
  {
    ghost var raw := mem[..];
    var b, e;
    assert mem[..mem.Length] == mem[..];
    code, b, e := TransformAndFindEdges(mem, c, mem.Length);
    assert mem[..mem.Length] == mem[..];
    eb, ee, hs := b, e, 0;
    if code == 0 {
      PlainConsistent(c, raw);
      code, hs := HoldWindows(mem, c, p, b, e);
    }
  }

  /** An empty read: an atom that is not part of the data is transformed, and both edges are 1. */
  method EmptyRead(mem: array<Words>, c: Cache) returns (code: int, eb: nat, ee: nat)
    requires mem.Length >= 2 && ValidCache(c) && ValidRaw(mem[0])
    modifies mem
    ensures code == 0 && eb == ee == 1
    ensures mem[0] == Plain(c, old(mem[0])) && mem[1..] == old(mem[1..])
  {
    ghost var raw := mem[..1];
    assert raw[0] == mem[0];
    code, eb, ee := TransformAndFindEdges(mem, c, 0);
    assert mem[0] == mem[..1][0] == PlainAll(c, raw)[0];
  }

  lemma EmptyEdge(p: Params, k: nat)
    ensures EdgeAt(1, 0, k) == 1
  {
    assert k * 0 == 0;
  }

  /** Past that the search for the first edge, when it ends, stays where it is.  No index lies below a
      count of 0, so that no window follows. */
  method EmptySearch(p: Params) returns (code: int, edge: nat)
    requires Validated(p) && Ends(p, 1, 0)
    ensures code == (if Accepted(p) then 0 else -3) && edge == 1
  {
    edge := 1;
    var shifts, ok := CountShifts(p.averageWindow);
    if !ok {
      return -3, edge;
    }
    ghost var k;
    edge, k := FirstUsableEdge(p, 1, 0);
    EmptyEdge(p, k);
    code := 0;
  }

  // ---- What the result is ----------------------------------------------------------------

  function HoldLength(p: Params): int { if p.window < 1 then 1 else p.window }

  /** Hold windows do not overlap, and no averaging interval starts in an earlier one. */
  predicate Spaced(p: Params, period: int) {
    HoldLength(p) + (if Gap(p) > 0 then Gap(p) else 0) <= period
  }

  /** Index i lies in a hold window. */
  predicate IsHeld(p: Params, period: int, hs: int, i: int)
    requires period > 0
  {
    0 <= hs <= i && (i - hs) % period < HoldLength(p)
  }

  /** Output atom i: inside a hold window the atom at the start of that window's averaging
      interval, elsewhere atom i itself. */
  function Origin(p: Params, period: int, hs: int, i: int): int
    requires period > 0
  {
    if IsHeld(p, period, hs, i) then AveStart(p, i - (i - hs) % period) else i
  }

  /** An empty hold window at the first sample: its unsigned stop index wraps. */
  predicate WrapsStop(p: Params, hs: int) { hs == 0 && p.window == 0 }

  /** Whatever the spacing, nothing outside the hold windows changes, unless the stop index wraps. */
  lemma {:induction false} OutsideIsKept(p: Params, period: int, hs: int, sigma: seq<nat>, i: nat)
    requires Validated(p) && Rounds(p, |sigma|, period, hs) && |sigma| < MAX_ATOMS && !WrapsStop(p, hs)
    requires i < |sigma| && !IsHeld(p, period, hs, i)
    ensures Source(p, period, hs, sigma)[i] == sigma[i]
    decreases |sigma| - hs
  {
    if hs < 0 || hs >= |sigma| {
    } else {
      RoundsStep(p, |sigma|, period, hs);
      if i >= hs { HeldIff(p, |sigma|, hs, i); }
      StaysOutside(p, period, hs, i);
      OutsideIsKept(p, period, hs + period, HoldNext(p, hs, sigma), i);
    }
  }

  lemma StaysOutside(p: Params, period: int, hs: int, i: int)
    requires period > 0 && 0 <= hs && !IsHeld(p, period, hs, i)
    ensures !IsHeld(p, period, hs + period, i) && (i >= hs ==> i - hs >= HoldLength(p))
  {
    if i >= hs {
      var q, r := (i - hs) / period, (i - hs) % period;
      assert i - hs == period * q + r;
      QuotientSign(i - hs, period);
      MulLess(period, 0, q);
      if i - hs >= period {
        Distribute(period, q, 1);
        ModUnique(i - hs - period, period, q - 1, r);
      }
    }
  }

  lemma ModShift(a: int, d: int, m: int)
    requires m > 0 && a % m == 0 && 0 <= d < m
    ensures (a + d) % m == d
  {
    var q := a / m;
    assert a + d == m * q + d;
    ModUnique(a + d, m, q, d);
  }

  /** The hold window that starts at hs is as long as it should be. */
  lemma HeldIff(p: Params, n: int, hs: int, i: int)
    requires 0 <= hs <= i < n && 0 < hs + p.window && n + p.window < WORD_RANGE
    ensures i <= HoldLast(p, n, hs) <==> i - hs < HoldLength(p)
  {
  }

  /** The start of an averaging interval lies in no earlier hold window. */
  lemma SourceIsFree(p: Params, period: int, hs0: int, hs: int)
    requires Spaced(p, period) && period > 0 && 0 <= hs0 <= hs && (hs - hs0) % period == 0
    ensures AveStart(p, hs) < hs ==> !IsHeld(p, period, hs0, AveStart(p, hs))
  {
    var x := AveStart(p, hs);
    if hs > hs0 && x < hs {
      PeriodBefore(hs - hs0, period);
      ModShift(hs - period - hs0, x - (hs - period), period);
    }
  }

  /** One window turns the closed form up to hs into the closed form up to hs + period. */
  lemma HoldNextClosed(p: Params, period: int, hs0: int, hs: int, sigma: seq<nat>, i: int)
    requires Validated(p) && Spaced(p, period) && period > 0 && 0 <= AveStart(p, hs) < |sigma| < MAX_ATOMS
    requires 0 <= hs0 <= hs < |sigma| && (hs - hs0) % period == 0 && 0 < hs + p.window
    requires forall k :: 0 <= k < |sigma| ==> sigma[k] == if k < hs then Origin(p, period, hs0, k) else k
    requires 0 <= i < |sigma|
    ensures HoldNext(p, hs, sigma)[i] == if i < hs + period then Origin(p, period, hs0, i) else i
  {
    var x := AveStart(p, hs);
    SourceIsFree(p, period, hs0, hs);
    assert sigma[x] == x;
    if i >= hs {
      HeldIff(p, |sigma|, hs, i);
      if i < hs + period { ModShift(hs - hs0, i - hs, period); }
    }
  }

  lemma PeriodBefore(a: int, m: int)
    requires m > 0 && a > 0 && a % m == 0
    ensures a >= m && (a - m) % m == 0
  {
    var q := a / m;
    assert a == m * q;
    if q <= 0 { MulLess(m, q, 0); }
    MulLess(m, 1, q);
    Distribute(m, q - 1, 1);
    ModUnique(a - m, m, q - 1, 0);
  }

  lemma {:induction false} ClosedFrom(p: Params, period: int, hs0: int, hs: int, sigma: seq<nat>, i: int)
    requires Validated(p) && Spaced(p, period) && Rounds(p, |sigma|, period, hs) && |sigma| < MAX_ATOMS
    requires 0 <= hs0 <= hs && (hs - hs0) % period == 0 && 0 < hs0 + p.window
    requires forall k :: 0 <= k < |sigma| ==> sigma[k] == if k < hs then Origin(p, period, hs0, k) else k
    requires 0 <= i < |sigma|
    ensures Source(p, period, hs, sigma)[i] == Origin(p, period, hs0, i)
    decreases |sigma| - hs
  {
    if hs >= |sigma| {
    } else {
      RoundsStep(p, |sigma|, period, hs);
      var next := HoldNext(p, hs, sigma);
      forall k | 0 <= k < |sigma|
        ensures next[k] == if k < hs + period then Origin(p, period, hs0, k) else k
      {
        HoldNextClosed(p, period, hs0, hs, sigma, k);
      }
      PeriodAfter(hs - hs0, period);
      ClosedFrom(p, period, hs0, hs + period, next, i);
    }
  }

  lemma PeriodAfter(a: int, m: int)
    requires m > 0 && a % m == 0
    ensures (a + m) % m == 0
  {
    Distribute(m, a / m, 1);
    ModUnique(a + m, m, a / m + 1, 0);
  }

  /** Where the stop index wraps, the first window fills the buffer, and later ones find nothing else
      to hold. */
  lemma FillsBuffer(p: Params, period: int, n: nat)
    requires Validated(p) && Rounds(p, n, period, 0) && p.window == 0 && 0 < n < MAX_ATOMS
    ensures 0 <= AveStart(p, 0) < n
    ensures Source(p, period, 0, Identity(n)) == seq(n, _ => AveStart(p, 0))
  {
    SourceStep(p, period, 0, Identity(n));
    var all := HoldNext(p, 0, Identity(n));
    assert all == seq(n, _ => AveStart(p, 0));
    StaysFull(p, period, period, all, AveStart(p, 0));
  }

  lemma {:induction false} StaysFull(p: Params, period: int, hs: int, sigma: seq<nat>, x: nat)
    requires Rounds(p, |sigma|, period, hs) && sigma == seq(|sigma|, _ => x)
    ensures Source(p, period, hs, sigma) == sigma
    decreases |sigma| - hs
  {
    if hs < 0 || hs >= |sigma| {
    } else {
      RoundsStep(p, |sigma|, period, hs);
      assert HoldNext(p, hs, sigma) == sigma;
      StaysFull(p, period, hs + period, sigma, x);
    }
  }

  /** For usable parameters the first hold window starts `start` behind the edge. */
  lemma FirstHoldIs(p: Params, eb: nat, period: nat, k: nat)
    requires Validated(p) && Usable(p) && StopsAt(p, eb, period, k)
    ensures HoldStart(p, EdgeAt(eb, period, k)) == EdgeAt(eb, period, k) + p.start >= 0
  {
    FirstEdgeIs(p);
  }

  /** A window holds as many atoms as it says, and one if it says none. */
  lemma WindowLength(p: Params, period: int, hs: int, j: nat)
    requires 0 <= hs && j < period
    ensures IsHeld(p, period, hs, hs + j) <==> j < p.window || j == 0
  {
  }

  /** The averaging interval of a window ends `averagingStop` behind its start, and is as long as
      `averageWindow` says. */
  lemma AveragingEnds(p: Params, hs: int)
    ensures AveStart(p, hs) + p.averageWindow - 1 == hs + p.averagingStop
  {
  }

  /** The trigger bit changes at eb, every `period` atoms from there on, and nowhere else. */
  ghost predicate Regular(raw: seq<Words>, eb: nat, period: nat) {
    0 < eb && 0 < period && forall j :: 0 < j < |raw| ==> (Changes(raw, j) <==> eb <= j && (j - eb) % period == 0)
  }

  ghost predicate Changes(raw: seq<Words>, j: int) {
    0 < j < |raw| && Bit(raw[j]) != Bit(raw[j - 1])
  }

  lemma RegularEdges(raw: seq<Words>, eb: nat, period: nat, b: nat, e: nat)
    requires Regular(raw, eb, period) && FirstChange(raw, 0, b) && FirstChange(raw, b, e)
    ensures b == eb && e == eb + period
  {
    assert Changes(raw, b) && Changes(raw, e);
    assert (eb - eb) % period == 0;
    ModUnique(period, period, 1, 0);
    if e - eb < period { ModUnique(e - eb, period, 0, e - eb); }
    assert eb < b ==> Changes(raw, eb);
    assert eb + period < e ==> Changes(raw, eb + period);
  }

  /** On regular spikes the hold windows are where they should be: each starts `start` behind a change
      of the trigger bit, every later change has one, and the first window belongs to the first change
      with room for averaging before it. */
  lemma WindowsFollowChanges(p: Params, raw: seq<Words>, plain: seq<Words>, out: seq<Words>, b: nat, e: nat,
                             hs: int, eb: nat, period: nat)
    requires Validated(p) && Usable(p) && 0 < |raw| < MAX_ATOMS && Regular(raw, eb, period)
    requires Despiked(out, plain, p, raw, 0, b, e, hs)
    ensures b == eb && e == eb + period && hs >= 0 && AveStart(p, hs) >= 0
    ensures forall j :: 0 < j < |raw| && hs <= j + p.start ==>
              ((j + p.start - hs) % period == 0 <==> Changes(raw, j))
    ensures forall j :: Changes(raw, j) && j + p.start < hs ==> AveStart(p, j + p.start) < 0
  {
    HeldFrom(p, raw, plain, out, b, e, hs);
    RegularEdges(raw, eb, period, b, e);
    var k := FirstWindow(p, |raw|, eb, period, hs);
    forall j | 0 < j < |raw| && hs <= j + p.start
      ensures (j + p.start - hs) % period == 0 <==> Changes(raw, j)
    {
      WindowAtChange(raw, eb, period, j, j + p.start - hs, k);
    }
    forall j | Changes(raw, j) && j + p.start < hs ensures AveStart(p, j + p.start) < 0 {
      EarlierEdge(p, |raw|, eb, period, hs, j);
    }
  }

  lemma HeldFrom(p: Params, raw: seq<Words>, plain: seq<Words>, out: seq<Words>, b: nat, e: nat, hs: int)
    requires 0 < |raw| && Despiked(out, plain, p, raw, 0, b, e, hs)
    ensures FirstChange(raw, 0, b) && FirstChange(raw, b, e) && FirstHold(p, |raw|, b, e - b, hs)
  {
  }

  lemma WindowAtChange(raw: seq<Words>, eb: nat, period: nat, j: int, x: nat, k: nat)
    requires Regular(raw, eb, period) && 0 < j < |raw| && x + k * period == j - eb
    ensures x % period == 0 <==> Changes(raw, j)
  {
    SameRemainder(x, period, k);
    MulLess(k, 0, period);
  }

  lemma FirstWindow(p: Params, n: nat, eb: nat, period: nat, hs: int) returns (k: nat)
    requires Validated(p) && Usable(p) && eb < MAX_ATOMS && 0 < period < MAX_ATOMS
    requires FirstHold(p, n, eb, period, hs)
    ensures StopsAt(p, eb, period, k) && hs == eb + k * period + p.start
    ensures hs >= 0 && AveStart(p, hs) >= 0
  {
    k :| StopsAt(p, eb, period, k) && hs == HoldStart(p, EdgeAt(eb, period, k));
    EdgeIsNatural(p, eb, period, k, k);
    FirstHoldIs(p, eb, period, k);
    FirstEdgeIs(p);
  }

  lemma SameRemainder(x: int, m: int, k: int)
    requires m > 0
    ensures (x + k * m) % m == x % m
  {
    Distribute(m, k, x / m);
    ModUnique(x + k * m, m, k + x / m, x % m);
  }

  lemma StepBefore(x: nat, m: nat, k: nat) returns (i: nat)
    requires m > 0 && x % m == 0 && x < k * m
    ensures i < k && x == i * m
  {
    i := x / m;
    if i >= k { MulLess(m, k, i); }
  }

  lemma EarlierEdge(p: Params, n: nat, eb: nat, period: nat, hs: int, j: int)
    requires Validated(p) && Usable(p) && eb < MAX_ATOMS && 0 < period < MAX_ATOMS
    requires FirstHold(p, n, eb, period, hs) && eb <= j < hs - p.start && (j - eb) % period == 0
    ensures AveStart(p, j + p.start) < 0
  {
    var k := FirstWindow(p, n, eb, period, hs);
    var i := StepBefore(j - eb, period, k);
    EdgeIsNatural(p, eb, period, k, i);
    assert EdgeAt(eb, period, i) < FirstEdge(p);
    FirstEdgeIs(p);
  }

  /** For usable parameters nothing outside the hold windows changes exactly if it is not the case
      that the window is empty and the edge lies `-start` behind the first sample. */
  lemma OutsideIsKeptIff(p: Params, n: nat, eb: nat, period: nat, k: nat, hs: int)
    requires Validated(p) && Usable(p) && StopsAt(p, eb, period, k) && 1 < n < MAX_ATOMS && period > 1
    requires hs == HoldStart(p, EdgeAt(eb, period, k)) && Rounds(p, n, period, hs)
    ensures (forall i :: 0 <= i < n && !IsHeld(p, period, hs, i) ==>
               Source(p, period, hs, Identity(n))[i] == Identity(n)[i])
            <==> !(p.window == 0 && EdgeAt(eb, period, k) == -p.start)
  {
    FirstHoldIs(p, eb, period, k);
    if WrapsStop(p, hs) {
      FillsBuffer(p, period, n);
      assert !IsHeld(p, period, hs, 1) && Source(p, period, hs, Identity(n))[1] == 0;
    } else {
      forall i | 0 <= i < n && !IsHeld(p, period, hs, i)
        ensures Source(p, period, hs, Identity(n))[i] == Identity(n)[i]
      {
        OutsideIsKept(p, period, hs, Identity(n), i);
      }
    }
  }

  /** It does happen, for every averaging that ends with the start of an empty window, every start
      before the edge, and a first edge that is as far from the first sample. */
  lemma WindowAtFirstSample(p: Params, n: nat, period: nat)
    requires Validated(p) && Usable(p) && p.window == 0 && p.start < 0 && Gap(p) == 0
    requires 1 < n < MAX_ATOMS && 0 < period < MAX_ATOMS
    ensures FirstHold(p, n, -p.start, period, 0)
    ensures Source(p, period, 0, Identity(n)) == seq(n, _ => 0)
  {
    FirstEdgeIs(p);
    StopsAtOnce(p, -p.start, period);
    assert HoldStart(p, EdgeAt(-p.start, period, 0)) == 0;
    FillsBuffer(p, period, n);
  }

  /** Every index outside the hold windows keeps its plain transform.  When the windows are spaced,
      every index of a window carries the plain transform found at the start of that window's
      averaging interval.  Where the stop index wraps, every index carries the one the first window
      holds. */
  lemma SpikesAreHeld(p: Params, period: int, hs: int, plain: seq<Words>, out: seq<Words>)
    requires Validated(p) && Rounds(p, |plain|, period, hs) && |plain| < MAX_ATOMS
    requires ComesFrom(out, plain, Source(p, period, hs, Identity(|plain|)))
    ensures !WrapsStop(p, hs) ==>
              forall i :: 0 <= i < |out| && !IsHeld(p, period, hs, i) ==> out[i] == plain[i]
    ensures !WrapsStop(p, hs) && Spaced(p, period) ==>
              forall i :: 0 <= i < |out| && IsHeld(p, period, hs, i) ==>
                var x := AveStart(p, i - (i - hs) % period); 0 <= x < |plain| && out[i] == plain[x]
    ensures WrapsStop(p, hs) ==>
              forall i :: 0 <= i < |out| ==>
                var x := AveStart(p, 0); 0 <= x < |plain| && out[i] == plain[x]
  {
    if WrapsStop(p, hs) {
      if |plain| > 0 { FillsBuffer(p, period, |plain|); }
    } else {
      HeldElsewhere(p, period, hs, plain, out);
    }
  }

  lemma HeldElsewhere(p: Params, period: int, hs: int, plain: seq<Words>, out: seq<Words>)
    requires Validated(p) && Rounds(p, |plain|, period, hs) && |plain| < MAX_ATOMS && !WrapsStop(p, hs)
    requires ComesFrom(out, plain, Source(p, period, hs, Identity(|plain|)))
    ensures forall i :: 0 <= i < |out| && !IsHeld(p, period, hs, i) ==> out[i] == plain[i]
    ensures Spaced(p, period) ==>
              forall i :: 0 <= i < |out| && IsHeld(p, period, hs, i) ==>
                var x := AveStart(p, i - (i - hs) % period); 0 <= x < |plain| && out[i] == plain[x]
  {
    forall i | 0 <= i < |out| && !IsHeld(p, period, hs, i) ensures out[i] == plain[i] {
      OutsideIsKept(p, period, hs, Identity(|plain|), i);
    }
    if Spaced(p, period) {
      forall i | 0 <= i < |out| && IsHeld(p, period, hs, i)
        ensures var x := AveStart(p, i - (i - hs) % period); 0 <= x < |plain| && out[i] == plain[x]
      {
        ClosedFrom(p, period, hs, hs, Identity(|plain|), i);
      }
    }
  }

  // ---- Averaging -------------------------------------------------------------------------

  function Sum(vs: seq<int>): int { if vs == [] then 0 else Sum(vs[..|vs| - 1]) + vs[|vs| - 1] }

  lemma {:induction false} SumConst(n: nat, x: int)
    ensures Sum(seq(n, _ => x)) == n * x
  {
    if n == 0 {
    } else {
      assert seq(n, _ => x)[..n - 1] == seq(n - 1, _ => x);
      SumConst(n - 1, x);
    }
  }

  lemma {:induction false} SumFront(v: int, vs: seq<int>)
    ensures Sum([v] + vs) == v + Sum(vs)
  {
    if vs == [] {
      assert [v] + vs == [v];
      assert [v][..0] == [];
    } else {
      assert ([v] + vs)[..|vs|] == [v] + vs[..|vs| - 1];
      SumFront(v, vs[..|vs| - 1]);
    }
  }

  /** One amplitude of the atoms lo, ..., lo + n - 1. */
  function Column(atoms: seq<Words>, lo: nat, n: nat, amp: Words -> int): (r: seq<int>)
    requires lo + n <= |atoms|
    ensures |r| == n
  {
    seq(n, i requires 0 <= i < n => amp(atoms[lo + i]))
  }

  /** The amplitudes held, which are those of the first atom of the averaging interval, are the
      floors of the means over the interval. */
  ghost predicate HeldIsMean(atoms: seq<Words>, lo: nat, n: nat)
    requires n > 0 && lo + n <= |atoms|
  {
    && atoms[lo].w0 as int == Sum(Column(atoms, lo, n, (w: Words) => w.w0 as int)) / n
    && atoms[lo].w1 as int == Sum(Column(atoms, lo, n, (w: Words) => w.w1 as int)) / n
    && atoms[lo].w2 as int == Sum(Column(atoms, lo, n, (w: Words) => w.w2 as int)) / n
    && atoms[lo].w3 as int == Sum(Column(atoms, lo, n, (w: Words) => w.w3 as int)) / n
  }

  lemma SumOfOne(v: int)
    ensures Sum([v]) == v
  {
    assert [v][..0] == [];
  }

  lemma MeanOfOne(atoms: seq<Words>, lo: nat)
    requires lo < |atoms|
    ensures HeldIsMean(atoms, lo, 1)
  {
    SumOfOne(atoms[lo].w0 as int);
    SumOfOne(atoms[lo].w1 as int);
    SumOfOne(atoms[lo].w2 as int);
    SumOfOne(atoms[lo].w3 as int);
    assert Column(atoms, lo, 1, (w: Words) => w.w0 as int) == [atoms[lo].w0 as int];
    assert Column(atoms, lo, 1, (w: Words) => w.w1 as int) == [atoms[lo].w1 as int];
    assert Column(atoms, lo, 1, (w: Words) => w.w2 as int) == [atoms[lo].w2 as int];
    assert Column(atoms, lo, 1, (w: Words) => w.w3 as int) == [atoms[lo].w3 as int];
  }

  /** Transformed atoms whose first amplitude is 1 once and 3 afterwards. */
  function Uneven(c: Cache, lo: nat, n: nat): (r: seq<Words>)
    requires ValidCache(c)
    ensures |r| == lo + n
  {
    seq(lo + n, i => Position(c, Amps(if i == lo then 1 else 3, 0, 0, 0)))
  }

  lemma PositionIsConsistent(c: Cache, v: Amps)
    requires ValidCache(c) && ValidAmps(v)
    ensures Consistent(c, Position(c, v)) && Position(c, v).w0 as int == v.a
  {
  }

  lemma UnevenColumn(c: Cache, lo: nat, n: nat, rest: seq<int>)
    requires ValidCache(c) && n > 1 && rest == seq(n - 1, _ => 3)
    ensures Column(Uneven(c, lo, n), lo, n, (w: Words) => w.w0 as int) == [1] + rest
  {
    var column := Column(Uneven(c, lo, n), lo, n, (w: Words) => w.w0 as int);
    forall i | 0 <= i < n ensures column[i] == ([1] + rest)[i] {
      PositionIsConsistent(c, Amps(if i == 0 then 1 else 3, 0, 0, 0));
    }
  }

  lemma UnevenMean(c: Cache, lo: nat, n: nat)
    requires ValidCache(c) && n > 1
    ensures AllConsistent(c, Uneven(c, lo, n)) && !HeldIsMean(Uneven(c, lo, n), lo, n)
  {
    var atoms, amp := Uneven(c, lo, n), (w: Words) => w.w0 as int;
    forall k | 0 <= k < lo + n ensures Consistent(c, atoms[k]) {
      PositionIsConsistent(c, Amps(if k == lo then 1 else 3, 0, 0, 0));
    }
    var rest := seq(n - 1, _ => 3);
    assert Sum(Column(atoms, lo, n, amp)) == 3 * n - 2 by {
      UnevenColumn(c, lo, n, rest);
      SumFront(1, rest);
      SumConst(n - 1, 3);
    }
    ModUnique(3 * n - 2, n, 2, n - 2);
    PositionIsConsistent(c, Amps(1, 0, 0, 0));
    assert atoms[lo].w0 as int == 1;
  }

  /** The atom held is meant to carry the floors of the means.  As the loop reads the first atom
      only, it does so for all data exactly when the interval is one sample long. */
  lemma AveragingHoldsOnlyForOneSample(c: Cache, lo: nat, n: nat)
    requires ValidCache(c) && n > 0
    ensures (forall atoms: seq<Words> | |atoms| >= lo + n && AllConsistent(c, atoms) :: HeldIsMean(atoms, lo, n))
            <==> n == 1
  {
    if n == 1 {
      forall atoms: seq<Words> | |atoms| >= lo + n ensures HeldIsMean(atoms, lo, n) { MeanOfOne(atoms, lo); }
    } else {
      UnevenMean(c, lo, n);
    }
  }

  // ---- Which parameters are safe for all data --------------------------------------------

  /** Raw atoms whose trigger bit is set from eb on up to ee. */
  function WithEdges(n: nat, eb: nat, ee: nat): (raw: seq<Words>)
    ensures |raw| == n
  {
    seq(n, i => Words(if eb <= i < ee then 9 else 8, 0, 0, 0, 0, 0, 0, 0))
  }

  lemma EdgesAreThere(n: nat, eb: nat, ee: nat)
    requires 0 < eb < ee < n
    ensures var raw := WithEdges(n, eb, ee);
            AllRaw(raw) && FirstChange(raw, 0, eb) && FirstChange(raw, eb, ee)
  {
    var raw := WithEdges(n, eb, ee);
    forall k | 0 <= k < n ensures ValidRaw(raw[k]) { FaintAtom(raw[k]); }
    assert forall k :: 0 <= k < n ==> Bit(raw[k]) == if eb <= k < ee then 1 else 0;
  }

  lemma FaintAtom(w: Words)
    requires 4 <= w.w0 < 10 && w == Words(w.w0, 0, 0, 0, 0, 0, 0, 0)
    ensures ValidRaw(w)
  {
  }

  /** A validated set of parameters is safe for all data exactly when it is usable. */
  lemma SafeForAllDataIff(p: Params)
    requires Validated(p) && p.averageWindow in {0, 1, 2, 4, 8, 16}
    ensures (forall raw | 0 < |raw| < MAX_ATOMS && AllRaw(raw) :: Behaves(p, raw)) <==> Usable(p)
  {
    WindowIsAccepted(p);
    if Usable(p) {
      forall raw, eb: nat, ee: nat | 0 < |raw| < MAX_ATOMS && FirstChange(raw, 0, eb) && FirstChange(raw, eb, ee)
        ensures WellBehaved(p, |raw|, eb, ee - eb)
      {
        UsableIsWellBehaved(p, |raw|, eb, ee - eb);
      }
    } else if Lead(p) > 0 {
      PositiveLeadHangs(p);
      FailsOn(p, 65, 32, 64);
    } else if p.averageWindow == 0 {
      EmptyWindowFaults(p);
      FailsOn(p, 200, 64, 65);
    } else {
      LateAveragingFaults(p);
      FailsOn(p, 200, 64, 65);
    }
  }

  lemma WindowIsAccepted(p: Params)
    requires p.averageWindow in {0, 1, 2, 4, 8, 16}
    ensures Accepted(p)
  {
    Powers();
    assert Pow2(0) == 1 && Pow2(1) == 2 && Pow2(2) == 4 && Pow2(3) == 8 && Pow2(4) == 16;
  }

  lemma FailsOn(p: Params, n: nat, eb: nat, ee: nat)
    requires Accepted(p) && 0 < eb < ee < n && !WellBehaved(p, n, eb, ee - eb)
    ensures AllRaw(WithEdges(n, eb, ee)) && !Behaves(p, WithEdges(n, eb, ee))
  {
    EdgesAreThere(n, eb, ee);
  }
}
