/** Conversions between system time (ST), the 125 MHz system clock count (LST), machine clock
    counts (LMT) and atoms of machine time (MT), in unsigned 64-bit arithmetic. */
module Clocks {
  import opened Arithmetic
  import opened Wrapping

  const LSC_FREQ := 125_000_000
  const NS_IN_SECOND := 1_000_000_000
  const FLMC_DECI_HZ := 10
  const DELTA_LST_OVERFLOW := 15_707_377_440
  const DELTA_LMT_OVERFLOW := 14_757_395_240
  const MAX_FLMC := 1_174_400_000  // 117.44 MHz in tenths of a hertz
  const SYSTEM_RATE := LSC_FREQ * FLMC_DECI_HZ

  datatype Result = Ok(value: int) | RangeError

  datatype Timespec = Timespec(sec: int, nsec: int)

  /** A moment known on both clocks. */
  datatype Sync = Sync(lst: int, lmt: int)

  predicate IsTime(x: int) { 0 <= x < TIME_RANGE }

  // ---- Between the clocks ----------------------------------------------------------------

  /** Moves `origin` by a converted distance, in the direction of `from` seen from `origin`. */
  function Apply(positive: bool, origin: int, delta: int): int {
    if positive then U64(origin + delta) else U64(origin - delta)
  }

  function Distance(x: int, origin: int): int { if x > origin then x - origin else origin - x }

  function Lst2Lmt(lst: int, st: Sync, flmcdHz: int): Result {
    var delta := Distance(lst, st.lst);
    if delta > DELTA_LST_OVERFLOW then RangeError
    else Ok(Apply(lst > st.lst, st.lmt, U64(delta * flmcdHz) / SYSTEM_RATE))
  }

  function Lmt2Lst(lmt: int, st: Sync, flmcdHz: int): Result
    requires flmcdHz > 0
  {
    var delta := Distance(lmt, st.lmt);
    if delta > DELTA_LMT_OVERFLOW then RangeError
    else Ok(Apply(lmt > st.lmt, st.lst, U64(delta * LSC_FREQ * FLMC_DECI_HZ) / flmcdHz))
  }

  /** The guard of the LST conversion keeps the product within 64 bits for all distances it lets
      pass exactly up to the frequency it was made for. */
  lemma LstGuardIsTight(flmcdHz: nat)
    ensures (forall delta: nat | delta <= DELTA_LST_OVERFLOW :: delta * flmcdHz < TIME_RANGE)
            <==> flmcdHz <= MAX_FLMC
  {
    if flmcdHz <= MAX_FLMC {
      forall delta: nat | delta <= DELTA_LST_OVERFLOW ensures delta * flmcdHz < TIME_RANGE {
        MulLess(delta, flmcdHz, MAX_FLMC);
      }
    } else {
      MulLess(DELTA_LST_OVERFLOW, MAX_FLMC + 1, flmcdHz);
      assert DELTA_LST_OVERFLOW * flmcdHz >= TIME_RANGE;
    }
  }

  /** The guard of the LMT conversion is right for any frequency, and within 18 ticks of the largest
      distance that fits. */
  lemma LmtGuardIsTight(delta: nat)
    ensures delta * LSC_FREQ * FLMC_DECI_HZ < TIME_RANGE <==> delta <= DELTA_LMT_OVERFLOW + 18
  {
  }

  /** Dividing and multiplying back loses a tick exactly when there was a remainder. */
  lemma ThereAndBack(delta: nat, f: nat)
    requires 0 < f <= SYSTEM_RATE
    ensures var back := delta * SYSTEM_RATE / f * f / SYSTEM_RATE;
            back == if delta * SYSTEM_RATE % f == 0 then delta else delta - 1
  {
    var t := delta * SYSTEM_RATE;
    var r := t % f;
    assert t / f * f == t - r;
    if r == 0 {
      ModUnique(t, SYSTEM_RATE, delta, 0);
    } else {
      ModUnique(t - r, SYSTEM_RATE, delta - 1, SYSTEM_RATE - r);
    }
  }

  /** Converting a machine clock count to the system clock and back, past both guards, returns it
      exactly if the distance to the sync point is a whole number of system clocks, and otherwise
      one tick nearer to the sync point. */
  lemma ClockRoundTrip(lmt: int, st: Sync, flmcdHz: int)
    requires IsTime(lmt) && IsTime(st.lst) && IsTime(st.lmt) && 0 < flmcdHz <= MAX_FLMC
    requires Lmt2Lst(lmt, st, flmcdHz).Ok?
    requires var ticks := Distance(lmt, st.lmt) * SYSTEM_RATE / flmcdHz;
             ticks <= DELTA_LST_OVERFLOW && IsTime(if lmt > st.lmt then st.lst + ticks else st.lst - ticks)
    ensures var back := Lst2Lmt(Lmt2Lst(lmt, st, flmcdHz).value, st, flmcdHz);
            back.Ok? &&
            back.value == if Distance(lmt, st.lmt) * SYSTEM_RATE % flmcdHz == 0 then lmt
                          else if lmt > st.lmt then lmt - 1 else lmt + 1
  {
    var delta := Distance(lmt, st.lmt);
    var ticks := delta * SYSTEM_RATE / flmcdHz;
    var product := ticks * flmcdHz;
    assert 0 <= ticks && 0 <= product < TIME_RANGE by {
      QuotientSign(delta * SYSTEM_RATE, flmcdHz);
      LstGuardIsTight(flmcdHz);
      MulLess(flmcdHz, 0, ticks);
    }
    ForwardValue(lmt, st, flmcdHz, ticks);
    ThereAndBack(delta, flmcdHz);
    BackwardValue(lmt > st.lmt, st, flmcdHz, ticks, product, product / SYSTEM_RATE);
    Landing(lmt, st, product / SYSTEM_RATE);
  }

  lemma Landing(lmt: int, st: Sync, back: int)
    requires IsTime(lmt) && IsTime(st.lmt)
    ensures var delta := Distance(lmt, st.lmt);
            && (back == delta ==> Apply(lmt > st.lmt, st.lmt, back) == lmt)
            && (back == delta - 1 && delta > 0 ==>
                  Apply(lmt > st.lmt, st.lmt, back) == if lmt > st.lmt then lmt - 1 else lmt + 1)
  {
  }

  lemma ForwardValue(lmt: int, st: Sync, flmcdHz: int, ticks: int)
    requires flmcdHz > 0 && Lmt2Lst(lmt, st, flmcdHz).Ok?
    requires ticks == Distance(lmt, st.lmt) * SYSTEM_RATE / flmcdHz
    requires IsTime(if lmt > st.lmt then st.lst + ticks else st.lst - ticks)
    ensures Lmt2Lst(lmt, st, flmcdHz).value == if lmt > st.lmt then st.lst + ticks else st.lst - ticks
  {
    LmtGuardIsTight(Distance(lmt, st.lmt));
  }

  lemma BackwardValue(positive: bool, st: Sync, flmcdHz: int, ticks: int, product: int, delta: int)
    requires 0 <= ticks <= DELTA_LST_OVERFLOW && product == ticks * flmcdHz && 0 <= product < TIME_RANGE
    requires delta == product / SYSTEM_RATE && IsTime(st.lmt)
    ensures Lst2Lmt(if positive then st.lst + ticks else st.lst - ticks, st, flmcdHz)
            == Ok(Apply(positive, st.lmt, delta))
  {
    var lst := if positive then st.lst + ticks else st.lst - ticks;
    assert Distance(lst, st.lst) == ticks;
    if ticks == 0 {
      assert product == 0;
    } else {
      assert (lst > st.lst) == positive;
    }
  }

  /** Conversions answer exactly for moments within 125.659 s of the sync point on the system clock, and
      within 14 757 395 240 ticks of it on the machine clock. */
  lemma AnswersIff(x: int, st: Sync, flmcdHz: int)
    requires flmcdHz > 0
    ensures Lst2Lmt(x, st, flmcdHz).Ok? <==> -15_707_377_440 <= x - st.lst <= 15_707_377_440
    ensures Lmt2Lst(x, st, flmcdHz).Ok? <==> -14_757_395_240 <= x - st.lmt <= 14_757_395_240
  {
  }

  /** The machine clock runs flmcdHz tenths of a tick for every second, that is for 125 million ticks of
      the system clock: distances from the sync point are in that ratio, cut to the tick below. */
  lemma LstRate(lst: int, st: Sync, flmcdHz: int)
    requires 0 < flmcdHz <= MAX_FLMC && IsTime(st.lmt) && Lst2Lmt(lst, st, flmcdHz).Ok?
    requires var far := Distance(lst, st.lst) * flmcdHz / 1_250_000_000;
             IsTime(if lst > st.lst then st.lmt + far else st.lmt - far)
    ensures InRatio(lst - st.lst, flmcdHz, Lst2Lmt(lst, st, flmcdHz).value - st.lmt, 1_250_000_000)
  {
    var delta := Distance(lst, st.lst);
    var far := delta * flmcdHz / 1_250_000_000;
    LstValue(lst, st, flmcdHz, far);
    CutToTick(lst > st.lst, delta, flmcdHz, far, 1_250_000_000);
  }

  /** And the other way round. */
  lemma LmtRate(lmt: int, st: Sync, flmcdHz: int)
    requires flmcdHz > 0 && IsTime(st.lst) && Lmt2Lst(lmt, st, flmcdHz).Ok?
    requires var far := Distance(lmt, st.lmt) * 1_250_000_000 / flmcdHz;
             IsTime(if lmt > st.lmt then st.lst + far else st.lst - far)
    ensures InRatio(lmt - st.lmt, 1_250_000_000, Lmt2Lst(lmt, st, flmcdHz).value - st.lst, flmcdHz)
  {
    var delta := Distance(lmt, st.lmt);
    var far := delta * 1_250_000_000 / flmcdHz;
    ForwardValue(lmt, st, flmcdHz, far);
    CutToTick(lmt > st.lmt, delta, 1_250_000_000, far, flmcdHz);
  }

  /** The distance `far` is the distance `near`, m for every k of it, cut towards zero. */
  predicate InRatio(near: int, k: int, far: int, m: int) {
    if near > 0 then 0 <= near * k - far * m < m else 0 <= far * m - near * k < m
  }

  lemma CutToTick(positive: bool, delta: int, k: int, far: int, m: int)
    requires m > 0 && delta >= 0 && (positive ==> delta > 0) && far == delta * k / m
    ensures InRatio(if positive then delta else -delta, k, if positive then far else -far, m)
  {
    QuotientOf(delta * k, m, far);
    assert -delta * k == -(delta * k) && -far * m == -(far * m);
  }

  lemma LstValue(lst: int, st: Sync, flmcdHz: int, far: int)
    requires 0 < flmcdHz <= MAX_FLMC && Lst2Lmt(lst, st, flmcdHz).Ok?
    requires far == Distance(lst, st.lst) * flmcdHz / SYSTEM_RATE
    requires IsTime(if lst > st.lst then st.lmt + far else st.lmt - far)
    ensures Lst2Lmt(lst, st, flmcdHz).value == if lst > st.lst then st.lmt + far else st.lmt - far
  {
    LstGuardIsTight(flmcdHz);
    MulLess(flmcdHz, 0, Distance(lst, st.lst));
  }

  lemma QuotientOf(x: int, m: int, q: int)
    requires m > 0 && q == x / m
    ensures 0 <= x - q * m < m
  {
    assert x == m * q + x % m;
  }

  // ---- System time -----------------------------------------------------------------------

  function St2Lst(st: Timespec): int { U64(st.sec * LSC_FREQ + U64(st.nsec * LSC_FREQ) / NS_IN_SECOND) }

  function Lst2St(lst: int): Timespec {
    Timespec(lst / LSC_FREQ, lst % LSC_FREQ * (NS_IN_SECOND / LSC_FREQ))
  }

  /** Every system clock count survives the way to system time and back. */
  lemma LstRoundTrip(lst: int)
    requires IsTime(lst)
    ensures St2Lst(Lst2St(lst)) == lst
    ensures var st := Lst2St(lst); 0 <= st.nsec < NS_IN_SECOND
  {
  }

  /** A tick of the system clock is 8 ns. */
  lemma LstIsEightNs(lst: nat)
    ensures var st := Lst2St(lst); st.sec * 1_000_000_000 + st.nsec == 8 * lst
  {
  }

  /** System time is cut to the 8 ns below. */
  lemma StRoundTrip(st: Timespec)
    requires 0 <= st.sec < 147_000_000_000 && 0 <= st.nsec < NS_IN_SECOND
    ensures var back := Lst2St(St2Lst(st));
            back.sec == st.sec && back.nsec <= st.nsec < back.nsec + 8
  {
  }

  // ---- Machine time ----------------------------------------------------------------------

  function Mt2Lmt(mt: int, d: int): int { U64(mt * d) }

  function Lmt2Mt(lmt: int, d: int): int
    requires d > 0
  {
    lmt / d
  }

  /** An atom is d machine clocks: a count of atoms is that of the whole atoms passed. */
  lemma AtomIsClocks(mt: nat, lmt: nat, d: nat)
    requires d > 0
    ensures Mt2Lmt(0, d) == 0 && Mt2Lmt(mt + 1, d) == U64(Mt2Lmt(mt, d) + d)
    ensures Lmt2Mt(lmt, d) * d <= lmt < (Lmt2Mt(lmt, d) + 1) * d
  {
    assert (mt + 1) * d == mt * d + d;
    U64Add(mt * d, d);
    QuotientOf(lmt, d, lmt / d);
    assert (lmt / d + 1) * d == lmt / d * d + d;
  }

  /** Machine time survives, local machine time is cut to the atom below. */
  lemma MtRoundTrip(mt: nat, d: nat)
    requires d > 0 && mt * d < TIME_RANGE
    ensures Lmt2Mt(Mt2Lmt(mt, d), d) == mt
  {
    ModUnique(mt * d, d, mt, 0);
  }

  lemma LmtRoundTrip(lmt: nat, d: nat)
    requires d > 0 && IsTime(lmt)
    ensures Mt2Lmt(Lmt2Mt(lmt, d), d) == lmt - lmt % d
  {
    MulLess(d, 0, lmt / d);
    assert lmt / d * d == lmt - lmt % d;
  }
}
