/** Machine time: setting it, finding an atom's slot in the history buffer, and waiting until the
    requested data is there but not yet overwritten.  Times are unsigned 64-bit. */
module TimeBase {
  import opened Arithmetic
  import opened Wrapping

  const CIRCBUF_ATOMS := 2097152
  const READSYNC_MARGIN := 64

  /** The 64-bit difference read as a signed number. */
  function S64(x: int): int {
    if U64(x) < TIME_RANGE / 2 then U64(x) else U64(x) - TIME_RANGE
  }

  // ---- Setting the time ------------------------------------------------------------------

  /** One set-time operation: the time wanted for a trigger, the phase, and the machine clock
      count, free of any PLL offset, at which the trigger fired. */
  datatype SetOp = SetOp(refTime: int, mcphi: int, base: int)

  /** The whole offset that makes a trigger's stamp read as the time wanted for it. */
  function WholeOffset(refTime: int, mcphi: int, trig: int, offPll: int): int {
    U64(refTime - mcphi - trig + offPll)
  }

  /** The PLL's share of it: what is over a whole number of periods, if there are any. */
  function PllShare(offAll: int, period: int): int {
    if period == 0 then 0 else offAll % period
  }

  class SetTime {
    const d: int    // machine clocks in an atom
    const dfa: int  // atoms in a fast-acquisition period, 0 when unused
    var offAll: int
    var off: int
    var offPll: int

    constructor (atomClocks: int, faAtoms: int)
      requires 0 < atomClocks < WORD_RANGE && 0 <= faAtoms && atomClocks * faAtoms < WORD_RANGE
      ensures Valid() && d == atomClocks && dfa == faAtoms && offAll == 0
    {
      d, dfa, offAll, off, offPll := atomClocks, faAtoms, 0, 0, 0;
    }

    /** The driver's share of the offset is a whole number of periods, the PLL's share less than
        one. */
    ghost predicate Valid()
      reads this
    {
      && d > 0 && 0 <= dfa && d * dfa < WORD_RANGE
      && 0 <= offAll < TIME_RANGE && off + offPll == offAll && 0 <= off && 0 <= offPll
      && (dfa == 0 ==> offPll == 0)
      && (dfa != 0 ==> offPll < d * dfa && off % (d * dfa) == 0)
    }

    /** The raw stamp of an event: the PLL shifts the counter. */
    function RawStamp(base: int): int
      reads this
    {
      U64(base + offPll)
    }

    /** The machine time reported for an event. */
    function Reported(base: int): int
      reads this
    {
      U64(RawStamp(base) + off)
    }

    /** 64-bit remainder by a 32-bit divisor. */
    static method Remainder(x: int, m: int) returns (r: int)
      requires 0 <= x && 0 < m < WORD_RANGE
      ensures r == x % m && 0 <= r < m && r <= x && (x - r) % m == 0
    {
      r := x % m;
      MultipleOf(x, m);
    }

    method SetLmt(refTime: int, mcphi: int, trig: int)
      requires Valid()
      modifies this`offAll, this`off, this`offPll
      ensures Valid() && offAll == WholeOffset(refTime, mcphi, trig, old(offPll))
      ensures offPll == PllShare(offAll, d * dfa) && off == offAll - offPll
    {
      offAll := U64(refTime - mcphi - trig + offPll);
      if dfa != 0 {
        MulSign(d, dfa);
        offPll := Remainder(offAll, d * dfa);
      } else {
        offPll := 0;
      }
      off := offAll - offPll;
    }

    /** A trigger in SET mode is stamped raw and then sets the time. */
    method Apply(op: SetOp)
      requires Valid()
      modifies this`offAll, this`off, this`offPll
      ensures Valid() && offAll == U64(op.refTime - op.mcphi - op.base)
    {
      U64Subtract(op.refTime - op.mcphi + offPll, op.base + offPll);
      SetLmt(op.refTime, op.mcphi, RawStamp(op.base));
    }

    /** Only the last of any series of set-time operations matters: the reported time runs on
        from its reference, and never depends on the offsets set before. */
    method ApplyAll(ops: seq<SetOp>)
      requires Valid() && |ops| > 0
      modifies this`offAll, this`off, this`offPll
      ensures Valid()
      ensures var op := ops[|ops| - 1];
              forall base {:trigger Reported(base)} ::
                Reported(base) == U64(op.refTime - op.mcphi + (base - op.base))
    {
      var i := 0;
      while i < |ops|
        invariant 0 <= i <= |ops| && Valid()
        invariant i > 0 ==>
                    offAll == U64(ops[i - 1].refTime - ops[i - 1].mcphi - ops[i - 1].base)
      {
        Apply(ops[i]);
        i := i + 1;
      }
      ghost var op := ops[|ops| - 1];
      ghost var x := op.refTime - op.mcphi - op.base;
      forall base {:trigger Reported(base)}
        ensures Reported(base) == U64(op.refTime - op.mcphi + (base - op.base))
      {
        ReportedIsShift(base);
        U64Add(x, base);
        assert x + base == op.refTime - op.mcphi + (base - op.base);
      }
    }

    lemma ReportedIsShift(base: int)
      requires Valid()
      ensures Reported(base) == U64(base + offAll)
    {
      U64Add(base + offPll, off);
    }

    /** Setting the time never moves data: the ring slot of an event depends on its raw stamp
        alone, whatever the driver offset. */
    lemma SlotDependsOnRaw(raw: int, hbStart: int)
      requires d > 0
      ensures SlotOfLmt(U64(raw + off), off, hbStart, d) == SlotOfLmt(raw, 0, hbStart, d)
    {
      U64Add(raw + off, d / 2 - (off + hbStart));
      assert U64(U64(raw + off) - (off + hbStart) + d / 2) == U64(raw - hbStart + d / 2);
    }
  }

  // ---- Ring slots ------------------------------------------------------------------------

  /** Slot of the atom at a local machine time. */
  function SlotOfLmt(lmt: int, off: int, hbStart: int, d: int): int
    requires d > 0
  {
    U64(lmt - (off + hbStart) + d / 2) / d % CIRCBUF_ATOMS
  }

  /** Slot of the atom at a machine time, in atoms. */
  function SlotOfMt(mt: int, off: int, hbStart: int, d: int): int
    requires d > 0
  {
    U64(mt - U64(off + hbStart) / d) % CIRCBUF_ATOMS
  }

  /** The slot from quotient q and remainder r of the rounded distance to the buffer's origin. */
  lemma SlotAt(lmt: int, off: int, hbStart: int, d: nat, q: int, r: int)
    requires d > 0 && 0 <= r < d && lmt - (off + hbStart) + d / 2 == d * q + r
    requires 0 <= lmt - (off + hbStart) + d / 2 < TIME_RANGE
    ensures SlotOfLmt(lmt, off, hbStart, d) == q % CIRCBUF_ATOMS
  {
    ModUnique(lmt - (off + hbStart) + d / 2, d, q, r);
  }

  lemma NeighboursDiffer(q: int)
    ensures q % CIRCBUF_ATOMS != (q + 1) % CIRCBUF_ATOMS
  {
  }

  lemma SlotShift(q: int, k: nat)
    ensures (q + k) % CIRCBUF_ATOMS == (q % CIRCBUF_ATOMS + k) % CIRCBUF_ATOMS
  {
  }

  /** After a read of n atoms with decimation dec the position stands exactly n * dec slots further,
      modulo the ring size; the read device counts k = n * dec atoms of d clocks. */
  lemma ReadsTile(mt: nat, n: nat, dec: nat, off: int, hbStart: int, d: nat)
    requires d > 0 && off + hbStart <= d * mt && d * (mt + n * dec) + d / 2 - (off + hbStart) < TIME_RANGE
    ensures SlotOfLmt(d * (mt + n * dec), off, hbStart, d)
            == (SlotOfLmt(d * mt, off, hbStart, d) + n * dec) % CIRCBUF_ATOMS
  {
    PositionsTile(mt, n * dec, off, hbStart, d);
  }

  lemma PositionsTile(mt: nat, k: nat, off: int, hbStart: int, d: nat)
    requires d > 0 && off + hbStart <= d * mt && d * (mt + k) + d / 2 - (off + hbStart) < TIME_RANGE
    ensures SlotOfLmt(d * (mt + k), off, hbStart, d)
            == (SlotOfLmt(d * mt, off, hbStart, d) + k) % CIRCBUF_ATOMS
  {
    var y := d * mt - (off + hbStart) + d / 2;
    var q, r := y / d, y % d;
    Distribute(d, mt, k);
    Distribute(d, q, k);
    MulLess(d, 0, k);
    assert y == d * q + r;
    SlotAt(d * mt, off, hbStart, d, q, r);
    SlotAt(d * (mt + k), off, hbStart, d, q + k, r);
    SlotShift(q, k);
  }

  /** The machine time a read continues from is the request rounded down to whole atoms, so that
      the atoms of the following read tile with the first read exactly when rounding does not cross
      a slot boundary. */
  lemma FirstReadTilesIff(lmt: nat, off: int, hbStart: int, d: nat)
    requires d > 0 && off + hbStart <= lmt - lmt % d
    requires lmt + d / 2 - (off + hbStart) < TIME_RANGE
    ensures SlotOfLmt(lmt - lmt % d, off, hbStart, d) == SlotOfLmt(lmt, off, hbStart, d)
            <==> lmt % d <= (lmt - (off + hbStart) + d / 2) % d
  {
    var y, r := lmt - (off + hbStart) + d / 2, lmt % d;
    var q, w := y / d, y % d;
    assert y == d * q + w;
    SlotAt(lmt, off, hbStart, d, q, w);
    if r <= w {
      SlotAt(lmt - r, off, hbStart, d, q, w - r);
    } else {
      Distribute(d, q, 1);
      SlotAt(lmt - r, off, hbStart, d, q - 1, w - r + d);
      NeighboursDiffer(q - 1);
    }
  }

  /** The slot computed from machine time agrees with the one from local machine time exactly when
      the origin of the history buffer is at most half an atom past an atom boundary. */
  lemma SlotFormsAgreeIff(mt: nat, off: nat, hbStart: nat, d: nat)
    requires d > 0 && off + hbStart <= d * mt && d * mt + d / 2 < TIME_RANGE
    ensures SlotOfMt(mt, off, hbStart, d) == SlotOfLmt(d * mt, off, hbStart, d)
            <==> (off + hbStart) % d <= d / 2
  {
    var x := off + hbStart;
    var q, r := x / d, x % d;
    assert x == d * q + r;
    MtSlot(mt, off, hbStart, d, q);
    Distribute(d, mt, q);
    if r <= d / 2 {
      SlotAt(d * mt, off, hbStart, d, mt - q, d / 2 - r);
    } else {
      Distribute(d, mt - q, 1);
      SlotAt(d * mt, off, hbStart, d, mt - q - 1, d / 2 - r + d);
      NeighboursDiffer(mt - q - 1);
    }
  }

  lemma MtSlot(mt: nat, off: nat, hbStart: nat, d: nat, q: int)
    requires d > 0 && off + hbStart <= d * mt < TIME_RANGE && q == (off + hbStart) / d
    ensures SlotOfMt(mt, off, hbStart, d) == (mt - q) % CIRCBUF_ATOMS
  {
    assert U64(off + hbStart) == off + hbStart;
    assert 0 <= q <= mt by { QuotientBound(off + hbStart, d, mt); }
    assert mt <= d * mt by {
      MulLess(mt, 1, d);
      Commute(d, mt);
    }
    assert U64(mt - q) == mt - q;
  }

  lemma Commute(a: int, b: int)
    ensures a * b == b * a
  {
  }

  // ---- Waiting for data ------------------------------------------------------------------

  datatype Wait = Ready | TooLate | TooEarly | Interrupted

  /** The oldest data still served lies this far back; computed in 32 bits. */
  function LateLimit(d: int): int { U32(CIRCBUF_ATOMS * d) - U32(CIRCBUF_ATOMS * d) / 10 }

  lemma MarginFits(d: nat)
    ensures 64 * d < WORD_RANGE ==> U32(READSYNC_MARGIN * d) == 64 * d
  {
  }

  /** Nine tenths of the ring, as far as 32 bits hold it, and up to a tick. */
  lemma LateIsNineTenths(age: int, d: int)
    ensures age > LateLimit(d) <==> 10 * (age - 1) >= 9 * U32(CIRCBUF_ATOMS * d)
  {
  }

  class Clock {
    var now: int
    const signals: bool  // a signal may end a sleep

    constructor (time: int, maySignal: bool)
      ensures now == time && signals == maySignal
    {
      now, signals := time, maySignal;
    }

    /** Sleeping lets time pass; a signal may end it. */
    method Sleep() returns (ok: bool)
      modifies this
      ensures now > old(now) && (!ok ==> signals)
    {
      var ticks: int := *;
      now := now + 1 + (if ticks > 0 then ticks else 0);
      var signalled: bool := *;
      ok := !(signals && signalled);
    }

    /** Sleeps until the start of the request lies the margin in the past. */
    method SleepUntil(start: int, margin: int) returns (ok: bool, ctime: int)
      modifies this
      ensures ok ==> ctime == now && ctime - start >= margin
      ensures !ok ==> signals
    {
      ctime := now;
      var deltaEnd := ctime - start - margin;
      while deltaEnd < 0
        invariant ctime == now && deltaEnd == now - start - margin
        decreases -deltaEnd
      {
        ok := Sleep();
        if !ok {
          return;
        }
        ctime := now;
        deltaEnd := ctime - start - margin;
      }
      ok := true;
    }

    /** `wait_lmt`: the request is served when its start is far enough, but not too far, in the
        past. */
    method WaitLmt(ctime0: int, start: int, d: int) returns (w: Wait, ctime: int, slept: bool)
      requires 0 < d < WORD_RANGE && 0 <= start < TIME_RANGE && ctime0 == now
      requires -TIME_RANGE / 2 <= ctime0 - start < TIME_RANGE / 2
      modifies this
      ensures w.TooLate? <==> ctime0 - start > LateLimit(d)
      ensures w.TooLate? <==> 10 * (ctime0 - start - 1) >= 9 * U32(CIRCBUF_ATOMS * d)
      ensures w.Ready? ==> ctime - start >= U32(READSYNC_MARGIN * d)
      ensures w.Ready? && !slept ==> ctime == ctime0 && ctime - start <= LateLimit(d)
      ensures slept ==> ctime0 - start < U32(READSYNC_MARGIN * d)
      ensures ctime0 - start <= LateLimit(d) && ctime0 - start >= U32(READSYNC_MARGIN * d) ==> w.Ready? && !slept
      ensures 64 * d < WORD_RANGE ==> (w.Ready? && !slept <==> 64 * d <= ctime0 - start <= LateLimit(d))
      ensures w.TooEarly? <==> (ctime0 - start <= LateLimit(d)
                                && U32(READSYNC_MARGIN * d) - (ctime0 - start) > U32(5 * CIRCBUF_ATOMS * d))
      ensures w.Interrupted? ==> slept && signals
    {
      LateIsNineTenths(ctime0 - start, d);
      MarginFits(d);
      ctime := ctime0;
      slept := false;
      var deltaStart := S64(ctime - start);
      if deltaStart > LateLimit(d) {
        w := TooLate;
        return;
      }
      var deltaEnd := deltaStart - U32(READSYNC_MARGIN * d);
      if deltaEnd < 0 {
        if -deltaEnd > U32(5 * CIRCBUF_ATOMS * d) {
          w := TooEarly;
          return;
        }
        slept := true;
        var ok;
        ok, ctime := SleepUntil(start, U32(READSYNC_MARGIN * d));
        if !ok {
          w := Interrupted;
          return;
        }
      }
      w := Ready;
    }
  }

  /** The newest atom, up to atom number `newest`, that was written to a slot. */
  function LatestIn(newest: int, slot: int): int {
    newest - (newest - slot) % CIRCBUF_ATOMS
  }

  /** A slot still holds an atom exactly while fewer than a full ring of newer ones exists. */
  lemma SlotHoldsIff(a: int, newest: int)
    requires a <= newest
    ensures LatestIn(newest, a % CIRCBUF_ATOMS) == a <==> newest - a < CIRCBUF_ATOMS
  {
  }

  /** Number of the atom nearest to a time, counted from the history buffer's origin. */
  function AtomAt(time: int, off: int, hbStart: int, d: int): int
    requires d > 0
  {
    (time - (off + hbStart) + d / 2) / d
  }

  /** When the wait ends at once, the slot that the read is told to start from still holds the atom
      of the requested time, however many atoms have been written up to the present: a wrapped
      32-bit limit only rejects more. */
  lemma ServedIsFresh(ctime: int, start: int, off: int, hbStart: int, d: nat, newest: int)
    requires 0 < d < WORD_RANGE && start <= ctime && ctime - start <= LateLimit(d)
    requires 0 <= start - (off + hbStart) + d / 2 && ctime - (off + hbStart) + d / 2 < TIME_RANGE
    requires AtomAt(start, off, hbStart, d) <= newest <= AtomAt(ctime, off, hbStart, d)
    ensures LatestIn(newest, SlotOfLmt(start, off, hbStart, d)) == AtomAt(start, off, hbStart, d)
  {
    var y, z := start - (off + hbStart) + d / 2, ctime - (off + hbStart) + d / 2;
    LimitBound(d);
    AtomDistance(z, y, d, y / d, z / d);
    SlotAt(start, off, hbStart, d, y / d, y % d);
    SlotHoldsIff(y / d, newest);
  }

  /** In atoms: while the ring fits 32 bits, a request whose first atom is among the newest nine tenths is
      not too late, and one that is two atoms or more beyond them is. */
  lemma LateInAtoms(ctime: int, start: int, off: int, hbStart: int, d: nat)
    requires d > 0 && CIRCBUF_ATOMS * d < WORD_RANGE && start <= ctime && 0 <= start - (off + hbStart) + d / 2
    ensures var age := AtomAt(ctime, off, hbStart, d) - AtomAt(start, off, hbStart, d);
            && (10 * (age + 1) <= 9 * CIRCBUF_ATOMS ==> ctime - start <= LateLimit(d))
            && (10 * (age - 1) >= 9 * CIRCBUF_ATOMS ==> ctime - start > LateLimit(d))
  {
    AgeInAtoms(start - (off + hbStart) + d / 2, ctime - (off + hbStart) + d / 2, d);
    AgeDecides(ctime - start, d, AtomAt(ctime, off, hbStart, d) - AtomAt(start, off, hbStart, d));
    LateIsNineTenths(ctime - start, d);
  }

  lemma AgeDecides(age: int, d: nat, k: int)
    requires d > 0 && CIRCBUF_ATOMS * d < WORD_RANGE && d * (k - 1) < age < d * (k + 1)
    ensures 10 * (k + 1) <= 9 * CIRCBUF_ATOMS ==> 10 * (age - 1) < 9 * U32(CIRCBUF_ATOMS * d)
    ensures 10 * (k - 1) >= 9 * CIRCBUF_ATOMS ==> 10 * (age - 1) >= 9 * U32(CIRCBUF_ATOMS * d)
  {
    if 10 * (k + 1) <= 9 * CIRCBUF_ATOMS { TimesPeriod(d, 10 * (k + 1), 9 * CIRCBUF_ATOMS, k + 1); }
    if 10 * (k - 1) >= 9 * CIRCBUF_ATOMS { TimesPeriod(d, 9 * CIRCBUF_ATOMS, 10 * (k - 1), k - 1); }
    assert U32(CIRCBUF_ATOMS * d) == CIRCBUF_ATOMS * d;
  }

  lemma AgeInAtoms(y: int, z: int, d: nat)
    requires d > 0
    ensures d * (z / d - y / d - 1) < z - y < d * (z / d - y / d + 1)
  {
    var a, b := y / d, z / d;
    assert d * a <= y < d * a + d && d * b <= z < d * b + d;
    Distribute(d, b, a);
    Distribute(d, b - a, 1);
  }

  lemma TimesPeriod(d: nat, x: int, y: int, k: int)
    requires x <= y
    ensures d * x <= d * y && d * (10 * k) == 10 * (d * k) && d * (9 * CIRCBUF_ATOMS) == 9 * (CIRCBUF_ATOMS * d)
  {
    MulLess(d, x, y);
  }

  /** The nearest atom: its time is at most half an atom away. */
  lemma NearestAtom(time: int, off: int, hbStart: int, d: int)
    requires d > 0
    ensures var t := off + hbStart + d * AtomAt(time, off, hbStart, d); -d <= 2 * (time - t) <= d
  {
    var y := time - (off + hbStart) + d / 2;
    assert d * (y / d) <= y < d * (y / d) + d;
  }

  /** The atom j places on stands j slots on. */
  lemma SlotOfAtom(start: int, off: int, hbStart: int, d: nat, j: nat)
    requires d > 0 && 0 <= start - (off + hbStart) + d / 2 && start + d * j - (off + hbStart) + d / 2 < TIME_RANGE
    ensures AtomAt(start + d * j, off, hbStart, d) == AtomAt(start, off, hbStart, d) + j
    ensures SlotOfLmt(start + d * j, off, hbStart, d) == (AtomAt(start, off, hbStart, d) + j) % CIRCBUF_ATOMS
  {
    var y := start - (off + hbStart) + d / 2;
    var q, r := y / d, y % d;
    assert y == d * q + r;
    Distribute(d, q, j);
    MulLess(d, 0, j);
    ModUnique(y + d * j, d, q + j, r);
    SlotAt(start + d * j, off, hbStart, d, q + j, r);
  }

  /** Atom j of a request is in its slot, neither still to come nor overwritten. */
  predicate InItsSlot(start: int, j: nat, off: int, hbStart: int, d: nat, newest: int)
    requires d > 0
  {
    LatestIn(newest, SlotOfLmt(start + d * j, off, hbStart, d)) == AtomAt(start, off, hbStart, d) + j
  }

  lemma InItsSlotIff(start: int, j: nat, off: int, hbStart: int, d: nat, newest: int)
    requires d > 0 && 0 <= start - (off + hbStart) + d / 2 && start + d * j - (off + hbStart) + d / 2 < TIME_RANGE
    requires newest < AtomAt(start, off, hbStart, d) + CIRCBUF_ATOMS
    ensures InItsSlot(start, j, off, hbStart, d, newest) <==> AtomAt(start, off, hbStart, d) + j <= newest
  {
    SlotOfAtom(start, off, hbStart, d, j);
    LatestIff(AtomAt(start, off, hbStart, d) + j, newest);
  }

  /** A request that is served at once finds all its atoms exactly if the last one has been written by
      then; for a longer one the slots still hold atoms of the turn before. */
  lemma RequestIsFreshIff(ctime: int, start: int, n: nat, off: int, hbStart: int, d: nat, newest: int)
    requires 0 < d < WORD_RANGE && start <= ctime && ctime - start <= LateLimit(d) && 0 < n
    requires 0 <= start - (off + hbStart) + d / 2 && ctime - (off + hbStart) + d / 2 < TIME_RANGE
    requires start + d * n - (off + hbStart) + d / 2 < TIME_RANGE
    requires AtomAt(start, off, hbStart, d) <= newest <= AtomAt(ctime, off, hbStart, d)
    ensures (forall j: nat :: j < n ==> InItsSlot(start, j, off, hbStart, d, newest))
            <==> AtomAt(start, off, hbStart, d) + n - 1 <= newest
  {
    AtMostARing(ctime, start, off, hbStart, d);
    forall j: nat | j < n
      ensures InItsSlot(start, j, off, hbStart, d, newest) <==> AtomAt(start, off, hbStart, d) + j <= newest
    {
      MulLess(d, j, n);
      InItsSlotIff(start, j, off, hbStart, d, newest);
    }
    var last: nat := n - 1;
    assert InItsSlot(start, last, off, hbStart, d, newest) <==> AtomAt(start, off, hbStart, d) + last <= newest;
  }

  lemma MarginIsInTime(d: nat)
    requires CIRCBUF_ATOMS * d < WORD_RANGE
    ensures U32(READSYNC_MARGIN * d) == READSYNC_MARGIN * d <= LateLimit(d)
  {
  }

  /** The wait looks at the start only: a request that starts the margin ago is served at once, and
      two atoms more than the margin are already too many. */
  lemma LongRequestIsServed(start: int, off: int, hbStart: int, d: nat)
    requires d > 0 && CIRCBUF_ATOMS * d < WORD_RANGE && 0 <= start - (off + hbStart) + d / 2
    requires start + d * (READSYNC_MARGIN + 2) - (off + hbStart) + d / 2 < TIME_RANGE
    ensures var ctime, n := start + READSYNC_MARGIN * d, READSYNC_MARGIN + 2;
            && U32(READSYNC_MARGIN * d) <= ctime - start <= LateLimit(d)
            && !InItsSlot(start, n - 1, off, hbStart, d, AtomAt(ctime, off, hbStart, d))
  {
    var ctime := start + READSYNC_MARGIN * d;
    MarginIsInTime(d);
    SlotOfAtom(start, off, hbStart, d, READSYNC_MARGIN);
    InItsSlotIff(start, READSYNC_MARGIN + 1, off, hbStart, d, AtomAt(ctime, off, hbStart, d));
  }

  lemma AtMostARing(ctime: int, start: int, off: int, hbStart: int, d: nat)
    requires 0 < d < WORD_RANGE && start <= ctime && ctime - start <= LateLimit(d)
    requires 0 <= start - (off + hbStart) + d / 2
    ensures 0 <= AtomAt(ctime, off, hbStart, d) - AtomAt(start, off, hbStart, d) < CIRCBUF_ATOMS
  {
    var y, z := start - (off + hbStart) + d / 2, ctime - (off + hbStart) + d / 2;
    LimitBound(d);
    AtomDistance(z, y, d, y / d, z / d);
  }

  lemma LatestIff(b: int, newest: int)
    requires newest < b + CIRCBUF_ATOMS
    ensures LatestIn(newest, b % CIRCBUF_ATOMS) == b <==> b <= newest
  {
  }

  lemma AtomDistance(ctime: nat, start: nat, d: nat, a: int, b: int)
    requires d > 0 && a == start / d && b == ctime / d
    requires start <= ctime && ctime - start < d * (CIRCBUF_ATOMS - 1)
    ensures 0 <= b - a < CIRCBUF_ATOMS
  {
    assert d * b <= ctime < d * b + d && d * a <= start < d * a + d;
    Distribute(d, b, a);
    if b < a {
      MulLess(d, b + 1, a);
      Distribute(d, b, 1);
    } else if b - a >= CIRCBUF_ATOMS {
      MulLess(d, CIRCBUF_ATOMS, b - a);
    }
  }

  lemma LimitBound(d: nat)
    requires d > 0
    ensures LateLimit(d) < d * (CIRCBUF_ATOMS - 1)
  {
  }
}
