/** The read loop that copies bunch-by-bunch samples out of the DMA ring, round by round, as the
    program makes it, and exactly which rounds deliver what is due. */
module BunchRead {
  import opened Arithmetic
  import opened Decimation

  const FIFO_ATOMS := 16384
  const RING_SAMPLES := FIFO_ATOMS * ATOM_SAMPLES
  /** The ring and the foreign samples right behind it that a copy can reach. */
  const MEMORY_SAMPLES := RING_SAMPLES + ATOM_SAMPLES

  /** A linear copy from atom `get` stays inside the ring exactly when the request does not end in
      a partial atom right behind the ring's last one, which the wrap test overlooks. */
  lemma LinearCopyInBounds(get: nat, toCopy: nat)
    requires get < FIFO_ATOMS && !(get + toCopy / ATOM_SAMPLES > FIFO_ATOMS)
    ensures ATOM_SAMPLES * get + toCopy <= RING_SAMPLES
            <==> !(get + toCopy / ATOM_SAMPLES == FIFO_ATOMS && toCopy % ATOM_SAMPLES != 0)
  {
  }

  /** The atoms fetched for samples from..to cover the request and waste less than one atom at
      either end. */
  lemma AtomsCoverRequest(from: nat, to: nat)
    requires from < to
    ensures var fromAt, toAt := from / ATOM_SAMPLES, to / ATOM_SAMPLES + (if to % ATOM_SAMPLES != 0 then 1 else 0);
            var skip := from - fromAt * ATOM_SAMPLES;
            && 0 <= skip < ATOM_SAMPLES && toAt > fromAt
            && to - from <= ATOM_SAMPLES * (toAt - fromAt) - skip < to - from + ATOM_SAMPLES
  {
  }

  // ---- One round -------------------------------------------------------------------------

  /** What a round works with: the read position, the number of samples to copy, the decimation
      and the samples to skip before the next one due. */
  datatype Round = Round(get: nat, skip: nat, toCopy: nat, dec: nat, off: nat)

  /** Samples are skipped only before the first round, and one atom of the ring stays free. */
  predicate IsRound(r: Round) {
    && r.get < FIFO_ATOMS && r.skip < ATOM_SAMPLES && (r.skip > 0 ==> r.get == 0)
    && r.skip + r.toCopy <= RING_SAMPLES - ATOM_SAMPLES
    && r.dec > 0 && (r.dec == 1 ==> r.off == 0)
  }

  function Begin(r: Round): nat { ATOM_SAMPLES * r.get + r.skip }

  /** Samples from the read position to the end of the ring. */
  function Tail(r: Round): int { RING_SAMPLES - Begin(r) }

  predicate Wraps(r: Round) { r.get + r.toCopy / ATOM_SAMPLES > FIFO_ATOMS }

  /** Size of the first copy of a wrapped round, as the program computes it; a negative one makes the
      unsigned copy run away. */
  function TailSize(r: Round): int { Tail(r) - r.off }

  predicate RunsAway(r: Round) { Wraps(r) && TailSize(r) < 0 }

  lemma WrapsFarEnough(r: Round)
    requires IsRound(r)
    ensures Wraps(r) ==> r.skip == 0 && 4 <= Tail(r) && Tail(r) + 4 <= r.toCopy
    ensures !Wraps(r) ==> Begin(r) + r.toCopy <= RING_SAMPLES + 3
  {
  }

  /** The round as the program makes it. */
  function RoundCopy<S>(mem: seq<S>, r: Round): (c: Copied<S>)
    requires |mem| == MEMORY_SAMPLES && IsRound(r) && !RunsAway(r)
    ensures |c.mem| == |mem|
  {
    WrapsFarEnough(r);
    if Wraps(r) then
      CopyIsDecimation(mem, Begin(r), TailSize(r), r.dec, r.off);
      var first := Copy(mem, Begin(r), TailSize(r), r.dec, r.off);
      var second := Copy(first.mem, 0, r.toCopy - TailSize(r), r.dec, first.off);
      Copied(first.out + second.out, second.off, second.mem)
    else Copy(mem, Begin(r), r.toCopy, r.dec, r.off)
  }

  /** The samples of the round, read around the end of the ring. */
  function View<S>(mem: seq<S>, r: Round): (v: seq<S>)
    requires |mem| == MEMORY_SAMPLES && IsRound(r)
    ensures |v| == r.toCopy
  {
    seq(r.toCopy, i requires 0 <= i < r.toCopy => mem[SlotOf(r, i)])
  }

  function SlotOf(r: Round, i: nat): (s: nat)
    requires IsRound(r) && i < r.toCopy
    ensures s < RING_SAMPLES
  {
    if i < Tail(r) then Begin(r) + i else i - Tail(r)
  }

  /** The round delivers the samples due and leaves the offset of the next one. */
  ghost predicate IsRight<S>(mem: seq<S>, r: Round)
    requires |mem| == MEMORY_SAMPLES && IsRound(r)
  {
    !RunsAway(r)
    && RoundCopy(mem, r).out == Decimate(View(mem, r), r.off, r.dec)
    && RoundCopy(mem, r).off == NextOffset(r.toCopy, r.off, r.dec)
  }

  /** The first position from x on at which a sample is due. */
  function DueFrom(x: nat, off: nat, dec: nat): nat
    requires dec > 0
  {
    x + NextOffset(x, off, dec)
  }

  /** The rounds that deliver what is due.  A linear one must not end right before the next sample
      due, and none may be due behind the end of the ring.  A wrapped one without an offset must not
      end right before the next sample due either; with an offset, the samples due must all come
      before the offset's length from the end of the ring, and the next one behind the round. */
  predicate Sound(r: Round)
    requires IsRound(r)
  {
    if !Wraps(r) then
      && !BoundaryHit(r.toCopy, r.dec, r.off)
      && (r.toCopy > Tail(r) ==> DueFrom(Tail(r), r.off, r.dec) >= r.toCopy)
    else if r.off == 0 then
      !BoundaryHit(r.toCopy - Tail(r), r.dec, NextOffset(Tail(r), 0, r.dec))
    else
      2 * r.off <= Tail(r)
      && DueFrom(if 2 * r.off == Tail(r) then r.off + 1 else TailSize(r), r.off, r.dec) > r.toCopy
  }

  // ---- Sound rounds ----------------------------------------------------------------------

  /** The due samples split at any position. */
  lemma DecimateSplit<S>(s: seq<S>, x: nat, off: nat, dec: nat)
    requires dec > 0 && x <= |s|
    ensures Decimate(s, off, dec) == Decimate(s[..x], off, dec) + Decimate(s[x..], NextOffset(x, off, dec), dec)
    ensures NextOffset(|s|, off, dec) == NextOffset(|s| - x, NextOffset(x, off, dec), dec)
  {
    assert s == s[..x] + s[x..];
    DecimateConcat(s[..x], s[x..], off, dec);
  }

  lemma ViewParts<S>(mem: seq<S>, r: Round)
    requires |mem| == MEMORY_SAMPLES && IsRound(r)
    ensures r.toCopy <= Tail(r) ==> View(mem, r) == mem[Begin(r)..Begin(r) + r.toCopy]
    ensures r.toCopy > Tail(r) ==> View(mem, r)[..Tail(r)] == mem[Begin(r)..RING_SAMPLES]
    ensures r.toCopy > Tail(r) ==> View(mem, r)[Tail(r)..] == mem[..r.toCopy - Tail(r)]
  {
  }

  lemma SoundLinear<S>(mem: seq<S>, r: Round)
    requires |mem| == MEMORY_SAMPLES && IsRound(r) && !Wraps(r) && Sound(r)
    ensures IsRight(mem, r)
  {
    WrapsFarEnough(r);
    ViewParts(mem, r);
    CopyIsDecimation(mem, Begin(r), r.toCopy, r.dec, r.off);
    if r.toCopy > Tail(r) {
      assert mem[Begin(r)..Begin(r) + r.toCopy][..Tail(r)] == mem[Begin(r)..RING_SAMPLES];
      SameBefore(mem[Begin(r)..Begin(r) + r.toCopy], View(mem, r), Tail(r), r.off, r.dec);
    }
  }

  /** Decimation does not see what lies behind the last sample due. */
  lemma SameBefore<S>(s: seq<S>, s': seq<S>, x: nat, off: nat, dec: nat)
    requires dec > 0 && |s| == |s'| && x <= |s| && s[..x] == s'[..x] && DueFrom(x, off, dec) >= |s|
    ensures Decimate(s, off, dec) == Decimate(s', off, dec)
  {
    DecimateSplit(s, x, off, dec);
    DecimateSplit(s', x, off, dec);
    NothingDue(s[x..], NextOffset(x, off, dec), dec);
    NothingDue(s'[x..], NextOffset(x, off, dec), dec);
  }

  lemma CopyKeepsFront<S>(mem: seq<S>, b: nat, size: nat, dec: nat, off: nat, n: nat)
    requires CanCopy(mem, b, size, dec, off) && n <= b
    ensures Copy(mem, b, size, dec, off).mem[..n] == mem[..n]
  {
  }

  lemma RightIfJoined<S>(mem: seq<S>, r: Round, first: Copied<S>, second: Copied<S>)
    requires |mem| == MEMORY_SAMPLES && IsRound(r) && Wraps(r) && r.off == 0
    requires CanCopy(mem, Begin(r), Tail(r), r.dec, 0) && first == Copy(mem, Begin(r), Tail(r), r.dec, 0)
    requires Tail(r) <= r.toCopy && CanCopy(first.mem, 0, r.toCopy - Tail(r), r.dec, first.off)
    requires second == Copy(first.mem, 0, r.toCopy - Tail(r), r.dec, first.off)
    requires first.out + second.out == Decimate(View(mem, r), 0, r.dec)
    requires second.off == NextOffset(r.toCopy, 0, r.dec)
    ensures IsRight(mem, r)
  {
    assert TailSize(r) == Tail(r);
    var f, g := PartsOfRound(mem, r);
  }

  lemma RightIfParts<S>(mem: seq<S>, r: Round, first: Copied<S>, second: Copied<S>)
    requires |mem| == MEMORY_SAMPLES && IsRound(r) && Wraps(r) && r.off == 0
    requires CanCopy(mem, Begin(r), Tail(r), r.dec, 0) && first == Copy(mem, Begin(r), Tail(r), r.dec, 0)
    requires Tail(r) <= r.toCopy && CanCopy(first.mem, 0, r.toCopy - Tail(r), r.dec, first.off)
    requires second == Copy(first.mem, 0, r.toCopy - Tail(r), r.dec, first.off)
    requires first.out == Decimate(View(mem, r)[..Tail(r)], 0, r.dec) && first.off == NextOffset(Tail(r), 0, r.dec)
    requires second.out == Decimate(View(mem, r)[Tail(r)..], first.off, r.dec)
    requires second.off == NextOffset(r.toCopy - Tail(r), first.off, r.dec)
    ensures IsRight(mem, r)
  {
    Joined(View(mem, r), Tail(r), r.dec, first.out, first.off, second.out, second.off);
    RightIfJoined(mem, r, first, second);
  }

  /** The first copy of a wrapped round without an offset. */
  lemma FirstCopy<S>(mem: seq<S>, r: Round) returns (first: Copied<S>)
    requires |mem| == MEMORY_SAMPLES && IsRound(r) && Wraps(r) && r.off == 0
    ensures CanCopy(mem, Begin(r), Tail(r), r.dec, 0) && first == Copy(mem, Begin(r), Tail(r), r.dec, 0)
    ensures Tail(r) < r.toCopy && first.out == Decimate(View(mem, r)[..Tail(r)], 0, r.dec)
    ensures first.off == NextOffset(Tail(r), 0, r.dec) && (r.dec == 1 ==> first.off == 0)
    ensures first.mem[0..r.toCopy - Tail(r)] == View(mem, r)[Tail(r)..]
  {
    WrapsFarEnough(r);
    ViewParts(mem, r);
    var n := r.toCopy - Tail(r);
    first := Copy(mem, Begin(r), Tail(r), r.dec, 0);
    CopyIsDecimation(mem, Begin(r), Tail(r), r.dec, 0);
    CopyKeepsFront(mem, Begin(r), Tail(r), r.dec, 0, n);
    assert first.mem[0..n] == first.mem[..n];
  }

  lemma SecondCopy<S>(first: Copied<S>, n: nat, rest: seq<S>, dec: nat) returns (second: Copied<S>)
    requires CanCopy(first.mem, 0, n, dec, first.off) && !BoundaryHit(n, dec, first.off)
    requires first.mem[0..n] == rest
    ensures second == Copy(first.mem, 0, n, dec, first.off)
    ensures second.out == Decimate(rest, first.off, dec) && second.off == NextOffset(|rest|, first.off, dec)
  {
    second := Copy(first.mem, 0, n, dec, first.off);
    CopyIsDecimation(first.mem, 0, n, dec, first.off);
  }

  lemma SoundAtTheEnd<S>(mem: seq<S>, r: Round)
    requires |mem| == MEMORY_SAMPLES && IsRound(r) && Wraps(r) && r.off == 0 && Sound(r)
    ensures IsRight(mem, r)
  {
    var first := FirstCopy(mem, r);
    var second := SecondCopy(first, r.toCopy - Tail(r), View(mem, r)[Tail(r)..], r.dec);
    RightIfParts(mem, r, first, second);
  }

  lemma Joined<S>(v: seq<S>, x: nat, dec: nat, out1: seq<S>, off1: nat, out2: seq<S>, off2: nat)
    requires dec > 0 && x <= |v|
    requires out1 == Decimate(v[..x], 0, dec) && off1 == NextOffset(x, 0, dec)
    requires out2 == Decimate(v[x..], off1, dec) && off2 == NextOffset(|v[x..]|, off1, dec)
    ensures out1 + out2 == Decimate(v, 0, dec) && off2 == NextOffset(|v|, 0, dec)
  {
    DecimateSplit(v, x, 0, dec);
  }

  lemma SoundWithOffset<S>(mem: seq<S>, r: Round)
    requires |mem| == MEMORY_SAMPLES && IsRound(r) && Wraps(r) && 0 < 2 * r.off < Tail(r) && Sound(r)
    ensures IsRight(mem, r)
  {
    WrapsFarEnough(r);
    var b, t, v := Begin(r), TailSize(r), View(mem, r);
    CopyIsDecimation(mem, b, t, r.dec, r.off);
    assert mem[b..b + t] == v[..t];
    DecimateSplit(v, t, r.off, r.dec);
    NothingDue(v[t..], NextOffset(t, r.off, r.dec), r.dec);
  }

  lemma NothingDue<S>(s: seq<S>, off: nat, dec: nat)
    requires dec > 0 && off >= |s|
    ensures Decimate(s, off, dec) == [] && NextOffset(|s|, off, dec) == off - |s|
  {
  }

  lemma SoundHalfway<S>(mem: seq<S>, r: Round)
    requires |mem| == MEMORY_SAMPLES && IsRound(r) && Wraps(r) && 0 < 2 * r.off == Tail(r) && Sound(r)
    ensures IsRight(mem, r)
  {
    WrapsFarEnough(r);
    var b, o, v := Begin(r), r.off, View(mem, r);
    OneDue(v, o, r.dec);
    assert v[o] == mem[b + o];
  }

  /** With one sample due at the offset and the next one behind the end. */
  lemma OneDue<S>(s: seq<S>, off: nat, dec: nat)
    requires dec > 0 && off < |s|
    ensures DueFrom(off + 1, off, dec) == off + dec
    ensures off + dec >= |s| ==> Decimate(s, off, dec) == [s[off]] && NextOffset(|s|, off, dec) == off + dec - |s|
  {
    assert NextOffset(off + 1, off, dec) == NextOffset(off + 1, off + dec, dec);
  }

  lemma SoundIsRight<S>(mem: seq<S>, r: Round)
    requires |mem| == MEMORY_SAMPLES && IsRound(r) && Sound(r)
    ensures IsRight(mem, r)
  {
    if !Wraps(r) {
      SoundLinear(mem, r);
    } else if r.off == 0 {
      SoundAtTheEnd(mem, r);
    } else if 2 * r.off < Tail(r) {
      SoundWithOffset(mem, r);
    } else {
      SoundHalfway(mem, r);
    }
  }

  // ---- All other rounds ------------------------------------------------------------------

  /** Memory with a single one. */
  function Mark(slot: int): (mem: seq<int>)
    ensures |mem| == MEMORY_SAMPLES
  {
    seq(MEMORY_SAMPLES, i => if i == slot then 1 else 0)
  }

  lemma DueIsDelivered<S>(s: seq<S>, x: nat, off: nat, dec: nat)
    requires dec > 0 && x <= |s| && DueFrom(x, off, dec) < |s|
    ensures s[DueFrom(x, off, dec)] in Decimate(s, off, dec)
  {
    DecimateSplit(s, x, off, dec);
    var rest := Decimate(s[x..], NextOffset(x, off, dec), dec);
    assert rest[0] == s[DueFrom(x, off, dec)];
  }

  /** A copy that does not read the mark delivers no one and leaves the memory as it was. */
  lemma MarkIsMissed(slot: int, b: nat, size: nat, dec: nat, off: nat)
    requires CanCopy(Mark(slot), b, size, dec, off)
    requires Misses(slot, b, size, dec, off)
    ensures 1 !in Copy(Mark(slot), b, size, dec, off).out
    ensures Copy(Mark(slot), b, size, dec, off).mem == Mark(slot)
  {
    var mem := Mark(slot);
    if off <= size {
      var s := mem[b..b + size];
      DecimateTail(s, off, dec);
      DecimateOnly(s[off..], 0, dec);
      assert forall x :: x in s[off..] ==> x == 0;
      assert forall k :: 0 <= k < |Decimate(s, off, dec)| ==> Decimate(s, off, dec)[k] in Decimate(s, off, dec);
    }
  }

  predicate Misses(slot: int, b: nat, size: nat, dec: nat, off: nat) {
    !(b + off <= slot < b + size) && (BoundaryHit(size, dec, off) ==> slot != b + size)
  }

  /** Neither copy of a wrapped round reads the mark. */
  lemma RoundMisses(r: Round, slot: int)
    requires IsRound(r) && Wraps(r) && !RunsAway(r)
    requires Misses(slot, Begin(r), TailSize(r), r.dec, r.off)
    requires Misses(slot, 0, r.toCopy - TailSize(r), r.dec, OffsetAfter(TailSize(r), r.dec, r.off))
    ensures 1 !in RoundCopy(Mark(slot), r).out
  {
    WrapsFarEnough(r);
    CopyIsDecimation(Mark(slot), Begin(r), TailSize(r), r.dec, r.off);
    MarkIsMissed(slot, Begin(r), TailSize(r), r.dec, r.off);
    MarkIsMissed(slot, 0, r.toCopy - TailSize(r), r.dec, OffsetAfter(TailSize(r), r.dec, r.off));
  }

  /** A copy that ends right before the next sample due delivers one sample. */
  lemma BoundaryDelivers<S>(mem: seq<S>, b: nat, size: nat, dec: nat, off: nat)
    requires CanCopy(mem, b, size, dec, off) && BoundaryHit(size, dec, off)
    ensures |Copy(mem, b, size, dec, off).out| == 1
  {
  }

  lemma WrongEndsBeforeDue(r: Round, mem: seq<int>)
    requires IsRound(r) && !Wraps(r) && BoundaryHit(r.toCopy, r.dec, r.off) && |mem| == MEMORY_SAMPLES
    ensures !IsRight(mem, r)
  {
    WrapsFarEnough(r);
    BoundaryDelivers(mem, Begin(r), r.toCopy, r.dec, r.off);
    NothingDue(View(mem, r), r.off, r.dec);
  }

  lemma WrongForeign(r: Round, x: nat)
    requires IsRound(r) && !Wraps(r) && !BoundaryHit(r.toCopy, r.dec, r.off) && r.toCopy > Tail(r)
    requires x == DueFrom(Tail(r), r.off, r.dec) < r.toCopy
    ensures !IsRight(Mark(x - Tail(r)), r)
  {
    WrapsFarEnough(r);
    var mem := Mark(x - Tail(r));
    assert View(mem, r)[x] == 1;
    DueIsDelivered(View(mem, r), Tail(r), r.off, r.dec);
    MarkIsMissed(x - Tail(r), Begin(r), r.toCopy, r.dec, r.off);
  }

  lemma WrongLinear(r: Round) returns (mem: seq<int>)
    requires IsRound(r) && !Wraps(r) && !Sound(r)
    ensures |mem| == MEMORY_SAMPLES && !IsRight(mem, r)
  {
    if BoundaryHit(r.toCopy, r.dec, r.off) {
      mem := Mark(0);
      WrongEndsBeforeDue(r, mem);
    } else {
      var x := DueFrom(Tail(r), r.off, r.dec);
      mem := Mark(x - Tail(r));
      WrongForeign(r, x);
    }
  }

  lemma WrongAtTheEnd(r: Round) returns (mem: seq<int>)
    requires IsRound(r) && Wraps(r) && r.off == 0 && !Sound(r)
    ensures |mem| == MEMORY_SAMPLES && !IsRight(mem, r)
  {
    mem := Mark(0);
    var first := FirstCopy(mem, r);
    WrapsFarEnough(r);
    BoundaryDelivers(first.mem, 0, r.toCopy - Tail(r), r.dec, first.off);
    DecimateSplit(View(mem, r), Tail(r), 0, r.dec);
    NothingDue(View(mem, r)[Tail(r)..], first.off, r.dec);
  }

  /** The offset reaches past the middle of the tail: the first copy delivers nothing, and the
      second misses the first sample due. */
  lemma WrongPastMiddle(r: Round) returns (mem: seq<int>)
    requires IsRound(r) && Wraps(r) && !RunsAway(r) && 2 * r.off > Tail(r)
    ensures |mem| == MEMORY_SAMPLES && !IsRight(mem, r)
  {
    WrapsFarEnough(r);
    var o := r.off;
    mem := Mark(SlotOf(r, o));
    assert View(mem, r)[o] == 1;
    assert NextOffset(o, o, r.dec) == 0;
    DueIsDelivered(View(mem, r), o, o, r.dec);
    RoundMisses(r, SlotOf(r, o));
  }

  /** Before the middle, the next sample due after the first copy is passed over. */
  lemma WrongNextMissed(r: Round, f: nat) returns (mem: seq<int>)
    requires IsRound(r) && Wraps(r) && 0 < 2 * r.off < Tail(r)
    requires f == DueFrom(TailSize(r), r.off, r.dec) < r.toCopy
    ensures |mem| == MEMORY_SAMPLES && !IsRight(mem, r)
  {
    WrapsFarEnough(r);
    mem := Mark(SlotOf(r, f));
    assert View(mem, r)[f] == 1;
    DueIsDelivered(View(mem, r), TailSize(r), r.off, r.dec);
    RoundMisses(r, SlotOf(r, f));
  }

  /** Or the second copy ends right before it. */
  lemma WrongNextTooEarly(r: Round, f: nat) returns (mem: seq<int>)
    requires IsRound(r) && Wraps(r) && 0 < 2 * r.off < Tail(r)
    requires f == DueFrom(TailSize(r), r.off, r.dec) == r.toCopy
    ensures |mem| == MEMORY_SAMPLES && !IsRight(mem, r)
  {
    WrapsFarEnough(r);
    mem := Mark(MEMORY_SAMPLES);
    var t, v := TailSize(r), View(mem, r);
    MarkIsMissed(MEMORY_SAMPLES, Begin(r), t, r.dec, r.off);
    BoundaryDelivers(mem, 0, r.toCopy - t, r.dec, f - t);
    OneMore(mem, r, f);
    assert |RoundCopy(mem, r).out| == |Decimate(v, r.off, r.dec)| + 1;
  }

  lemma OneMore<S>(mem: seq<S>, r: Round, f: nat)
    requires |mem| == MEMORY_SAMPLES && IsRound(r) && Wraps(r) && 0 < 2 * r.off < Tail(r)
    requires f == DueFrom(TailSize(r), r.off, r.dec) == r.toCopy
    ensures CanCopy(mem, Begin(r), TailSize(r), r.dec, r.off)
    ensures Copy(mem, Begin(r), TailSize(r), r.dec, r.off).out == Decimate(View(mem, r), r.off, r.dec)
    ensures Copy(mem, Begin(r), TailSize(r), r.dec, r.off).off == f - TailSize(r)
  {
    WrapsFarEnough(r);
    var t, v := TailSize(r), View(mem, r);
    CopyIsDecimation(mem, Begin(r), t, r.dec, r.off);
    assert v[..t] == mem[Begin(r)..Begin(r) + t];
    DecimateSplit(v, t, r.off, r.dec);
    NothingDue(v[t..], f - t, r.dec);
  }

  lemma WrongBeforeMiddle(r: Round) returns (mem: seq<int>)
    requires IsRound(r) && Wraps(r) && 0 < 2 * r.off < Tail(r) && !Sound(r)
    ensures |mem| == MEMORY_SAMPLES && !IsRight(mem, r)
  {
    var f := DueFrom(TailSize(r), r.off, r.dec);
    if f < r.toCopy {
      mem := WrongNextMissed(r, f);
    } else {
      mem := WrongNextTooEarly(r, f);
    }
  }

  lemma WrongHalfwayMissed(r: Round, f: nat)
    requires IsRound(r) && Wraps(r) && 0 < 2 * r.off == Tail(r) && f == r.off + r.dec < r.toCopy
    ensures !IsRight(Mark(SlotOf(r, f)), r)
  {
    WrapsFarEnough(r);
    var mem := Mark(SlotOf(r, f));
    assert View(mem, r)[f] == 1;
    OneDue(View(mem, r), r.off, r.dec);
    DueIsDelivered(View(mem, r), r.off + 1, r.off, r.dec);
    RoundMisses(r, SlotOf(r, f));
  }

  lemma WrongHalfwayTooEarly(r: Round, mem: seq<int>)
    requires IsRound(r) && Wraps(r) && 0 < 2 * r.off == Tail(r) && r.off + r.dec == r.toCopy
    requires |mem| == MEMORY_SAMPLES
    ensures !IsRight(mem, r)
  {
    WrapsFarEnough(r);
    var first := Copy(mem, Begin(r), r.off, r.dec, r.off);
    BoundaryDelivers(mem, Begin(r), r.off, r.dec, r.off);
    BoundaryDelivers(first.mem, 0, r.toCopy - r.off, r.dec, r.dec);
    OneDue(View(mem, r), r.off, r.dec);
  }

  lemma WrongHalfway(r: Round) returns (mem: seq<int>)
    requires IsRound(r) && Wraps(r) && 0 < 2 * r.off == Tail(r) && !Sound(r)
    ensures |mem| == MEMORY_SAMPLES && !IsRight(mem, r)
  {
    WrapsFarEnough(r);
    var f := r.off + r.dec;
    OneDue(seq(r.toCopy, _ => 0), r.off, r.dec);
    if f < r.toCopy {
      mem := Mark(SlotOf(r, f));
      WrongHalfwayMissed(r, f);
    } else {
      mem := Mark(0);
      WrongHalfwayTooEarly(r, mem);
    }
  }

  lemma UnsoundIsWrong(r: Round) returns (mem: seq<int>)
    requires IsRound(r) && !Sound(r)
    ensures |mem| == MEMORY_SAMPLES && !IsRight(mem, r)
  {
    if !Wraps(r) {
      mem := WrongLinear(r);
    } else if RunsAway(r) {
      mem := Mark(0);
    } else if r.off == 0 {
      mem := WrongAtTheEnd(r);
    } else if 2 * r.off < Tail(r) {
      mem := WrongBeforeMiddle(r);
    } else if 2 * r.off == Tail(r) {
      mem := WrongHalfway(r);
    } else {
      mem := WrongPastMiddle(r);
    }
  }

  /** A round delivers what is due whatever the samples exactly if it is sound. */
  lemma RoundIsRightIff(r: Round)
    requires IsRound(r)
    ensures (forall mem: seq<int> | |mem| == MEMORY_SAMPLES :: IsRight(mem, r)) <==> Sound(r)
  {
    if Sound(r) {
      forall mem: seq<int> | |mem| == MEMORY_SAMPLES ensures IsRight(mem, r) { SoundIsRight(mem, r); }
    } else {
      var mem := UnsoundIsWrong(r);
    }
  }

  // ---- Failing rounds --------------------------------------------------------------------

  /** With an offset of one, the wrapped split passes over a sample. */
  lemma OffsetIsLost()
    ensures var r := Round(16383, 0, 12, 5, 1); IsRound(r) && Wraps(r) && !RunsAway(r) && !Sound(r)
  {
    assert NextOffset(3, 1, 5) == 3;
  }

  /** With an offset beyond the end of the ring, the first copy runs away. */
  lemma OffsetRunsAway()
    ensures var r := Round(16383, 0, 12, 100, 5); IsRound(r) && RunsAway(r) && !Sound(r)
  {
  }

  /** Seventeen samples from four atoms before the end of the ring: the last one is foreign. */
  lemma ForeignSample()
    ensures var r := Round(16380, 0, 17, 1, 0); IsRound(r) && !Wraps(r) && !Sound(r)
  {
    DecimateByOne(seq(16, _ => 0), 0);
  }

  /** A fifth atom when the first sample of the sixth is due next. */
  lemma EndsBeforeDue()
    ensures var r := Round(4, 0, 4, 5, 4); IsRound(r) && !Wraps(r) && !Sound(r)
  {
  }

  /** And a wrapped round with an offset that is sound all the same. */
  lemma OffsetKept()
    ensures var r := Round(16380, 0, 20, 1000, 8); IsRound(r) && Wraps(r) && Sound(r)
  {
    assert NextOffset(9, 8, 1000) == NextOffset(9, 1008, 1000) == 999;
  }

  // ---- The read loop ---------------------------------------------------------------------

  /** A sound round over the next stretch of a request extends what has been delivered. */
  lemma RoundExtends<S>(mem: seq<S>, r: Round, req: seq<S>, p: nat, user: seq<S>) returns (c: Copied<S>)
    requires |mem| == MEMORY_SAMPLES && IsRound(r) && Sound(r)
    requires p + r.toCopy <= |req| && View(mem, r) == req[p..p + r.toCopy]
    requires user == Decimate(req[..p], 0, r.dec) && r.off == NextOffset(p, 0, r.dec)
    ensures !RunsAway(r) && c == RoundCopy(mem, r)
    ensures user + c.out == Decimate(req[..p + r.toCopy], 0, r.dec)
    ensures c.off == NextOffset(p + r.toCopy, 0, r.dec)
  {
    SoundIsRight(mem, r);
    c := RoundCopy(mem, r);
    var s := req[..p + r.toCopy];
    assert s[..p] == req[..p] && s[p..] == req[p..p + r.toCopy];
    DecimateSplit(s, p, 0, r.dec);
  }

  /** The first copy of a wrapped round, and what is left for the second. */
  function FirstPart<S>(mem: seq<S>, r: Round): (c: Copied<S>)
    requires |mem| == MEMORY_SAMPLES && IsRound(r) && !RunsAway(r)
    ensures |c.mem| == |mem|
  {
    WrapsFarEnough(r);
    if Wraps(r) then Copy(mem, Begin(r), TailSize(r), r.dec, r.off) else Copied([], r.off, mem)
  }

  function RestAt(r: Round): nat { if Wraps(r) then 0 else Begin(r) }

  function RestSize(r: Round): int { if Wraps(r) then r.toCopy - TailSize(r) else r.toCopy }

  lemma TailFits<S>(mem: seq<S>, r: Round)
    requires |mem| == MEMORY_SAMPLES && IsRound(r) && Wraps(r) && !RunsAway(r)
    ensures r.skip == 0 && CanCopy(mem, Begin(r), TailSize(r), r.dec, r.off) && TailSize(r) <= r.toCopy
    ensures FirstPart(mem, r) == Copy(mem, Begin(r), TailSize(r), r.dec, r.off)
  {
    WrapsFarEnough(r);
  }

  lemma PartsOfRound<S>(mem: seq<S>, r: Round) returns (first: Copied<S>, second: Copied<S>)
    requires |mem| == MEMORY_SAMPLES && IsRound(r) && !RunsAway(r)
    ensures first == FirstPart(mem, r) && 0 <= RestSize(r) <= r.toCopy + r.off
    ensures CanCopy(first.mem, RestAt(r), RestSize(r), r.dec, first.off)
    ensures second == Copy(first.mem, RestAt(r), RestSize(r), r.dec, first.off)
    ensures RoundCopy(mem, r) == Copied(first.out + second.out, second.off, second.mem)
    ensures r.dec == 1 ==> second.off == 0
  {
    WrapsFarEnough(r);
    if Wraps(r) { CopyIsDecimation(mem, Begin(r), TailSize(r), r.dec, r.off); }
    first := FirstPart(mem, r);
    second := Copy(first.mem, RestAt(r), RestSize(r), r.dec, first.off);
    CopyIsDecimation(first.mem, RestAt(r), RestSize(r), r.dec, first.off);
  }

  /** Whatever a copy delivers, samples passed and samples to skip keep step with what it delivers. */
  lemma CopyCounts<S>(mem: seq<S>, b: nat, size: nat, dec: nat, off: nat)
    requires CanCopy(mem, b, size, dec, off)
    ensures var c := Copy(mem, b, size, dec, off); size + c.off == off + dec * |c.out|
  {
    if 0 < size && off <= size && !BoundaryHit(size, dec, off) {
      DecimateCount(mem[b..b + size], off, dec);
    }
  }

  /** And so does a round, right or wrong. */
  lemma RoundCounts<S>(mem: seq<S>, r: Round)
    requires |mem| == MEMORY_SAMPLES && IsRound(r) && !RunsAway(r)
    ensures var c := RoundCopy(mem, r); r.toCopy + c.off == r.off + r.dec * |c.out|
  {
    var first, second := PartsOfRound(mem, r);
    if Wraps(r) {
      TailFits(mem, r);
      CopyCounts(mem, Begin(r), TailSize(r), r.dec, r.off);
    }
    CopyCounts(first.mem, RestAt(r), RestSize(r), r.dec, first.off);
    Distribute(r.dec, |first.out|, |second.out|);
  }

  lemma AppendTwice<S>(a: seq<S>, b: seq<S>, c: seq<S>)
    ensures (a + b) + c == a + (b + c)
  {
  }

  lemma RestIsDue<S>(req: seq<S>, p: nat, dec: nat)
    requires dec > 0 && 0 < p <= |req|
    ensures NextOffset(p, 0, dec) < dec
    ensures var n := |Decimate(req[..p], 0, dec)|;
            n <= |Decimate(req, 0, dec)| && Decimate(req, p + NextOffset(p, 0, dec), dec) == Decimate(req, 0, dec)[n..]
  {
    DecimateCount(req[..p], 0, dec);
    DecimateSplit(req, p, 0, dec);
    assert req == req[..p] + req[p..];
    DecimateShift(req[..p], req[p..], p + NextOffset(p, 0, dec), dec);
  }

  lemma AtomsFreed(start: nat, k: nat, get: nat, copiedSamples: int)
    requires start < FIFO_ATOMS && 0 < k < FIFO_ATOMS
    requires || (get == start && copiedSamples == ATOM_SAMPLES * k)
             || (get == 0 && copiedSamples == ATOM_SAMPLES * (k - (FIFO_ATOMS - start)) && start + k >= FIFO_ATOMS)
    ensures copiedSamples >= 0
    ensures (get + copiedSamples / ATOM_SAMPLES) % FIFO_ATOMS == (start + k) % FIFO_ATOMS
  {
    if start + k >= FIFO_ATOMS { assert (start + k) % FIFO_ATOMS == start + k - FIFO_ATOMS; }
  }

  // ---- Batches ---------------------------------------------------------------------------

  /** Slot of the m-th sample from atom `get` on. */
  function RingSlot(get: nat, m: nat): (s: nat)
    requires get < FIFO_ATOMS && m < RING_SAMPLES
    ensures s < RING_SAMPLES
  {
    if ATOM_SAMPLES * get + m < RING_SAMPLES then ATOM_SAMPLES * get + m else ATOM_SAMPLES * get + m - RING_SAMPLES
  }

  lemma SlotsDiffer(get: nat, m: nat, i: nat)
    requires get < FIFO_ATOMS && m < i < RING_SAMPLES
    ensures RingSlot(get, m) != RingSlot(get, i)
  {
  }

  /** Whole atoms, fewer than the ring holds. */
  predicate AreBatches<S>(batches: seq<seq<S>>) {
    forall i :: 0 <= i < |batches| ==>
      |batches[i]| % ATOM_SAMPLES == 0 && ATOM_SAMPLES <= |batches[i]| < RING_SAMPLES
  }

  function BatchRound<S>(batch: seq<S>, get: nat, skip: nat, left: nat, dec: nat, off: nat): Round
    requires skip < ATOM_SAMPLES <= |batch|
  {
    Round(get, skip, if |batch| - skip < left then |batch| - skip else left, dec, off)
  }

  /** The rounds of a read, one for each batch, each starting where the one before has ended. */
  function Plan<S>(batches: seq<seq<S>>, get: nat, skip: nat, left: nat, dec: nat, off: nat): (rs: seq<Round>)
    requires AreBatches(batches) && skip < ATOM_SAMPLES && dec > 0
    ensures |rs| == |batches|
  {
    if batches == [] then []
    else
      var r := BatchRound(batches[0], get, skip, left, dec, off);
      [r] + Plan(batches[1..], (get + |batches[0]| / ATOM_SAMPLES) % FIFO_ATOMS, 0, left - r.toCopy, dec,
                 NextOffset(r.toCopy, off, dec))
  }

  predicate AreSound(rs: seq<Round>) {
    forall i :: 0 <= i < |rs| ==> IsRound(rs[i]) && Sound(rs[i])
  }

  /** What is still to be delivered comes next, after `skip` samples. */
  predicate IsNext<S(==)>(batches: seq<seq<S>>, skip: nat, rest: seq<S>) {
    skip + |rest| <= |Flatten(batches)| && Flatten(batches)[skip..skip + |rest|] == rest
  }

  lemma BatchIsView<S>(mem: seq<S>, r: Round, batches: seq<seq<S>>, rest: seq<S>)
    requires |mem| == MEMORY_SAMPLES && AreBatches(batches) && batches != [] && IsRound(r)
    requires r == BatchRound(batches[0], r.get, r.skip, |rest|, r.dec, r.off)
    requires IsNext(batches, r.skip, rest)
    requires forall m :: 0 <= m < |batches[0]| ==> mem[RingSlot(r.get, m)] == batches[0][m]
    ensures View(mem, r) == rest[..r.toCopy]
  {
    var fed := Flatten(batches);
    assert fed == batches[0] + Flatten(batches[1..]);
    forall i | 0 <= i < r.toCopy ensures View(mem, r)[i] == rest[i] {
      assert SlotOf(r, i) == RingSlot(r.get, r.skip + i);
      assert rest[i] == fed[r.skip..r.skip + |rest|][i] == fed[r.skip + i] == batches[0][r.skip + i];
    }
  }

  lemma BatchesGoOn<S>(batches: seq<seq<S>>, r: Round, rest: seq<S>)
    requires AreBatches(batches) && batches != [] && r.skip < ATOM_SAMPLES
    requires r == BatchRound(batches[0], r.get, r.skip, |rest|, r.dec, r.off)
    requires IsNext(batches, r.skip, rest)
    ensures IsNext(batches[1..], 0, rest[r.toCopy..])
  {
    var fed, later := Flatten(batches), Flatten(batches[1..]);
    assert fed == batches[0] + later;
    if r.toCopy < |rest| {
      var n := |rest| - r.toCopy;
      assert fed[|batches[0]|..][..n] == later[..n];
      assert rest[r.toCopy..] == fed[r.skip..r.skip + |rest|][r.toCopy..] == fed[|batches[0]|..|batches[0]| + n];
    }
  }

  lemma PlanStep<S>(batches: seq<seq<S>>, r: Round, left: nat, plan: seq<Round>) returns (get: nat, rest: nat, off: nat)
    requires AreBatches(batches) && batches != [] && r.skip < ATOM_SAMPLES && r.dec > 0
    requires r == BatchRound(batches[0], r.get, r.skip, left, r.dec, r.off)
    requires plan == Plan(batches, r.get, r.skip, left, r.dec, r.off)
    ensures AreBatches(batches[1..]) && plan[0] == r
    ensures get == (r.get + |batches[0]| / ATOM_SAMPLES) % FIFO_ATOMS && rest == left - r.toCopy
    ensures off == NextOffset(r.toCopy, r.off, r.dec)
    ensures plan[1..] == Plan(batches[1..], get, 0, rest, r.dec, off)
  {
    get, rest := (r.get + |batches[0]| / ATOM_SAMPLES) % FIFO_ATOMS, left - r.toCopy;
    off := NextOffset(r.toCopy, r.off, r.dec);
  }

  lemma NextOffsetOfRound<S>(req: seq<S>, p: nat, r: Round)
    requires r.dec > 0 && p + r.toCopy <= |req| && r.off == NextOffset(p, 0, r.dec)
    ensures NextOffset(p + r.toCopy, 0, r.dec) == NextOffset(r.toCopy, r.off, r.dec)
  {
    DecimateSplit(req[..p + r.toCopy], p, 0, r.dec);
  }

  /** One sample for every dec begun; a request of (c - 1) * dec + 1 gets c. */
  function Yield(want: nat, dec: nat): nat
    requires dec > 0
  {
    if want == 0 then 0 else (want - 1) / dec + 1
  }

  lemma DecimationYields<S>(req: seq<S>, dec: nat)
    requires dec > 0
    ensures |Decimate(req, 0, dec)| == Yield(|req|, dec)
  {
    DecimateCount(req, 0, dec);
    if req != [] {
      var n, off := |Decimate(req, 0, dec)|, NextOffset(|req|, 0, dec);
      Distribute(dec, n, 1);
      ModUnique(|req| - 1, dec, n - 1, dec - 1 - off);
    }
  }

  /** The state of one read: the ring, the request, and how far it has got. */
  class Reader<S> {
    const ring: array<S>
    const dec: nat
    const want: nat  // samples to process
    var get: nat
    var smplOffset: nat
    var decOffset: nat
    var processed: nat
    var copied: nat
    var user: seq<S>

    constructor (buffer: array<S>, decimation: nat, samples: nat, skip: nat)
      requires buffer.Length == MEMORY_SAMPLES && decimation > 0 && skip < ATOM_SAMPLES
      ensures ring == buffer && dec == decimation && want == samples && smplOffset == skip && get == 0
      ensures Ready() && forall req: seq<S> :: |req| == samples ==> Valid(req)
    {
      ring, dec, want := buffer, decimation, samples;
      get, smplOffset, decOffset, processed, copied, user := 0, skip, 0, 0, 0, [];
    }

    predicate Ready()
      reads this
    {
      && ring.Length == MEMORY_SAMPLES && dec > 0 && (dec == 1 ==> decOffset == 0)
      && get < FIFO_ATOMS && smplOffset < ATOM_SAMPLES && (smplOffset > 0 ==> get == 0)
      && processed <= want && copied == |user| && processed + decOffset == dec * copied
    }

    /** What has been delivered is the decimation of what has been processed. */
    ghost predicate Valid(req: seq<S>)
      reads this
    {
      && Ready() && |req| == want
      && user == Decimate(req[..processed], 0, dec)
      && decOffset == NextOffset(processed, 0, dec)
    }

    /** The stored file position, `processed + decOffset` samples on, is dec samples on for every
        sample delivered; if all rounds were right, it is the next sample due. */
    lemma PositionIsNextDue(req: seq<S>)
      requires Ready()
      ensures processed + decOffset == dec * copied
      ensures Valid(req) && processed > 0 ==>
                decOffset < dec && copied <= |Decimate(req, 0, dec)|
                && Decimate(req, processed + decOffset, dec) == Decimate(req, 0, dec)[copied..]
    {
      if Valid(req) && processed > 0 { RestIsDue(req, processed, dec); }
    }

    /** The round made when k atoms are in the ring. */
    function Next(k: nat): (r: Round)
      requires Ready() && 0 < k < FIFO_ATOMS
      reads this
      ensures IsRound(r)
    {
      var avail := ATOM_SAMPLES * k - smplOffset;
      Round(get, smplOffset, if avail < want - processed then avail else want - processed, dec, decOffset)
    }

    /** The k atoms in the ring are the next ones of the request. */
    ghost predicate Loaded(req: seq<S>, k: nat)
      requires Ready() && |req| == want && 0 < k < FIFO_ATOMS
      reads this, ring
    {
      View(ring[..], Next(k)) == req[processed..processed + Next(k).toCopy]
    }

    /** One copy of n samples at the read position. */
    method CopyStretch(n: nat, ghost c: Copied<S>)
      requires CanCopy(ring[..], ATOM_SAMPLES * get + smplOffset, n, dec, decOffset)
      requires c == Copy(ring[..], ATOM_SAMPLES * get + smplOffset, n, dec, decOffset)
      requires copied == |user|
      modifies this`processed, this`copied, this`user, this`decOffset, ring
      ensures ring[..] == c.mem && decOffset == c.off && user == old(user) + c.out
      ensures processed == old(processed) + n && copied == |user|
    {
      var out, m, d := CopyBufferToUser(ring, ATOM_SAMPLES * get + smplOffset, n, dec, decOffset);
      assert Copied(out, d, ring[..]) == c;
      user := user + out;
      copied := copied + m;
      decOffset := d;
      processed := processed + n;
    }

    /** The first copy of a wrapped round; toCopy samples are left, linear from slot 0. */
    method CopyTail(k: nat, ghost c: Copied<S>) returns (toCopy: nat, copiedSamples: int)
      requires Ready() && 0 < k < FIFO_ATOMS && Wraps(Next(k)) && !RunsAway(Next(k))
      requires c == FirstPart(ring[..], Next(k))
      modifies this`processed, this`copied, this`user, this`decOffset, this`get, this`smplOffset, ring
      ensures ring[..] == c.mem && decOffset == c.off && user == old(user) + c.out
      ensures toCopy == RestSize(old(Next(k))) && processed + toCopy == old(processed + Next(k).toCopy)
      ensures get == smplOffset == 0 && copied == |user|
      ensures copiedSamples == ATOM_SAMPLES * (k - (FIFO_ATOMS - old(get)))
    {
      TailFits(ring[..], Next(k));
      var tail := ATOM_SAMPLES * (FIFO_ATOMS - get);
      var tailSize := tail - (smplOffset + decOffset);
      toCopy := Next(k).toCopy - tailSize;
      copiedSamples := ATOM_SAMPLES * k - tail;
      assert tailSize == TailSize(Next(k)) && ATOM_SAMPLES * get + smplOffset == Begin(Next(k));
      CopyStretch(tailSize, c);
      get, smplOffset := 0, 0;
    }

    /** The first copy, if the round wraps; toCopy samples are left, linear from the read position. */
    method CopyFirst(k: nat, ghost c: Copied<S>) returns (toCopy: nat, copiedSamples: int)
      requires Ready() && 0 < k < FIFO_ATOMS && !RunsAway(Next(k))
      requires c == FirstPart(ring[..], Next(k))
      modifies this`processed, this`copied, this`user, this`decOffset, this`get, this`smplOffset, ring
      ensures ring[..] == c.mem && decOffset == c.off && user == old(user) + c.out
      ensures toCopy == RestSize(old(Next(k))) && ATOM_SAMPLES * get + smplOffset == RestAt(old(Next(k)))
      ensures processed + toCopy == old(processed + Next(k).toCopy) && copied == |user|
      ensures if Wraps(old(Next(k))) then get == 0 && copiedSamples == ATOM_SAMPLES * (k - (FIFO_ATOMS - old(get)))
              else get == old(get) && copiedSamples == ATOM_SAMPLES * k
    {
      copiedSamples := ATOM_SAMPLES * k;
      toCopy := if copiedSamples - smplOffset < want - processed
                then copiedSamples - smplOffset else want - processed;
      if get + toCopy / ATOM_SAMPLES > FIFO_ATOMS {
        toCopy, copiedSamples := CopyTail(k, c);
      }
    }

    /** Both copies of a round. */
    method CopyBoth(k: nat, ghost first: Copied<S>, ghost second: Copied<S>) returns (copiedSamples: int)
      requires Ready() && 0 < k < FIFO_ATOMS && !RunsAway(Next(k))
      requires first == FirstPart(ring[..], Next(k))
      requires 0 <= RestSize(Next(k)) && CanCopy(first.mem, RestAt(Next(k)), RestSize(Next(k)), dec, first.off)
      requires second == Copy(first.mem, RestAt(Next(k)), RestSize(Next(k)), dec, first.off)
      modifies this`processed, this`copied, this`user, this`decOffset, this`get, this`smplOffset, ring
      ensures ring[..] == second.mem && decOffset == second.off && user == old(user) + first.out + second.out
      ensures processed == old(processed + Next(k).toCopy) && copied == |user|
      ensures if Wraps(old(Next(k))) then get == 0 && copiedSamples == ATOM_SAMPLES * (k - (FIFO_ATOMS - old(get)))
              else get == old(get) && copiedSamples == ATOM_SAMPLES * k
    {
      var toCopy;
      toCopy, copiedSamples := CopyFirst(k, first);
      CopyStretch(toCopy, second);
    }

    /** Gives the atoms copied back to the ring. */
    method FreeAtoms(copiedSamples: nat)
      modifies this`get, this`smplOffset
      ensures smplOffset == 0 && get == (old(get) + copiedSamples / ATOM_SAMPLES) % FIFO_ATOMS
    {
      smplOffset := 0;
      get := (get + copiedSamples / ATOM_SAMPLES) % FIFO_ATOMS;
    }

    /** Both copies of a round, and the atoms freed; c is what the round does. */
    method CopyAndFree(k: nat, ghost c: Copied<S>)
      requires Ready() && 0 < k < FIFO_ATOMS && !RunsAway(Next(k))
      requires c == RoundCopy(ring[..], Next(k))
      modifies this`processed, this`copied, this`user, this`decOffset, this`get, this`smplOffset, ring
      ensures ring[..] == c.mem && decOffset == c.off && user == old(user) + c.out && copied == |user|
      ensures processed == old(processed + Next(k).toCopy) && (dec == 1 ==> decOffset == 0)
      ensures smplOffset == 0 && get == (old(get) + k) % FIFO_ATOMS
    {
      ghost var first, second := PartsOfRound(ring[..], Next(k));
      ghost var start, given := get, user;
      var copiedSamples := CopyBoth(k, first, second);
      AppendTwice(given, first.out, second.out);
      AtomsFreed(start, k, get, copiedSamples);
      FreeAtoms(copiedSamples);
    }

    /** One round of the loop, with k atoms in the ring.  It delivers and leaves what the round as
        written does, and the file position keeps step with what is delivered. */
    method CopyRound(k: nat)
      requires Ready() && 0 < k < FIFO_ATOMS && !RunsAway(Next(k))
      modifies this`processed, this`copied, this`user, this`decOffset, this`get, this`smplOffset, ring
      ensures var c := RoundCopy(old(ring[..]), old(Next(k)));
              ring[..] == c.mem && decOffset == c.off && user == old(user) + c.out
      ensures processed == old(processed + Next(k).toCopy)
      ensures Ready() && processed + decOffset == dec * copied
      ensures smplOffset == 0 && get == (old(get) + k) % FIFO_ATOMS
    {
      ghost var c := RoundCopy(ring[..], Next(k));
      RoundCounts(ring[..], Next(k));
      Distribute(dec, copied, |c.out|);
      CopyAndFree(k, c);
    }

    /** The loop body over a request: a sound round keeps the read right. */
    method DeliverRound(k: nat, ghost req: seq<S>)
      requires Valid(req) && 0 < k < FIFO_ATOMS && Sound(Next(k)) && Loaded(req, k)
      modifies this`processed, this`copied, this`user, this`decOffset, this`get, this`smplOffset, ring
      ensures Valid(req) && processed == old(processed + Next(k).toCopy)
      ensures smplOffset == 0 && get == (old(get) + k) % FIFO_ATOMS
    {
      ghost var c := RoundExtends(ring[..], Next(k), req, processed, user);
      CopyRound(k);
    }

    /** The atoms that have arrived, in the ring from the read position on. */
    method Feed(batch: seq<S>)
      requires Ready() && |batch| < RING_SAMPLES
      modifies ring
      ensures forall m :: 0 <= m < |batch| ==> ring[RingSlot(get, m)] == batch[m]
    {
      for i := 0 to |batch|
        invariant forall m :: 0 <= m < i ==> ring[RingSlot(get, m)] == batch[m]
      {
        forall m | 0 <= m < i ensures RingSlot(get, m) != RingSlot(get, i) { SlotsDiffer(get, m, i); }
        ring[RingSlot(get, i)] := batch[i];
      }
    }

    /** The next batch arrives: the ring holds what the round is to deliver. */
    method LoadBatch(batches: seq<seq<S>>, ghost req: seq<S>)
      requires Valid(req) && batches != [] && AreBatches(batches)
      requires IsNext(batches, smplOffset, req[processed..])
      modifies ring
      ensures Valid(req) && Loaded(req, |batches[0]| / ATOM_SAMPLES)
    {
      Feed(batches[0]);
      ghost var r, rest := Next(|batches[0]| / ATOM_SAMPLES), req[processed..];
      BatchIsView(ring[..], r, batches, rest);
      assert rest[..r.toCopy] == req[processed..processed + r.toCopy];
    }

    /** One turn of the loop. */
    method DeliverBatch(batches: seq<seq<S>>, ghost r: Round, ghost req: seq<S>)
      requires Valid(req) && batches != [] && AreBatches(batches)
      requires r == Next(|batches[0]| / ATOM_SAMPLES) && Sound(r) && IsNext(batches, smplOffset, req[processed..])
      modifies this`processed, this`copied, this`user, this`decOffset, this`get, this`smplOffset, ring
      ensures Valid(req) && IsNext(batches[1..], 0, req[processed..]) && smplOffset == 0
      ensures processed == old(processed) + r.toCopy
      ensures get == (r.get + |batches[0]| / ATOM_SAMPLES) % FIFO_ATOMS
    {
      ghost var rest := req[processed..];
      BatchesGoOn(batches, r, rest);
      assert rest[r.toCopy..] == req[processed + r.toCopy..];
      LoadBatch(batches, req);
      DeliverRound(|batches[0]| / ATOM_SAMPLES, req);
    }

    /** The rest of the read goes according to plan, and the plan is sound. */
    ghost predicate OnPlan(plan: seq<Round>, rest: seq<seq<S>>, req: seq<S>)
      requires Ready() && |req| == want
      reads this
    {
      && AreBatches(rest) && IsNext(rest, smplOffset, req[processed..]) && AreSound(plan)
      && plan == Plan(rest, get, smplOffset, want - processed, dec, decOffset)
    }

    method TakeTurn(ghost plan: seq<Round>, rest: seq<seq<S>>, ghost req: seq<S>)
      requires Valid(req) && rest != [] && OnPlan(plan, rest, req)
      modifies this`processed, this`copied, this`user, this`decOffset, this`get, this`smplOffset, ring
      ensures Valid(req) && |plan| == |rest| && OnPlan(plan[1..], rest[1..], req)
    {
      ghost var r := Next(|rest[0]| / ATOM_SAMPLES);
      ghost var g, l, o := PlanStep(rest, r, want - processed, plan);
      assert AreSound(plan[1..]);
      NextOffsetOfRound(req, processed, r);
      DeliverBatch(rest, r, req);
      assert get == g && smplOffset == 0 && want - processed == l && decOffset == o;
    }

    /** The whole read: the atoms fetched come in batches of any size, one for each round.  If every
        round is sound, the reader gets the decimation of the samples requested, and the file position
        ends dec samples on for each. */
    method Read(batches: seq<seq<S>>, ghost req: seq<S>)
      requires Valid(req) && processed == 0 && AreBatches(batches) && IsNext(batches, smplOffset, req)
      requires AreSound(Plan(batches, get, smplOffset, want, dec, decOffset))
      modifies this`processed, this`copied, this`user, this`decOffset, this`get, this`smplOffset, ring
      ensures Valid(req) && processed == want && user == Decimate(req, 0, dec)
      ensures copied == Yield(want, dec) && processed + decOffset == dec * copied
    {
      var rest := batches;
      ghost var plan := Plan(batches, get, smplOffset, want, dec, decOffset);
      assert req[0..] == req;
      while rest != []
        invariant Valid(req) && OnPlan(plan, rest, req)
        decreases |rest|
      {
        TakeTurn(plan, rest, req);
        plan, rest := plan[1..], rest[1..];
      }
      assert req[..processed] == req;
      DecimationYields(req, dec);
    }
  }
}
