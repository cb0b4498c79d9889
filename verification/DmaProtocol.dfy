/** The history-buffer DMA transfer as a state machine.

    One read request moves `src`, the atoms the FPGA feeds through its output-buffer (OB)
    FIFO, into a buffer of the reader.  Four parties take steps in any order: the FPGA fills
    the OB FIFO, the DMA controller moves single atoms from there into the ring, the DMA end
    interrupt accounts for a finished block and starts the next one, and the reader empties
    the ring and restarts a stalled transfer.  Each region that the driver protects with
    `dma_spin_lock` is one step. */
module DmaProtocol {

  const FIFO_ATOMS := 4096
  const BLOCK_ATOMS := 128
  const OB_CAPACITY := 255  // largest value of the 8-bit OB size field
  const HZ := 100

  datatype Result =
    | Complete      // every atom accounted for, `written` returned
    | NoData        // -EIO: the OB FIFO stayed empty for too long
    | Interrupted   // -ERESTARTSYS: signal or power-management entry
    | EmptyRing     // -EFAULT: awake with an empty ring
    | Residual      // -EIO: atoms left in the OB FIFO after the transfer
    | SizeMismatch  // -EFAULT: fewer or more atoms passed than requested

  /** Where the reader stands in its loop. */
  datatype Pc =
    | Starting(waits: nat)  // OB FIFO synchronisation before the first block
    | Head                  // loop head, asleep while the ring is empty
    | Copying(left: nat)    // emptying the atoms counted on entry
    | Emptied               // before the restart test
    | Syncing(waits: nat)   // OB FIFO synchronisation before a restarted block
    | LoopTest
    | Done(result: Result)

  datatype State<A> = State(
    // libera_dma_t
    ring: seq<A>, put: int, get: int, csize: int, remaining: int,
    obSize: int, overrun: bool, transferring: bool,
    // FPGA and DMA controller
    supplied: int, drawn: int, moved: int, hwOverrun: bool,
    // reader
    pc: Pc, obAtoms: int, dest: seq<A>)

  datatype Action = FpgaFill | FpgaOverrun | DmaBeat | DmaEnd | ReaderStep | ReaderAbort

  // ---- Ring arithmetic -------------------------------------------------------------------

  function Mask(i: int): int { i % FIFO_ATOMS }

  function Len<A>(s: State<A>): int { Mask(s.put + FIFO_ATOMS - s.get) }

  function Min(a: int, b: int): int { if a < b then a else b }

  /** Size of the next DMA block. */
  function BlockSize<A>(s: State<A>): int {
    Min(FIFO_ATOMS - 1 - Len(s),
        Min(Min(s.remaining, BLOCK_ATOMS), Min(FIFO_ATOMS - s.put, s.obSize)))
  }

  /** It is the largest that the ring, the request, the controller, the linear tail and the OB FIFO
      allow together. */
  lemma BlockIsLargest<A>(s: State<A>, n: int)
    ensures n <= BlockSize(s) <==>
              && Len(s) + n < FIFO_ATOMS && n <= s.remaining && n <= BLOCK_ATOMS
              && s.put + n <= FIFO_ATOMS && n <= s.obSize
  {
  }

  /** Atoms that have been accounted for by end interrupts. */
  function Taken<A>(src: seq<A>, s: State<A>): int { |src| - s.remaining }

  /** Fill level of the OB FIFO, which the status register reports. */
  function Level<A>(s: State<A>): int { s.supplied - s.drawn }

  // ---- Steps of the hardware -------------------------------------------------------------

  ghost predicate CanFill<A>(src: seq<A>, s: State<A>) {
    s.supplied < |src| && Level(s) < OB_CAPACITY
  }

  function Fill<A>(s: State<A>): State<A> { s.(supplied := s.supplied + 1) }

  /** The FPGA never raises the flag while the reader is chasing it through an empty OB FIFO. */
  ghost predicate CanOverrun<A>(s: State<A>) {
    !s.hwOverrun && Level(s) > 0
  }

  ghost predicate CanBeat<A>(s: State<A>) {
    s.transferring && s.moved < s.csize && Level(s) > 0
  }

  /** The DMA controller writes linearly from the address it was given, without wrapping. */
  ghost predicate BeatInBounds<A>(src: seq<A>, s: State<A>) {
    0 <= s.put + s.moved < |s.ring| && 0 <= s.drawn < |src|
  }

  function Beat<A>(src: seq<A>, s: State<A>): State<A>
    requires BeatInBounds(src, s)
  {
    s.(ring := s.ring[s.put + s.moved := src[s.drawn]], drawn := s.drawn + 1, moved := s.moved + 1)
  }

  ghost predicate CanEnd<A>(s: State<A>) { s.transferring && s.moved == s.csize }

  /** The put index moves unless the ring would look empty afterwards. */
  function PutAfter<A>(s: State<A>): int {
    if Mask(s.put + s.csize) == s.get then s.put else Mask(s.put + s.csize)
  }

  function StartBlock<A>(s: State<A>): State<A> {
    s.(csize := BlockSize(s), transferring := true, moved := 0)
  }

  /** First half of the end interrupt: refresh the status and account for the block. */
  function Account<A>(s: State<A>): State<A> {
    s.(obSize := Level(s), overrun := s.overrun || s.hwOverrun,
       remaining := s.remaining - s.csize, put := PutAfter(s), moved := 0, transferring := false)
  }

  /** The end interrupt starts the next block at once when there is something to move. */
  function EndInterrupt<A>(s: State<A>): State<A> {
    var t := Account(s);
    if BlockSize(t) > 0 then StartBlock(t) else t.(csize := BlockSize(t))
  }

  // ---- Steps of the reader ---------------------------------------------------------------

  /** The ring flushed for a transfer of `atomCount` atoms. */
  function Cleared<A>(ring: seq<A>, atomCount: int, supplied: int, hwOverrun: bool): State<A> {
    State(ring, 0, 0, 0, atomCount, supplied, false, false,
          supplied, 0, 0, hwOverrun, Starting(0), 0, [])
  }

  /** The state after the first locked region of a transfer. */
  function Begin<A>(ring: seq<A>, atomCount: int, supplied: int, hwOverrun: bool): State<A> {
    var s := Cleared(ring, atomCount, supplied, hwOverrun);
    s.(csize := BlockSize(s))
  }

  predicate NoDataYet<A>(s: State<A>) { s.remaining != 0 && s.obSize == 0 && !s.overrun }

  /** One turn of the OB FIFO synchronisation loop. */
  function Poll<A>(s: State<A>, waits: nat, next: Pc): State<A> {
    var t := s.(obSize := Level(s), overrun := s.overrun || s.hwOverrun);
    if waits > HZ then t.(pc := Done(NoData)) else t.(pc := next)
  }

  function CopyOne<A>(src: seq<A>, s: State<A>): State<A>
    requires s.pc.Copying? && s.pc.left > 0 && 0 <= s.get < |s.ring|
  {
    s.(dest := if s.obAtoms < |src| && !s.overrun then s.dest + [s.ring[s.get]] else s.dest,
       obAtoms := s.obAtoms + 1,
       get := Mask(s.get + 1),
       pc := if s.pc.left == 1 then Emptied else Copying(s.pc.left - 1))
  }

  /** Restart after synchronisation; a full ring goes back to emptying, an overrun ends it. */
  function Restart<A>(src: seq<A>, s: State<A>): State<A> {
    if BlockSize(s) <= 0 && FIFO_ATOMS - 1 - Len(s) == 0 then
      s.(csize := BlockSize(s), pc := LoopTest)
    else if !s.overrun then
      StartBlock(s).(pc := LoopTest)
    else
      Finish(src, s.(csize := BlockSize(s)))
  }

  function Finish<A>(src: seq<A>, s: State<A>): State<A> {
    var t := s.(obSize := Level(s));
    t.(pc := Done(if !t.overrun && t.obSize != 0 then Residual
                  else if !t.overrun && t.obAtoms != |src| then SizeMismatch
                  else Complete))
  }

  /** The reader is blocked only while it sleeps on an empty ring. */
  predicate CanRead<A>(s: State<A>) {
    !s.pc.Done? && !(s.pc.Head? && s.put == s.get)
  }

  function Read<A>(src: seq<A>, s: State<A>): State<A>
    requires CanRead(s)
    requires s.pc.Copying? ==> s.pc.left > 0 && 0 <= s.get < |s.ring|
  {
    match s.pc
    case Starting(w) =>
      if NoDataYet(s) then Poll(s, w, Starting(w + 1)) else StartBlock(s).(pc := Head)
    case Head =>
      if Len(s) == 0 then s.(pc := Done(EmptyRing)) else s.(pc := Copying(Len(s)))
    case Copying(_) => CopyOne(src, s)
    case Emptied =>
      if !s.transferring && s.remaining != 0
      then s.(obSize := Level(s), overrun := s.overrun || s.hwOverrun, pc := Syncing(0))
      else s.(pc := LoopTest)
    case Syncing(w) =>
      if NoDataYet(s) then Poll(s, w, Syncing(w + 1)) else Restart(src, s)
    case LoopTest =>
      if s.remaining != 0 || s.put != s.get then s.(pc := Head) else Finish(src, s)
  }

  /** A signal is noticed asleep on the empty ring, or after yielding the processor. */
  predicate CanAbort<A>(s: State<A>) {
    (s.pc.Head? && s.put == s.get) || s.pc.Emptied?
  }

  // ---- Runs ------------------------------------------------------------------------------

  ghost predicate Step<A>(src: seq<A>, s: State<A>, a: Action, t: State<A>) {
    match a
    case FpgaFill => CanFill(src, s) && t == Fill(s)
    case FpgaOverrun => CanOverrun(s) && t == s.(hwOverrun := true)
    case DmaBeat => CanBeat(s) && BeatInBounds(src, s) && t == Beat(src, s)
    case DmaEnd => CanEnd(s) && t == EndInterrupt(s)
    case ReaderStep =>
      CanRead(s) && (s.pc.Copying? ==> s.pc.left > 0 && 0 <= s.get < |s.ring|) && t == Read(src, s)
    case ReaderAbort => CanAbort(s) && t == s.(pc := Done(Interrupted))
  }

  ghost predicate IsInitial<A>(src: seq<A>, s: State<A>) {
    && |s.ring| == FIFO_ATOMS && |src| > 0
    && 0 <= s.supplied <= Min(|src|, OB_CAPACITY) && (s.hwOverrun ==> s.supplied > 0)
    && s == Begin(s.ring, |src|, s.supplied, s.hwOverrun)
  }

  ghost predicate IsRun<A>(src: seq<A>, states: seq<State<A>>, actions: seq<Action>) {
    && |states| == |actions| + 1
    && IsInitial(src, states[0])
    && forall i {:trigger actions[i]} | 0 <= i < |actions| :: Step(src, states[i], actions[i], states[i + 1])
  }

  // ---- The invariant ---------------------------------------------------------------------

  /** Ring indices are the atom counters taken modulo the ring size, and the ring holds the
      atoms between them, together with the part of the block in flight that has arrived. */
  ghost predicate RingInv<A>(src: seq<A>, s: State<A>) {
    && |s.ring| == FIFO_ATOMS && |src| > 0
    && 0 <= s.remaining <= |src|
    && 0 <= s.obAtoms <= Taken(src, s)
    && Taken(src, s) - s.obAtoms <= FIFO_ATOMS - 1
    && 0 <= s.moved && s.drawn == Taken(src, s) + s.moved <= s.supplied <= |src|
    && s.get == Mask(s.obAtoms) && s.put == Mask(Taken(src, s))
    && forall j | s.obAtoms <= j < Taken(src, s) + s.moved :: s.ring[Mask(j)] == src[j]
  }

  ghost predicate FlightInv<A>(src: seq<A>, s: State<A>) {
    && Level(s) <= OB_CAPACITY
    && 0 <= s.obSize
    && (s.transferring ==>
          && 0 < s.csize <= BLOCK_ATOMS && s.moved <= s.csize <= s.remaining
          && Taken(src, s) + s.csize <= s.supplied
          && s.put + s.csize <= FIFO_ATOMS
          && Taken(src, s) - s.obAtoms + s.csize <= FIFO_ATOMS - 1)
    && (!s.transferring ==> s.moved == 0 && s.obSize <= Level(s))
  }

  ghost predicate DestInv<A>(src: seq<A>, s: State<A>) {
    && |s.dest| <= s.obAtoms && s.dest <= src
    && (!s.overrun ==> |s.dest| == s.obAtoms)
    && (s.overrun ==> s.hwOverrun)
  }

  ghost predicate PcInv<A>(src: seq<A>, s: State<A>) {
    match s.pc
    case Starting(w) =>
      && w <= HZ + 1 && !s.transferring && s.remaining == |src| && s.obAtoms == 0
      && (s.hwOverrun ==> Level(s) > 0) && (s.overrun ==> s.obSize > 0)
    case Head => Live(src, s) && (s.remaining == 0 ==> s.obAtoms < |src|)
    case Copying(left) => 0 < left <= Taken(src, s) - s.obAtoms
    case Emptied => true
    case Syncing(w) => w <= HZ + 1 && !s.transferring && s.remaining != 0
    case LoopTest => Live(src, s)
    case Done(r) =>
      && (r.Complete? ==> s.overrun || s.obAtoms == |src|)
      && (r.NoData? ==> s.remaining > 0 && !s.transferring)
  }

  /** Either a block is in flight, or the ring holds atoms, or nothing is left to transfer. */
  ghost predicate Live<A>(src: seq<A>, s: State<A>) {
    s.transferring || s.remaining == 0 || s.obAtoms < Taken(src, s)
  }

  ghost predicate Inv<A>(src: seq<A>, s: State<A>) {
    RingInv(src, s) && FlightInv(src, s) && DestInv(src, s) && PcInv(src, s)
    && (s.pc.Done? ==> s.pc.result in {Complete, NoData, Interrupted})
  }

  lemma MaskDistinct(i: int, j: int)
    requires i < j < i + FIFO_ATOMS
    ensures Mask(i) != Mask(j)
  {
  }

  lemma MaskAdd(i: int, k: int)
    ensures Mask(Mask(i) + k) == Mask(i + k)
  {
  }

  lemma MaskDifference(t: int, o: int)
    requires o <= t < o + FIFO_ATOMS
    ensures Mask(Mask(t) + FIFO_ATOMS - Mask(o)) == t - o
    ensures Mask(t) == Mask(o) <==> t == o
  {
  }

  /** The masked index difference is the number of unread atoms. */
  lemma LenIsUnread<A>(src: seq<A>, s: State<A>)
    requires RingInv(src, s)
    ensures Len(s) == Taken(src, s) - s.obAtoms
    ensures s.put == s.get <==> s.obAtoms == Taken(src, s)
  {
    MaskDifference(Taken(src, s), s.obAtoms);
  }

  lemma InitInv<A>(src: seq<A>, s: State<A>)
    requires IsInitial(src, s)
    ensures Inv(src, s)
  {
  }

  lemma FillInv<A>(src: seq<A>, s: State<A>)
    requires Inv(src, s) && CanFill(src, s)
    ensures Inv(src, Fill(s))
  {
  }

  lemma OverrunInv<A>(src: seq<A>, s: State<A>)
    requires Inv(src, s) && CanOverrun(s)
    ensures Inv(src, s.(hwOverrun := true))
  {
  }

  lemma BeatInv<A>(src: seq<A>, s: State<A>)
    requires Inv(src, s) && CanBeat(s)
    ensures BeatInBounds(src, s) && Inv(src, Beat(src, s))
  {
    var k := Taken(src, s) + s.moved;
    var t := Beat(src, s);
    MaskAdd(Taken(src, s), s.moved);
    assert Mask(k) == s.put + s.moved;
    forall j | s.obAtoms <= j < k ensures t.ring[Mask(j)] == src[j] {
      MaskDistinct(j, k);
    }
  }

  /** A finished block always fits: `putToDMA_FIFO` never reports an overflow. */
  lemma NoOverflowAtEnd<A>(src: seq<A>, s: State<A>)
    requires Inv(src, s) && s.transferring
    ensures Mask(s.put + s.csize) != s.get
    ensures PutAfter(s) == Mask(Taken(src, s) + s.csize)
  {
    MaskAdd(Taken(src, s), s.csize);
    MaskDistinct(s.obAtoms, Taken(src, s) + s.csize);
  }

  /** What every started block respects. */
  lemma StartBlockInv<A>(src: seq<A>, s: State<A>)
    requires RingInv(src, s) && !s.transferring && s.moved == 0
    requires 0 <= s.obSize <= Level(s) <= OB_CAPACITY
    requires BlockSize(s) > 0
    ensures RingInv(src, StartBlock(s)) && FlightInv(src, StartBlock(s))
  {
    LenIsUnread(src, s);
  }

  lemma AccountInv<A>(src: seq<A>, s: State<A>)
    requires Inv(src, s) && CanEnd(s)
    ensures RingInv(src, Account(s)) && FlightInv(src, Account(s))
    ensures Account(s).obSize == Level(Account(s))
    ensures Live(src, Account(s))
  {
    NoOverflowAtEnd(src, s);
    assert Taken(src, Account(s)) == Taken(src, s) + s.csize;
  }

  lemma EndInv<A>(src: seq<A>, s: State<A>)
    requires Inv(src, s) && CanEnd(s)
    ensures Inv(src, EndInterrupt(s))
  {
    AccountInv(src, s);
    var t := Account(s);
    EndPcInv(src, s);
    if BlockSize(t) > 0 {
      StartBlockInv(src, t);
    }
  }

  lemma EndPcInv<A>(src: seq<A>, s: State<A>)
    requires Inv(src, s) && CanEnd(s)
    ensures PcInv(src, EndInterrupt(s)) && DestInv(src, EndInterrupt(s))
  {
  }

  lemma CopyRingInv<A>(src: seq<A>, s: State<A>)
    requires RingInv(src, s) && s.obAtoms < Taken(src, s) && s.pc.Copying? && s.pc.left > 0 && 0 <= s.get < |s.ring|
    ensures RingInv(src, CopyOne(src, s)) && s.ring[s.get] == src[s.obAtoms]
  {
    MaskAdd(s.obAtoms, 1);
    assert s.ring[Mask(s.obAtoms)] == src[s.obAtoms];
    var t := CopyOne(src, s);
    assert t.ring == s.ring && t.drawn == s.drawn && Taken(src, t) == Taken(src, s) && t.get == Mask(t.obAtoms);
  }

  lemma CopyInv<A>(src: seq<A>, s: State<A>)
    requires Inv(src, s) && s.pc.Copying?
    ensures s.pc.left > 0 && 0 <= s.get < |s.ring| && Inv(src, CopyOne(src, s))
  {
    CopyRingInv(src, s);
    assert Taken(src, CopyOne(src, s)) == Taken(src, s);
  }

  lemma PollInv<A>(src: seq<A>, s: State<A>)
    requires Inv(src, s) && NoDataYet(s) && (s.pc.Starting? || s.pc.Syncing?)
    ensures Inv(src, Read(src, s))
  {
  }

  lemma StartInv<A>(src: seq<A>, s: State<A>)
    requires Inv(src, s) && !NoDataYet(s) && s.pc.Starting?
    ensures Inv(src, Read(src, s))
  {
    LenIsUnread(src, s);
    StartBlockInv(src, s);
  }

  lemma RestartInv<A>(src: seq<A>, s: State<A>)
    requires Inv(src, s) && !NoDataYet(s) && s.pc.Syncing?
    ensures Inv(src, Read(src, s))
  {
    LenIsUnread(src, s);
    if BlockSize(s) > 0 { StartBlockInv(src, s); }
  }

  lemma ControlInv<A>(src: seq<A>, s: State<A>)
    requires Inv(src, s) && CanRead(s) && (s.pc.Head? || s.pc.Emptied? || s.pc.LoopTest?)
    ensures Inv(src, Read(src, s))
  {
    LenIsUnread(src, s);
  }

  lemma ReadInv<A>(src: seq<A>, s: State<A>)
    requires Inv(src, s) && CanRead(s)
    ensures s.pc.Copying? ==> s.pc.left > 0 && 0 <= s.get < |s.ring|
    ensures Inv(src, Read(src, s))
  {
    if s.pc.Copying? {
      CopyInv(src, s);
    } else if s.pc.Head? || s.pc.Emptied? || s.pc.LoopTest? {
      ControlInv(src, s);
    } else if NoDataYet(s) {
      PollInv(src, s);
    } else if s.pc.Starting? {
      StartInv(src, s);
    } else {
      RestartInv(src, s);
    }
  }

  lemma StepInv<A>(src: seq<A>, s: State<A>, a: Action, t: State<A>)
    requires Inv(src, s) && Step(src, s, a, t)
    ensures Inv(src, t)
  {
    match a
    case FpgaFill => FillInv(src, s);
    case FpgaOverrun => OverrunInv(src, s);
    case DmaBeat => BeatInv(src, s);
    case DmaEnd => EndInv(src, s);
    case ReaderStep => ReadInv(src, s);
    case ReaderAbort =>
  }

  // ---- Safety over every run -------------------------------------------------------------

  lemma {:induction false} RunInv<A>(src: seq<A>, states: seq<State<A>>, actions: seq<Action>, i: nat)
    requires IsRun(src, states, actions) && i < |states|
    ensures Inv(src, states[i])
  {
    if i == 0 {
      InitInv(src, states[0]);
    } else {
      RunInv(src, states, actions, i - 1);
      StepInv(src, states[i - 1], actions[i - 1], states[i]);
    }
  }

  /** The k-th unread slot. */
  function UnreadSlot<A>(s: State<A>, k: int): int { Mask(s.get + k) }

  /** The atoms that the reader has still to take out of the ring, in order. */
  function Unread<A>(s: State<A>): seq<A>
    requires |s.ring| == FIFO_ATOMS
  {
    seq(Len(s), k => s.ring[UnreadSlot(s, k)])
  }

  lemma UnreadIsSource<A>(src: seq<A>, s: State<A>)
    requires RingInv(src, s)
    ensures Unread(s) == src[s.obAtoms..Taken(src, s)]
  {
    LenIsUnread(src, s);
    forall k | 0 <= k < Len(s) ensures s.ring[UnreadSlot(s, k)] == src[s.obAtoms + k] {
      MaskAdd(s.obAtoms, k);
      assert s.ring[Mask(s.obAtoms + k)] == src[s.obAtoms + k];
    }
  }

  /** No atom is lost, duplicated or reordered between the FPGA and the reader. */
  lemma Conservation<A>(src: seq<A>, states: seq<State<A>>, actions: seq<Action>, i: nat)
    requires IsRun(src, states, actions) && i < |states|
    ensures var s := states[i];
            && |s.ring| == FIFO_ATOMS && 0 <= s.remaining <= |src|
            && |src| == s.remaining + |Unread(s)| + s.obAtoms
            && s.dest <= src
            && (!s.overrun ==> s.dest + Unread(s) == src[..|src| - s.remaining])
  {
    RunInv(src, states, actions, i);
    UnreadIsSource(src, states[i]);
  }

  /** Atoms of the block in flight that have reached the ring. */
  function Arrived<A>(s: State<A>): seq<A> {
    if 0 <= s.put && 0 < s.moved && s.put + s.moved <= |s.ring| then s.ring[s.put..s.put + s.moved] else []
  }

  /** Every atom is accounted for, from the FPGA to the reader: delivered, in the ring, arrived with
      the block in flight, or still to be drawn from the OB FIFO. */
  ghost predicate Accounted<A>(src: seq<A>, s: State<A>) {
    && |s.ring| == FIFO_ATOMS && 0 <= s.remaining <= |src|
    && |src| == s.remaining + |Unread(s)| + s.obAtoms
    && s.dest <= src
    && 0 <= s.drawn == Taken(src, s) + s.moved <= |src|
    && (!s.overrun ==> s.dest + Unread(s) + Arrived(s) + src[s.drawn..] == src)
  }

  lemma SlotAhead(t: int, i: int)
    requires 0 <= i && Mask(t) + i < FIFO_ATOMS
    ensures Mask(t + i) == Mask(t) + i
  {
    MaskAdd(t, i);
  }

  lemma ArrivedSlot<A>(src: seq<A>, s: State<A>, i: nat)
    requires RingInv(src, s) && FlightInv(src, s) && i < s.moved
    ensures 0 <= s.put + i < FIFO_ATOMS && s.ring[s.put + i] == src[Taken(src, s) + i]
  {
    var j := Taken(src, s) + i;
    SlotAhead(Taken(src, s), i);
    assert Mask(j) == s.put + i;
    assert s.ring[Mask(j)] == src[j];
  }

  lemma ArrivedIsSource<A>(src: seq<A>, s: State<A>)
    requires RingInv(src, s) && FlightInv(src, s)
    ensures Arrived(s) == src[Taken(src, s)..s.drawn]
  {
    var got, due := Arrived(s), src[Taken(src, s)..s.drawn];
    assert |got| == |due| == s.moved;
    forall i | 0 <= i < |got| ensures got[i] == due[i] { ArrivedSlot(src, s, i); }
  }

  lemma RunIsAccounted<A>(src: seq<A>, states: seq<State<A>>, actions: seq<Action>, i: nat)
    requires IsRun(src, states, actions) && i < |states|
    ensures Accounted(src, states[i])
  {
    var s := states[i];
    RunInv(src, states, actions, i);
    Conservation(src, states, actions, i);
    ArrivedIsSource(src, s);
    var t := Taken(src, s);
    assert src == src[..t] + src[t..s.drawn] + src[s.drawn..];
  }

  ghost predicate BlockSafe<A>(src: seq<A>, s: State<A>) {
    && 0 < s.csize <= BLOCK_ATOMS && s.put + s.csize <= FIFO_ATOMS
    && s.csize - s.moved <= Level(s)
    && (s.moved < s.csize ==> CanBeat(s) && BeatInBounds(src, s))
    && PutAfter(s) == Mask(s.put + s.csize) != s.get
    && forall k | 0 <= k < Len(s) :: !(s.put <= UnreadSlot(s, k) < s.put + s.csize)
  }

  /** A block in flight lies in the linear tail of the ring, clear of every unread slot, and
      the OB FIFO already holds all of it, so that its end never overflows the ring. */
  lemma BlockIsSafe<A>(src: seq<A>, states: seq<State<A>>, actions: seq<Action>, i: nat)
    requires IsRun(src, states, actions) && i < |states| && states[i].transferring
    ensures BlockSafe(src, states[i])
  {
    RunInv(src, states, actions, i);
    var s := states[i];
    LenIsUnread(src, s);
    NoOverflowAtEnd(src, s);
    MaskAdd(Taken(src, s), s.csize);
    forall k | 0 <= k < Len(s) ensures !(s.put <= UnreadSlot(s, k) < s.put + s.csize) {
      UnreadIsClear(src, s, k);
    }
  }

  lemma UnreadIsClear<A>(src: seq<A>, s: State<A>, k: int)
    requires Inv(src, s) && s.transferring && 0 <= k < Taken(src, s) - s.obAtoms
    ensures !(s.put <= UnreadSlot(s, k) < s.put + s.csize)
  {
    SlotsApart(s.obAtoms, Taken(src, s), k, s.csize);
  }

  lemma SlotsApart(o: int, t: int, k: int, c: int)
    requires 0 <= k < t - o && t - o + c <= FIFO_ATOMS - 1 && Mask(t) + c <= FIFO_ATOMS
    ensures !(Mask(t) <= Mask(Mask(o) + k) < Mask(t) + c)
  {
    MaskAdd(o, k);
    var m := Mask(o + k) - Mask(t);
    if 0 <= m < c {
      MaskAdd(t, m);
      MaskDistinct(o + k, t + m);
    }
  }

  /** Whenever synchronisation has found data, only a full ring makes the next block empty;
      the FPGA size inconsistency, residual-data and empty-ring exits are never taken; a completed
      transfer without overrun has delivered the whole source; and the I/O error is given only
      while atoms are still to come. */
  lemma Outcome<A>(src: seq<A>, states: seq<State<A>>, actions: seq<Action>, i: nat)
    requires IsRun(src, states, actions) && i < |states|
    ensures var s := states[i];
            && (s.pc.Done? ==> s.pc.result !in {SizeMismatch, Residual, EmptyRing})
            && (s.pc == Done(Complete) && !s.overrun ==> s.dest == src && s.remaining == 0)
            && (s.pc == Done(NoData) ==> s.remaining > 0)
            && (s.pc.Syncing? && s.obSize > 0 && BlockSize(s) <= 0 ==> Len(s) == FIFO_ATOMS - 1)
            && (s.pc.Starting? && !NoDataYet(s) ==> BlockSize(s) > 0)
  {
    RunInv(src, states, actions, i);
    LenIsUnread(src, states[i]);
  }

  // ---- What is delivered -----------------------------------------------------------------

  /** What has been delivered stays; once an overrun is known nothing more is delivered, and no atom is
      taken by the step that learns of it. */
  lemma StepDelivers<A>(src: seq<A>, s: State<A>, a: Action, t: State<A>)
    requires Inv(src, s) && Step(src, s, a, t)
    ensures s.dest <= t.dest
    ensures s.overrun ==> t.overrun && t.dest == s.dest
    ensures !s.overrun && t.overrun ==> t.dest == s.dest && t.obAtoms == s.obAtoms
  {
  }

  lemma RunDelivers<A>(src: seq<A>, states: seq<State<A>>, actions: seq<Action>, n: nat)
    requires IsRun(src, states, actions) && n < |actions|
    ensures states[n].dest <= states[n + 1].dest
    ensures states[n].overrun ==> states[n + 1].overrun && states[n + 1].dest == states[n].dest
    ensures !states[n].overrun && states[n + 1].overrun ==>
              states[n + 1].dest == states[n].dest && states[n + 1].obAtoms == states[n].obAtoms
  {
    RunInv(src, states, actions, n);
    StepDelivers(src, states[n], actions[n], states[n + 1]);
  }

  lemma TakenIsDelivered<A>(src: seq<A>, states: seq<State<A>>, actions: seq<Action>, i: nat)
    requires IsRun(src, states, actions) && i < |states|
    ensures 0 <= states[i].obAtoms <= |src|
    ensures !states[i].overrun ==> states[i].dest == src[..states[i].obAtoms]
  {
    RunInv(src, states, actions, i);
  }

  /** No step takes back what an earlier one has delivered. */
  lemma {:induction false} DeliveryGrows<A>(src: seq<A>, states: seq<State<A>>, actions: seq<Action>, i: nat, j: nat)
    requires IsRun(src, states, actions) && i <= j < |states|
    ensures states[i].dest <= states[j].dest
  {
    if i == j {
    } else {
      DeliveryGrows(src, states, actions, i, j - 1);
      RunDelivers(src, states, actions, j - 1);
    }
  }

  /** The driver learns of an overrun in this state. */
  predicate FirstOverrun<A>(states: seq<State<A>>, j: int) {
    0 <= j < |states| && states[j].overrun && forall k :: 0 <= k < j ==> !states[k].overrun
  }

  /** Without an overrun every atom taken is delivered; with one, exactly the atoms taken till then. */
  lemma DeliveredIs<A>(src: seq<A>, states: seq<State<A>>, actions: seq<Action>, i: nat)
    requires IsRun(src, states, actions) && i < |states|
    ensures 0 <= states[i].obAtoms <= |src|
    ensures !states[i].overrun ==> states[i].dest == src[..states[i].obAtoms]
    ensures forall j :: 0 <= j <= i && FirstOverrun(states, j) ==>
              0 <= states[j].obAtoms <= |src| && states[i].dest == src[..states[j].obAtoms]
  {
    TakenIsDelivered(src, states, actions, i);
    forall j | 0 <= j <= i && FirstOverrun(states, j)
      ensures 0 <= states[j].obAtoms <= |src| && states[i].dest == src[..states[j].obAtoms]
    {
      OverrunFreezes(src, states, actions, j, i);
    }
  }

  lemma {:induction false} OverrunFreezes<A>(src: seq<A>, states: seq<State<A>>, actions: seq<Action>, j: nat, i: nat)
    requires IsRun(src, states, actions) && FirstOverrun(states, j) && j <= i < |states|
    ensures 0 <= states[j].obAtoms <= |src| && states[i].dest == src[..states[j].obAtoms]
    ensures states[i].overrun
  {
    TakenIsDelivered(src, states, actions, j);
    if i > j {
      OverrunFreezes(src, states, actions, j, i - 1);
      RunDelivers(src, states, actions, i - 1);
    } else {
      assert j > 0;
      TakenIsDelivered(src, states, actions, j - 1);
      RunDelivers(src, states, actions, j - 1);
    }
  }

  // ---- What the driver sees --------------------------------------------------------------

  /** Steps in which the driver reads the status register: a block end, a poll, the restart test. */
  predicate ReadsStatus<A>(s: State<A>, a: Action) {
    a.DmaEnd? || IsEmptyPoll(s, a) || (a.ReaderStep? && s.pc.Emptied? && !s.transferring && s.remaining != 0)
  }

  /** Such a step learns of every overrun raised before and of every atom that has come. */
  lemma StatusTellsOverrun<A>(src: seq<A>, s: State<A>, a: Action, t: State<A>)
    requires Inv(src, s) && Step(src, s, a, t) && ReadsStatus(s, a)
    ensures t.overrun == s.hwOverrun && t.obSize == Level(t)
  {
  }

  /** The reader waits exactly while atoms are still to be moved, none has come, and no overrun is known. */
  lemma WaitsWithoutData<A>(src: seq<A>, s: State<A>, t: State<A>)
    requires Inv(src, s) && Step(src, s, ReaderStep, t) && (s.pc.Starting? || s.pc.Syncing?)
    ensures t.pc.Starting? || t.pc.Syncing? || t.pc == Done(NoData)
            <==> s.remaining > 0 && s.obSize == 0 && !s.overrun
  {
  }

  /** When a block ends the next one is in flight at once, unless nothing is left to move, nothing has
      come, or the ring is full. */
  lemma EndGoesOn<A>(src: seq<A>, s: State<A>)
    requires Inv(src, s) && CanEnd(s)
    ensures var t := EndInterrupt(s);
            t.transferring <==> t.remaining > 0 && Level(t) > 0 && Len(t) < FIFO_ATOMS - 1
  {
    AccountInv(src, s);
    var t := Account(s);
    BlockIsLargest(t, 1);
    assert Len(EndInterrupt(s)) == Len(t);
  }

  /** The last checks: without an overrun the transfer is called complete exactly if nothing is left in the
      OB FIFO and as many atoms were taken as were asked for. */
  lemma FinishTells<A>(src: seq<A>, s: State<A>)
    ensures var r := Finish(src, s).pc.result;
            && (s.overrun ==> r == Complete)
            && (!s.overrun ==>
                  && (r == Complete <==> Level(s) == 0 && s.obAtoms == |src|)
                  && (r == Residual <==> Level(s) != 0))
    ensures Finish(src, s).dest == s.dest
  {
  }

  /** The reader starts no block once it knows of an overrun. */
  lemma NoBlockAfterOverrun<A>(src: seq<A>, s: State<A>, t: State<A>)
    requires Inv(src, s) && Step(src, s, ReaderStep, t) && s.overrun && t.transferring && !s.transferring
    ensures s.pc.Starting?
  {
  }

  // ---- Waiting for data ------------------------------------------------------------------

  predicate IsEmptyPoll<A>(s: State<A>, a: Action) {
    a.ReaderStep? && (s.pc.Starting? || s.pc.Syncing?) && NoDataYet(s)
  }

  /** Polls without data that the reader has made one after the other by the n-th state. */
  function EmptyPolls<A>(states: seq<State<A>>, actions: seq<Action>, n: nat): nat
    requires |states| == |actions| + 1 && n <= |actions|
  {
    if n == 0 then 0
    else if IsEmptyPoll(states[n - 1], actions[n - 1]) then EmptyPolls(states, actions, n - 1) + 1
    else if actions[n - 1].ReaderStep? || actions[n - 1].ReaderAbort? then 0
    else EmptyPolls(states, actions, n - 1)
  }

  predicate HasWaited<A>(s: State<A>, polls: nat) {
    && (s.pc.Starting? || s.pc.Syncing? ==> s.pc.waits == polls)
    && (s.pc == Done(NoData) ==> polls == HZ + 2)
  }

  lemma StepWaits<A>(src: seq<A>, s: State<A>, a: Action, t: State<A>, polls: nat)
    requires Inv(src, s) && Step(src, s, a, t) && HasWaited(s, polls)
    ensures HasWaited(t, if IsEmptyPoll(s, a) then polls + 1
                         else if a.ReaderStep? || a.ReaderAbort? then 0 else polls)
  {
  }

  lemma RunWaits<A>(src: seq<A>, states: seq<State<A>>, actions: seq<Action>, n: nat)
    requires IsRun(src, states, actions) && n < |actions| && HasWaited(states[n], EmptyPolls(states, actions, n))
    ensures HasWaited(states[n + 1], EmptyPolls(states, actions, n + 1))
  {
    RunInv(src, states, actions, n);
    StepWaits(src, states[n], actions[n], states[n + 1], EmptyPolls(states, actions, n));
  }

  lemma {:induction false} WaitsArePolls<A>(src: seq<A>, states: seq<State<A>>, actions: seq<Action>, n: nat)
    requires IsRun(src, states, actions) && n <= |actions|
    ensures HasWaited(states[n], EmptyPolls(states, actions, n))
  {
    if n == 0 {
    } else {
      WaitsArePolls(src, states, actions, n - 1);
      RunWaits(src, states, actions, n - 1);
    }
  }

  /** The I/O error is given after exactly HZ + 2 polls in a row without data. */
  lemma TimeoutIsEarned<A>(src: seq<A>, states: seq<State<A>>, actions: seq<Action>, n: nat)
    requires IsRun(src, states, actions) && n <= |actions| && states[n].pc == Done(NoData)
    ensures EmptyPolls(states, actions, n) == HZ + 2
  {
    WaitsArePolls(src, states, actions, n);
  }

  // ---- Progress --------------------------------------------------------------------------

  /** No reachable state has a sleeping reader and nothing to wake it. */
  lemma NoDeadlock<A>(src: seq<A>, states: seq<State<A>>, actions: seq<Action>, i: nat)
    requires IsRun(src, states, actions) && i < |states| && !states[i].pc.Done?
    ensures exists a, t :: a in {DmaBeat, DmaEnd, ReaderStep} && Step(src, states[i], a, t)
    ensures !CanRead(states[i]) ==> states[i].transferring
  {
    RunInv(src, states, actions, i);
    var s := states[i];
    LenIsUnread(src, s);
    if CanRead(s) {
      ReadInv(src, s);
      assert Step(src, s, ReaderStep, Read(src, s));
    } else if s.moved < s.csize {
      BeatInv(src, s);
      assert Step(src, s, DmaBeat, Beat(src, s));
    } else {
      assert Step(src, s, DmaEnd, EndInterrupt(s));
    }
  }

  function Rank(pc: Pc): int {
    match pc
    case Done(_) => 0
    case Copying(_) => 1
    case Head => 2
    case LoopTest => 3
    case Starting(w) => HZ + 5 - w
    case Syncing(w) => HZ + 5 - w
    case Emptied => HZ + 6
  }

  /** Bounds the number of steps still to come. */
  function Work<A>(src: seq<A>, s: State<A>): int {
    200 * (|src| - s.obAtoms) + (|src| - s.supplied) + (s.remaining - s.moved) + s.remaining
    + s.remaining + (if s.hwOverrun then 0 else 1) + Rank(s.pc)
  }

  lemma ReadWorks<A>(src: seq<A>, s: State<A>)
    requires Inv(src, s) && CanRead(s)
    requires s.pc.Copying? ==> s.pc.left > 0 && 0 <= s.get < |s.ring|
    ensures Work(src, Read(src, s)) < Work(src, s)
  {
  }

  lemma EndWorks<A>(src: seq<A>, s: State<A>)
    requires Inv(src, s) && CanEnd(s)
    ensures Work(src, EndInterrupt(s)) < Work(src, s)
  {
  }

  lemma WorkNonNegative<A>(src: seq<A>, s: State<A>)
    requires Inv(src, s)
    ensures 0 <= Work(src, s)
  {
  }

  lemma StepWorks<A>(src: seq<A>, s: State<A>, a: Action, t: State<A>)
    requires Inv(src, s) && Step(src, s, a, t)
    ensures 0 <= Work(src, t) < Work(src, s)
  {
    StepInv(src, s, a, t);
    WorkNonNegative(src, t);
    match a
    case ReaderStep => ReadWorks(src, s);
    case DmaEnd => EndWorks(src, s);
    case _ =>
  }

  lemma InitWorks<A>(src: seq<A>, s: State<A>)
    requires IsInitial(src, s)
    ensures 0 <= Work(src, s) <= 204 * |src| + HZ + 6
  {
    InitInv(src, s);
    WorkNonNegative(src, s);
  }

  lemma LastStepWorks<A>(src: seq<A>, states: seq<State<A>>, actions: seq<Action>, n: nat)
    requires IsRun(src, states, actions) && 0 < n <= |actions|
    ensures 0 <= Work(src, states[n]) < Work(src, states[n - 1])
  {
    RunInv(src, states, actions, n - 1);
    StepWorks(src, states[n - 1], actions[n - 1], states[n]);
  }

  lemma {:induction false} WorkSinks<A>(src: seq<A>, states: seq<State<A>>, actions: seq<Action>, n: nat)
    requires IsRun(src, states, actions) && n <= |actions|
    ensures 0 <= Work(src, states[n]) <= Work(src, states[0]) - n
  {
    if n == 0 {
      InitWorks(src, states[0]);
    } else {
      WorkSinks(src, states, actions, n - 1);
      LastStepWorks(src, states, actions, n);
    }
  }

  /** Every run is finite: at most about 204 steps an atom, whatever the interleaving. */
  lemma RunIsBounded<A>(src: seq<A>, states: seq<State<A>>, actions: seq<Action>)
    requires IsRun(src, states, actions)
    ensures |actions| + Work(src, states[|actions|]) <= Work(src, states[0]) <= 204 * |src| + HZ + 6
    ensures |actions| <= 204 * |src| + HZ + 6
  {
    InitWorks(src, states[0]);
    WorkSinks(src, states, actions, |actions|);
  }
}
