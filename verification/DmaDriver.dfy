/** The driver's side of a history-buffer transfer: the DMA end interrupt and the reader loop,
    working on the shared `libera_dma_t`.  Every locked region of the program is recorded as one
    step of `DmaProtocol`, so each execution is a run of that state machine. */
module DmaDriver {
  import opened DmaProtocol

  class Dma<A> {
    // libera_dma_t
    const buf: array<A>
    var put: int
    var get: int
    var csize: int
    var remaining: int
    var obSize: int
    var Overrun: bool
    var DMAC_transfer: bool
    var aborting: bool
    var written: int
    // FPGA: what it feeds through the OB FIFO, how much it has fed and given away, its overrun flag
    const fpga: seq<A>
    var supplied: int
    var drawn: int
    var hwOverrun: bool
    // DMA controller: atoms of the current block already moved
    var moved: int
    // reader: destination and atoms taken from the ring
    const userbuf: array<A>
    const signals: bool  // a signal or power-management entry may come
    var OBAtoms: int
    ghost var pc: Pc
    // history
    ghost var states: seq<State<A>>
    ghost var actions: seq<Action>

    ghost predicate Shape()
      reads this
    {
      buf.Length == FIFO_ATOMS && buf != userbuf && userbuf.Length >= |fpga| && 0 <= written <= |fpga|
    }

    ghost function Abs(): State<A>
      requires Shape()
      reads this, buf, userbuf
    {
      State(buf[..], put, get, csize, remaining, obSize, Overrun, DMAC_transfer,
            supplied, drawn, moved, hwOverrun, pc, OBAtoms, userbuf[..written])
    }

    ghost predicate Valid()
      reads this, buf, userbuf
    {
      && Shape()
      && IsRun(fpga, states, actions)
      && states[|actions|] == Abs()
    }

    /** Binds the driver to the source of one request and to the reader's buffer. */
    constructor (ring: array<A>, user: array<A>, source: seq<A>, level: int, overrunBit: bool,
                 maySignal: bool)
      requires ring.Length == FIFO_ATOMS && ring != user && user.Length >= |source| > 0
      requires 0 <= level <= Min(|source|, OB_CAPACITY) && (overrunBit ==> level > 0)
      ensures Shape() && buf == ring && userbuf == user && fpga == source && signals == maySignal
      ensures supplied == level && drawn == 0 && hwOverrun == overrunBit
    {
      buf, userbuf, fpga, signals := ring, user, source, maySignal;
      supplied, drawn, hwOverrun := level, 0, overrunBit;
      written := 0;
    }

    ghost method Record(a: Action)
      requires Shape() && IsRun(fpga, states, actions)
      requires Step(fpga, states[|actions|], a, Abs())
      modifies this`states, this`actions
      ensures Valid() && actions == old(actions) + [a] && states == old(states) + [Abs()]
    {
      states, actions := states + [Abs()], actions + [a];
    }

    // ---- Ring primitives -----------------------------------------------------------------

    function LenDmaFifo(): int
      reads this
    {
      (put + FIFO_ATOMS - get) % FIFO_ATOMS
    }

    function TailDmaFifo(): int
      reads this
    {
      FIFO_ATOMS - put
    }

    method PutToDmaFifo(sizeAtoms: int) returns (r: int)
      modifies this`put
      ensures r == 0 || r == -1
      ensures r == -1 <==> (old(put) + sizeAtoms) % FIFO_ATOMS == get
      ensures put == if r == 0 then (old(put) + sizeAtoms) % FIFO_ATOMS else old(put)
    {
      var index := (put + sizeAtoms) % FIFO_ATOMS;
      if index == get {
        return -1;
      }
      put := index;
      return 0;
    }

    method GetCsize()
      requires Shape()
      modifies this`csize
      ensures Abs() == old(Abs()).(csize := BlockSize(old(Abs())))
    {
      var temp := Min(Min(remaining, BLOCK_ATOMS), Min(TailDmaFifo(), obSize));
      csize := Min(FIFO_ATOMS - 1 - LenDmaFifo(), temp);
    }

    /** Programs the DMA controller with `csize` atoms to `&buf[put]`. */
    method DmaCommand()
      requires Shape()
      modifies this`DMAC_transfer, this`moved
      ensures Abs() == old(Abs()).(transferring := true, moved := 0)
    {
      DMAC_transfer := true;
      moved := 0;
    }

    method ReadStatus()
      requires Shape()
      modifies this`obSize
      ensures Abs() == old(Abs()).(obSize := Level(old(Abs())))
    {
      obSize := supplied - drawn;
    }

    method RefreshStatus()
      requires Shape()
      modifies this`obSize, this`Overrun
      ensures Abs() == old(Abs()).(obSize := Level(old(Abs())),
                                   overrun := old(Abs()).overrun || old(Abs()).hwOverrun)
    {
      ReadStatus();
      if hwOverrun {
        Overrun := true;
      }
    }

    // ---- Hardware and interrupt ----------------------------------------------------------

    method AccountBlock()
      requires Shape()
      modifies this`obSize, this`Overrun, this`remaining, this`put, this`moved
      ensures Abs() == Account(old(Abs())).(transferring := DMAC_transfer)
    {
      RefreshStatus();
      remaining := remaining - csize;
      moved := 0;
      var _ := PutToDmaFifo(csize);
    }

    /** What the end interrupt does to the structure, whichever block has ended: it never looks
        whether this transfer has started one. */
    method AnyEnd()
      requires Shape()
      modifies this`obSize, this`Overrun, this`remaining, this`put, this`csize, this`DMAC_transfer, this`moved
      ensures Shape() && Abs() == EndInterrupt(old(Abs()))
    {
      AccountBlock();
      GetCsize();
      if csize > 0 {
        DmaCommand();
      } else {
        DMAC_transfer := false;
      }
    }

    /** The DMA end interrupt. */
    method DmaInterrupt()
      requires Valid() && CanEnd(Abs())
      modifies this`obSize, this`Overrun, this`remaining, this`put, this`csize,
               this`DMAC_transfer, this`moved, this`states, this`actions
      ensures Valid() && Abs() == EndInterrupt(old(Abs()))
      ensures actions == old(actions) + [DmaEnd] && states == old(states) + [Abs()]
    {
      AnyEnd();
      Record(DmaEnd);
    }

    /** One atom from the OB FIFO to its slot. */
    method MoveAtom()
      requires Shape() && BeatInBounds(fpga, Abs())
      modifies this`drawn, this`moved, buf
      ensures Shape() && Abs() == Beat(fpga, old(Abs()))
    {
      ghost var before := buf[..];
      buf[put + moved] := fpga[drawn];
      assert buf[..] == before[put + moved := fpga[drawn]];
      drawn, moved := drawn + 1, moved + 1;
    }

    lemma BeatIsSafe()
      requires Valid() && CanBeat(Abs())
      ensures BeatInBounds(fpga, Abs())
    {
      RunInv(fpga, states, actions, |actions|);
      BeatInv(fpga, Abs());
    }

    method DmaBeat()
      requires Valid() && CanBeat(Abs())
      modifies this`drawn, this`moved, this`states, this`actions, buf
      ensures Valid() && BeatInBounds(fpga, old(Abs())) && Abs() == Beat(fpga, old(Abs()))
      ensures actions == old(actions) + [Action.DmaBeat] && states == old(states) + [Abs()]
    {
      BeatIsSafe();
      MoveAtom();
      Record(Action.DmaBeat);
    }

    method FpgaFeeds()
      requires Valid() && CanFill(fpga, Abs())
      modifies this`supplied, this`states, this`actions
      ensures Valid() && Abs() == Fill(old(Abs())) && |actions| == |old(actions)| + 1
    {
      supplied := supplied + 1;
      Record(FpgaFill);
    }

    method FpgaOverruns()
      requires Valid() && CanOverrun(Abs())
      modifies this`hwOverrun, this`states, this`actions
      ensures Valid() && Abs() == old(Abs()).(hwOverrun := true) && |actions| == |old(actions)| + 1
    {
      hwOverrun := true;
      Record(FpgaOverrun);
    }

    /** A block in flight has atoms to come, or has ended. */
    lemma FlightGoesOn()
      requires Valid() && DMAC_transfer
      ensures if moved < csize then CanBeat(Abs()) else CanEnd(Abs())
    {
      RunInv(fpga, states, actions, |actions|);
    }

    /** Any number of hardware steps and end interrupts while the reader stands still. */
    method Interfere()
      requires Valid()
      modifies this`supplied, this`drawn, this`hwOverrun, this`obSize, this`Overrun, this`remaining, this`put,
               this`csize, this`DMAC_transfer, this`moved, this`states, this`actions, buf
      ensures Valid() && ReaderKept(old(Abs()), Abs())
      ensures |old(actions)| <= |actions|
    {
      var n: nat := *;
      while n > 0
        invariant Valid() && ReaderKept(old(Abs()), Abs())
        invariant |old(actions)| <= |actions|
      {
        HardwareStep();
        n := n - 1;
      }
    }

    method HardwareStep()
      requires Valid()
      modifies this`supplied, this`drawn, this`hwOverrun, this`obSize, this`Overrun, this`remaining, this`put,
               this`csize, this`DMAC_transfer, this`moved, this`states, this`actions, buf
      ensures Valid() && ReaderKept(old(Abs()), Abs())
      ensures |old(actions)| <= |actions|
      ensures old(DMAC_transfer && pc == Head && put == get) ==> |old(actions)| < |actions|
    {
      var level := supplied - drawn;
      var pick: int := *;
      if pick == 0 && supplied < |fpga| && level < OB_CAPACITY {
        FpgaFeeds();
      } else if pick == 1 && !hwOverrun && level > 0 {
        FpgaOverruns();
      } else if DMAC_transfer {
        FlightGoesOn();
        if moved < csize {
          DmaBeat();
        } else {
          DmaInterrupt();
        }
      }
    }

    // ---- Reader --------------------------------------------------------------------------

    /** The reader's program counter advances at the end of a locked region. */
    ghost method Advance(next: Pc)
      requires Shape() && IsRun(fpga, states, actions) && CanRead(states[|actions|])
      requires states[|actions|].pc.Copying? ==>
                 states[|actions|].pc.left > 0 && 0 <= states[|actions|].get < |states[|actions|].ring|
      requires Abs().(pc := next) == Read(fpga, states[|actions|])
      modifies this`pc, this`states, this`actions
      ensures Valid() && Abs() == old(Abs()).(pc := next)
      ensures actions == old(actions) + [ReaderStep] && states == old(states) + [Abs()]
    {
      pc := next;
      Record(ReaderStep);
    }

    /** One turn of the synchronisation loop, up to the delay. */
    method PollStatus(waitCount: nat) returns (expired: bool)
      requires Valid() && NoDataYet(Abs())
      requires pc == Starting(waitCount) || pc == Syncing(waitCount)
      modifies this`obSize, this`Overrun, this`states, this`actions, this`pc
      ensures Valid() && expired == (waitCount > HZ)
      ensures pc == if expired then Done(NoData)
                    else if old(pc).Starting? then Starting(waitCount + 1) else Syncing(waitCount + 1)
      ensures |actions| == |old(actions)| + 1
    {
      RefreshStatus();
      expired := waitCount > HZ;
      Advance(if expired then Done(NoData)
              else if pc.Starting? then Starting(waitCount + 1) else Syncing(waitCount + 1));
    }

    /** OB FIFO synchronisation: polls until data, overrun or a timeout. */
    method ObFifoSync() returns (ok: bool)
      requires Valid() && !DMAC_transfer && (pc == Starting(0) || pc == Syncing(0))
      modifies this`supplied, this`drawn, this`hwOverrun, this`obSize, this`Overrun, this`remaining, this`put,
               this`csize, this`DMAC_transfer, this`moved, this`states, this`actions, this`pc, buf
      ensures Valid() && |old(actions)| <= |actions|
      ensures ok ==> (if old(pc).Starting? then pc.Starting? else pc.Syncing?) && !NoDataYet(Abs())
      ensures ok ==> !DMAC_transfer
      ensures !ok ==> pc == Done(NoData)
    {
      var waitCount := 0;
      while remaining != 0 && obSize == 0 && !Overrun
        invariant Valid() && !DMAC_transfer && 0 <= waitCount <= HZ + 1
        invariant |old(actions)| <= |actions|
        invariant pc == if old(pc).Starting? then Starting(waitCount) else Syncing(waitCount)
        decreases HZ + 1 - waitCount
      {
        Interfere();
        var expired := PollStatus(waitCount);
        if expired {
          return false;
        }
        waitCount := waitCount + 1;
      }
      return true;
    }

    /** Copies one atom out of the ring; the slot is safe until `get` moves past it. */
    method TakeAtom()
      requires Shape() && pc.Copying? && pc.left > 0 && 0 <= get < FIFO_ATOMS
      requires OBAtoms < |fpga| && !Overrun ==> written < |fpga|
      modifies this`OBAtoms, this`written, this`get, userbuf
      ensures Shape() && Abs() == CopyOne(fpga, old(Abs())).(pc := pc)
    {
      ghost var before := Abs();
      if OBAtoms < |fpga| && !Overrun {
        userbuf[written] := buf[get];
        written := written + 1;
        assert userbuf[..written] == before.dest + [before.ring[before.get]];
      }
      OBAtoms := OBAtoms + 1;
      get := (get + 1) % FIFO_ATOMS;
    }

    lemma ReadyToCopy()
      requires Valid() && pc.Copying?
      ensures pc.left > 0 && 0 <= get < FIFO_ATOMS && (OBAtoms < |fpga| && !Overrun ==> written < |fpga|)
    {
      RunInv(fpga, states, actions, |actions|);
      CopyInv(fpga, Abs());
    }

    method CopyAtom()
      requires Valid() && pc.Copying?
      modifies this`OBAtoms, this`written, this`get, this`pc, this`states, this`actions, userbuf
      ensures Valid() && |actions| == |old(actions)| + 1
      ensures old(pc.left) > 0 && pc == if old(pc.left) == 1 then Emptied else Copying(old(pc.left) - 1)
    {
      ReadyToCopy();
      TakeAtom();
      Advance(if pc.left == 1 then Emptied else Copying(pc.left - 1));
    }

    method FlushDmaFifo()
      modifies this`put, this`get
      ensures put == get == 0
    {
      put, get := 0, 0;
    }

    method ResetDma()
      modifies this`obSize, this`Overrun, this`DMAC_transfer, this`remaining, this`aborting, this`written
      ensures obSize == supplied - drawn && remaining == |fpga| && written == 0
      ensures !Overrun && !DMAC_transfer && !aborting
    {
      obSize := supplied - drawn;
      Overrun, DMAC_transfer, aborting := false, false, false;
      remaining, written := |fpga|, 0;
    }

    method PrepareDma()
      requires Shape() && drawn == 0
      modifies this
      ensures Shape() && !DMAC_transfer && supplied == old(supplied) && hwOverrun == old(hwOverrun)
      ensures pc == Starting(0) && Abs() == Begin(buf[..], |fpga|, supplied, hwOverrun)
    {
      ResetDma();
      FlushDmaFifo();
      csize, moved, OBAtoms, pc := 0, 0, 0, Starting(0);
      assert userbuf[..written] == [];
      GetCsize();
    }

    /** The first locked region of a transfer, whatever an earlier one left in the structure. */
    method Initialise()
      requires Shape() && |fpga| > 0 && drawn == 0
      requires 0 <= supplied <= Min(|fpga|, OB_CAPACITY) && (hwOverrun ==> supplied > 0)
      modifies this
      ensures Valid() && pc == Starting(0) && !DMAC_transfer && |actions| == 0
    {
      PrepareDma();
      states, actions := [Abs()], [];
    }

    /** Sleeps while the ring is empty; a signal or power-management entry ends the transfer. */
    method WaitForData() returns (ok: bool)
      requires Valid() && pc == Head
      modifies this`supplied, this`drawn, this`hwOverrun, this`obSize, this`Overrun, this`remaining, this`put,
               this`csize, this`DMAC_transfer, this`moved, this`states, this`actions, this`pc,
               this`aborting, buf
      ensures Valid() && |old(actions)| <= |actions|
      ensures ok ==> pc == Head && put != get
      ensures !ok ==> pc == Done(Interrupted) && signals && |old(actions)| < |actions|
    {
      while put == get
        invariant Valid() && pc == Head && |old(actions)| <= |actions|
        decreases 204 * |fpga| + HZ + 6 - |actions|
      {
        var signalled: bool := *;
        if signals && signalled {
          aborting := true;
          pc := Done(Interrupted);
          Record(ReaderAbort);
          return false;
        }
        NoDeadlock(fpga, states, actions, |actions|);
        HardwareStep();
        Interfere();
        RunIsBounded(fpga, states, actions);
      }
      return true;
    }

    /** Empties the atoms that were in the ring on entry. */
    method EmptyTheRing(fifoAtoms: nat)
      requires Valid() && pc == Copying(fifoAtoms) && fifoAtoms > 0
      modifies this, buf, userbuf
      ensures Valid() && pc == Emptied && |old(actions)| <= |actions|
    {
      for i := 0 to fifoAtoms
        invariant Valid() && |old(actions)| <= |actions|
        invariant pc == if i < fifoAtoms then Copying(fifoAtoms - i) else Emptied
      {
        CopyAtom();
        Interfere();
      }
    }

    /** Checks at the end of the transfer. */
    method Finish() returns (r: Result)
      requires Shape() && IsRun(fpga, states, actions)
      requires CanRead(states[|actions|]) && !states[|actions|].pc.Copying?
      requires Read(fpga, states[|actions|]) == DmaProtocol.Finish(fpga, Abs())
      modifies this`obSize, this`pc, this`states, this`actions
      ensures Valid() && pc == Done(r) && r != Interrupted && |actions| == |old(actions)| + 1
    {
      ReadStatus();
      r := if !Overrun && obSize != 0 then Residual
           else if !Overrun && OBAtoms != |fpga| then SizeMismatch
           else Complete;
      Advance(Done(r));
    }

    /** Last locked region of a restart; `stop` after an overrun. */
    method StartAgain() returns (r: Result, stop: bool)
      requires Valid() && pc.Syncing? && !DMAC_transfer && !NoDataYet(Abs())
      modifies this`csize, this`DMAC_transfer, this`moved, this`obSize,
               this`pc, this`states, this`actions
      ensures Valid() && |old(actions)| <= |actions|
      ensures if stop then pc == Done(r) && r != Interrupted else pc == LoopTest
    {
      ghost var before := Abs();
      r, stop := Complete, false;
      GetCsize();
      if !(csize > 0) && FIFO_ATOMS - 1 - LenDmaFifo() == 0 {
        Advance(LoopTest);
      } else if !Overrun {
        DmaCommand();
        assert Abs() == StartBlock(before);
        Advance(LoopTest);
      } else {
        r := Finish();
        stop := true;
      }
    }

    /** Starts the transfer again when no block is in flight. */
    method RestartIfNeeded() returns (r: Result, stop: bool)
      requires Valid() && pc == Emptied
      modifies this, buf
      ensures Valid() && |old(actions)| <= |actions|
      ensures if stop then pc == Done(r) && r != Interrupted else pc == LoopTest
    {
      if DMAC_transfer || remaining == 0 {
        Advance(LoopTest);
        return Complete, false;
      }
      Interfere();
      RefreshStatus();
      Advance(Syncing(0));
      Interfere();
      var ok := ObFifoSync();
      if !ok {
        return NoData, true;
      }
      Interfere();
      r, stop := StartAgain();
    }

    /** First half of a round: sleep, then empty the ring. */
    method TakeAtoms() returns (r: Result, stop: bool)
      requires Valid() && pc == Head
      modifies this, buf, userbuf
      ensures Valid() && |old(actions)| < |actions|
      ensures if stop then pc == Done(r) else pc == Emptied
      ensures stop && r == Interrupted ==> signals
    {
      var ok := WaitForData();
      if !ok {
        return Interrupted, true;
      }
      var fifoAtoms := LenDmaFifo();
      if fifoAtoms == 0 {
        Advance(Done(EmptyRing));
        return EmptyRing, true;
      }
      Advance(Copying(fifoAtoms));
      Interfere();
      EmptyTheRing(fifoAtoms);
      return Complete, false;
    }

    method YieldProcessor() returns (signalled: bool)
      requires Valid() && pc == Emptied
      modifies this, buf
      ensures Valid() && |old(actions)| <= |actions|
      ensures pc == if signalled then Done(Interrupted) else Emptied
      ensures signalled ==> signals
    {
      Interfere();
      var pending: bool := *;
      signalled := signals && pending;
      if signalled {
        aborting := true;
        pc := Done(Interrupted);
        Record(ReaderAbort);
      }
    }

    method TestLoop() returns (r: Result, stop: bool)
      requires Valid() && pc == LoopTest
      modifies this`obSize, this`pc, this`states, this`actions
      ensures Valid() && |old(actions)| < |actions|
      ensures if stop then pc == Done(r) && r != Interrupted else pc == Head
    {
      r, stop := Complete, false;
      if remaining != 0 || put != get {
        Advance(Head);
      } else {
        r := Finish();
        stop := true;
      }
    }

    /** One round of the transfer loop. */
    method Round() returns (r: Result, stop: bool)
      requires Valid() && pc == Head
      modifies this, buf, userbuf
      ensures Valid() && |old(actions)| < |actions|
      ensures if stop then pc == Done(r) else pc == Head
      ensures stop && r == Interrupted ==> signals
    {
      r, stop := TakeAtoms();
      if stop {
        return;
      }
      var signalled := YieldProcessor();
      if signalled {
        return Interrupted, true;
      }
      r, stop := RestartIfNeeded();
      if !stop {
        Interfere();
        r, stop := TestLoop();
      }
    }

    /** Starts the first block. */
    method StartFirst()
      requires Valid() && pc.Starting? && !NoDataYet(Abs())
      modifies this`csize, this`DMAC_transfer, this`moved, this`pc, this`states, this`actions
      ensures Valid() && pc == Head && |actions| == |old(actions)| + 1
    {
      GetCsize();
      DmaCommand();
      Advance(Head);
    }

    method TransferLoop() returns (r: Result)
      requires Valid() && pc == Starting(0) && !DMAC_transfer && |actions| == 0
      modifies this, buf, userbuf
      ensures Valid() && pc == Done(r) && (r == Interrupted ==> signals)
    {
      Interfere();
      var ok := ObFifoSync();
      if !ok {
        return NoData;
      }
      Interfere();
      StartFirst();
      var stop := false;
      r := Complete;
      while !stop
        invariant Valid() && if stop then pc == Done(r) else pc == Head
        invariant stop && r == Interrupted ==> signals
        decreases !stop, 204 * |fpga| + HZ + 6 - |actions|
      {
        Interfere();
        r, stop := Round();
        RunIsBounded(fpga, states, actions);
      }
    }

    /** Transfers one request.  Whatever the hardware and the interrupt do between the locked
        regions, the transfer ends, the reader's buffer holds a prefix of the source, and a
        transfer that completes without overrun has delivered all of it. */
    method Transfer() returns (r: Result)
      requires Shape() && |fpga| > 0 && drawn == 0
      requires 0 <= supplied <= Min(|fpga|, OB_CAPACITY) && (hwOverrun ==> supplied > 0)
      modifies this, buf, userbuf
      ensures Valid() && pc == Done(r)
      ensures r == Complete || r == NoData || (r == Interrupted && signals)
      ensures r == NoData ==> remaining > 0
      ensures userbuf[..written] == fpga[..written]
      ensures r == Complete && !Overrun ==> written == |fpga| && userbuf[..|fpga|] == fpga
      ensures !Overrun ==> written == OBAtoms
      ensures forall j :: FirstOverrun(states, j) ==> written == states[j].obAtoms
      ensures forall j :: 0 <= j < |states| ==> states[j].dest <= userbuf[..written]
    {
      Initialise();
      r := TransferLoop();
      Outcome(fpga, states, actions, |actions|);
      Conservation(fpga, states, actions, |actions|);
      DeliveredIs(fpga, states, actions, |actions|);
      forall j | 0 <= j < |states| ensures states[j].dest <= userbuf[..written] {
        DeliveryGrows(fpga, states, actions, j, |actions|);
      }
    }
  }

  /** What the hardware and the interrupt leave to the reader alone; without a block in flight
      they only add data to the OB FIFO or raise the overrun bit. */
  ghost predicate ReaderKept<A>(s: State<A>, t: State<A>) {
    && t.pc == s.pc && t.get == s.get && t.obAtoms == s.obAtoms && t.dest == s.dest
    && (!s.transferring ==> t == s.(supplied := t.supplied, hwOverrun := t.hwOverrun))
  }
}
