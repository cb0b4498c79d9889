/** A transfer that starts while the block of an aborted reader is still in flight.  Post-mortem
    acquisition aborts the reader of the history buffer and starts its own transfer on the same
    DMA structure.  Until that transfer programs the controller for the first time, the old block
    goes on drawing atoms from the OB FIFO, and its end interrupt is taken for one of the new
    transfer. */
module DmaStale {
  import opened DmaProtocol

  /** The old block: the slot its next atom goes to and the atoms it has still to move. */
  datatype Pending = Block(at: nat, left: nat) | Gone

  predicate IsPending(b: Pending) { b.Block? && b.at + b.left <= FIFO_ATOMS }

  /** Whoever is aborted while asleep leaves a block in flight. */
  lemma AbortLeavesBlock<A>(src: seq<A>, states: seq<State<A>>, actions: seq<Action>)
    requires IsRun(src, states, actions) && actions != [] && actions[|actions| - 1] == ReaderAbort
    requires states[|actions| - 1].pc.Head?
    ensures var t := states[|actions|];
            && t.pc == Done(Interrupted) && t.transferring && 0 < t.csize <= BLOCK_ATOMS
            && 0 <= t.put && 0 <= t.moved <= t.csize && IsPending(Block(t.put + t.moved, t.csize - t.moved))
  {
    var n := |actions| - 1;
    NoDeadlock(src, states, actions, n);
    assert Step(src, states[n], actions[n], states[n + 1]);
    RunInv(src, states, actions, n + 1);
  }

  // ---- The second transfer ---------------------------------------------------------------

  datatype Shared<A> = Shared(s: State<A>, pending: Pending)

  /** A step of the second transfer itself, an atom moved by the old block, or its end. */
  datatype Event = Own(action: Action) | StaleBeat | StaleEnd

  /** The reader programs the controller anew when it leaves the synchronisation at the start. */
  function PendingAfter<A>(x: Shared<A>, t: State<A>): Pending {
    if x.s.pc.Starting? && t.pc.Starting? then x.pending else Gone
  }

  ghost predicate CanStaleBeat<A>(src: seq<A>, x: Shared<A>) {
    && x.pending.Block? && x.pending.left > 0 && Level(x.s) > 0
    && x.pending.at < |x.s.ring| && 0 <= x.s.drawn < |src|
  }

  function StaleBeatOf<A>(src: seq<A>, x: Shared<A>): Shared<A>
    requires CanStaleBeat(src, x)
  {
    Shared(x.s.(ring := x.s.ring[x.pending.at := src[x.s.drawn]], drawn := x.s.drawn + 1),
           Block(x.pending.at + 1, x.pending.left - 1))
  }

  ghost predicate Happens<A>(src: seq<A>, x: Shared<A>, e: Event, y: Shared<A>) {
    match e
    case Own(a) => Step(src, x.s, a, y.s) && y.pending == PendingAfter(x, y.s)
    case StaleBeat => CanStaleBeat(src, x) && y == StaleBeatOf(src, x)
    case StaleEnd => x.pending.Block? && x.pending.left == 0 && y == Shared(EndInterrupt(x.s), Gone)
  }

  /** The second transfer starts after the DD interrupt, with data in the OB FIFO, whatever the ring
      holds and wherever the old block is. */
  ghost predicate IsSecond<A>(src: seq<A>, xs: seq<Shared<A>>, events: seq<Event>) {
    && |xs| == |events| + 1
    && IsInitial(src, xs[0].s) && xs[0].s.supplied > 0 && IsPending(xs[0].pending)
    && forall i {:trigger events[i]} :: 0 <= i < |events| ==> Happens(src, xs[i], events[i], xs[i + 1])
  }

  /** Atoms drawn by the old block in the first n events. */
  function StaleBeats(events: seq<Event>, n: nat): nat
    requires n <= |events|
  {
    if n == 0 then 0 else StaleBeats(events, n - 1) + if events[n - 1].StaleBeat? then 1 else 0
  }

  // ---- Until the controller is programmed ------------------------------------------------

  /** The old block has moved k atoms of the source and the transfer none; the block size is the one
      computed when the ring was flushed. */
  ghost predicate Tainted<A>(src: seq<A>, x: Shared<A>, start: Shared<A>, k: nat) {
    && x.s.pc.Starting? && x.s.csize == start.s.csize && x.s.remaining == start.s.remaining == |src|
    && x.s.put == x.s.get == x.s.obAtoms == x.s.moved == 0 && x.s.dest == [] && !x.s.transferring
    && k == x.s.drawn <= x.s.supplied <= |src| && x.s.supplied >= start.s.supplied > 0
    && |start.s.ring| == |x.s.ring| == FIFO_ATOMS && start.pending.Block?
    && x.pending.Block? && x.pending.at == start.pending.at + k && x.pending.left + k == start.pending.left
    && start.pending.at + k <= FIFO_ATOMS
    && (k == 0 ==> x.s.ring == start.s.ring)
    && x.s.ring[..start.pending.at] == start.s.ring[..start.pending.at]
    && x.s.ring[start.pending.at..start.pending.at + k] == src[..k]
    && x.s.ring[start.pending.at + k..] == start.s.ring[start.pending.at + k..]
  }

  lemma StartIsTainted<A>(src: seq<A>, start: Shared<A>)
    requires IsInitial(src, start.s) && start.s.supplied > 0 && IsPending(start.pending)
    ensures Tainted(src, start, start, 0)
  {
  }

  lemma OwnKeepsTaint<A>(src: seq<A>, x: Shared<A>, a: Action, y: Shared<A>, start: Shared<A>, k: nat)
    requires Tainted(src, x, start, k) && Happens(src, x, Own(a), y) && y.pending.Block?
    ensures Tainted(src, y, start, k)
  {
  }

  lemma BeatTaints<A>(src: seq<A>, x: Shared<A>, start: Shared<A>, k: nat)
    requires Tainted(src, x, start, k) && CanStaleBeat(src, x) && IsPending(start.pending)
    ensures Tainted(src, StaleBeatOf(src, x), start, k + 1)
  {
    var a, before, after := start.pending.at, x.s.ring, StaleBeatOf(src, x).s.ring;
    assert after[..a] == before[..a];
    assert after[a..a + k + 1] == before[a..a + k] + [src[k]];
    assert after[a + k + 1..] == before[a + k..][1..];
    assert start.s.ring[a + k..][1..] == start.s.ring[a + k + 1..];
  }

  /** As long as the old block is there, nothing but its own atoms has moved. */
  lemma {:induction false} OldMeansTainted<A>(src: seq<A>, xs: seq<Shared<A>>, events: seq<Event>, i: nat)
    requires IsSecond(src, xs, events) && i < |xs| && xs[i].pending.Block?
    ensures Tainted(src, xs[i], xs[0], StaleBeats(events, i))
  {
    if i == 0 {
      StartIsTainted(src, xs[0]);
    } else {
      assert Happens(src, xs[i - 1], events[i - 1], xs[i]);
      OldMeansTainted(src, xs, events, i - 1);
      match events[i - 1]
      case Own(a) => OwnKeepsTaint(src, xs[i - 1], a, xs[i], xs[0], StaleBeats(events, i - 1));
      case StaleBeat => BeatTaints(src, xs[i - 1], xs[0], StaleBeats(events, i - 1));
    }
  }

  /** Size of the first block: what the OB FIFO held when the ring was flushed, within a block. */
  lemma FirstBlock<A>(src: seq<A>, s: State<A>)
    requires IsInitial(src, s)
    ensures s.csize == Min(Min(|src|, BLOCK_ATOMS), s.supplied)
  {
  }

  /** The stale end takes csize atoms off the count and hands as many slots to the reader, although
      the transfer has moved none. */
  lemma AfterStaleEnd<A>(src: seq<A>, x: Shared<A>, start: Shared<A>, k: nat)
    requires IsInitial(src, start.s) && Tainted(src, x, start, k)
    ensures var t, c := EndInterrupt(x.s), start.s.csize;
            && 0 < c <= |src| && c <= BLOCK_ATOMS && t.remaining == |src| - c && t.put == c
            && t.get == 0 && t.obAtoms == 0 && t.moved == 0 && t.drawn == k && t.ring == x.s.ring && t.dest == []
            && t.overrun == (x.s.overrun || x.s.hwOverrun) && t.obSize == x.s.supplied - k && t.pc == x.s.pc
  {
    FirstBlock(src, start.s);
  }

  lemma FirstSlots<A>(t: State<A>, c: nat)
    requires |t.ring| == FIFO_ATOMS && t.get == 0 && t.put == c <= BLOCK_ATOMS
    ensures Unread(t) == t.ring[..c]
  {
    assert Len(t) == c;
    assert forall k :: 0 <= k < c ==> UnreadSlot(t, k) == k;
  }

  lemma AccountedWhileStarting<A>(src: seq<A>, t: State<A>, held: seq<A>)
    requires |t.ring| == FIFO_ATOMS && |held| <= |src| && t.remaining == |src| - |held|
    requires t.obAtoms == t.moved == 0 && t.dest == [] && Unread(t) == held && 0 <= t.drawn <= |src|
    ensures Accounted(src, t) <==> t.drawn == |held| && (t.overrun || held == src[..|held|])
  {
    assert t.dest + Unread(t) + Arrived(t) + src[t.drawn..] == held + src[t.drawn..];
    if t.drawn == |held| {
      assert src == src[..|held|] + src[|held|..];
      assert (held + src[|held|..])[..|held|] == held;
    }
  }

  /** Every atom drawn by the old block is missing as soon as it is drawn. */
  lemma StaleBeatIsFelt<A>(src: seq<A>, x: Shared<A>, start: Shared<A>, k: nat)
    requires Tainted(src, x, start, k)
    ensures Accounted(src, x.s) <==> k == 0
  {
    assert Len(x.s) == 0;
    AccountedWhileStarting(src, x.s, []);
  }

  /** And a stale end adds up exactly if the old block drew as many atoms as the end counts, and,
      without an overrun, the first slots of the ring hold them. */
  lemma StaleEndIsHarmlessIff<A>(src: seq<A>, x: Shared<A>, start: Shared<A>, k: nat)
    requires IsInitial(src, start.s) && Tainted(src, x, start, k)
    ensures 0 < start.s.csize <= |src| && start.s.csize <= |x.s.ring|
    ensures Accounted(src, EndInterrupt(x.s))
            <==> k == start.s.csize
                 && (EndInterrupt(x.s).overrun || x.s.ring[..start.s.csize] == src[..start.s.csize])
  {
    AfterStaleEnd(src, x, start, k);
    var t := EndInterrupt(x.s);
    FirstSlots(t, start.s.csize);
    AccountedWhileStarting(src, t, x.s.ring[..start.s.csize]);
  }

  // ---- The whole transfer ----------------------------------------------------------------

  function Actions(events: seq<Event>): (r: seq<Action>)
    requires forall i :: 0 <= i < |events| ==> events[i].Own?
    ensures |r| == |events|
  {
    seq(|events|, i requires 0 <= i < |events| => events[i].action)
  }

  function States<A>(xs: seq<Shared<A>>): (r: seq<State<A>>)
    ensures |r| == |xs|
  {
    seq(|xs|, i requires 0 <= i < |xs| => xs[i].s)
  }

  lemma OwnIsRun<A>(src: seq<A>, xs: seq<Shared<A>>, events: seq<Event>)
    requires IsSecond(src, xs, events) && forall i :: 0 <= i < |events| ==> events[i].Own?
    ensures IsRun(src, States(xs), Actions(events))
  {
    forall i | 0 <= i < |events| ensures Step(src, States(xs)[i], Actions(events)[i], States(xs)[i + 1]) {
      assert Happens(src, xs[i], events[i], xs[i + 1]);
    }
  }

  lemma {:induction false} FirstStale(events: seq<Event>, n: nat) returns (i: nat)
    requires n < |events| && !events[n].Own?
    ensures i < |events| && !events[i].Own? && StaleBeats(events, i) == 0
    decreases n
  {
    if j :| 0 <= j < n && !events[j].Own? {
      i := FirstStale(events, j);
    } else {
      i := n;
      NoBeats(events, n);
    }
  }

  lemma {:induction false} NoBeats(events: seq<Event>, n: nat)
    requires n <= |events| && forall j :: 0 <= j < n ==> events[j].Own?
    ensures StaleBeats(events, n) == 0
  {
    if n == 0 {
    } else {
      NoBeats(events, n - 1);
    }
  }

  lemma FirstStaleIsFelt<A>(src: seq<A>, xs: seq<Shared<A>>, events: seq<Event>, i: nat)
    requires IsSecond(src, xs, events) && i < |events| && !events[i].Own? && StaleBeats(events, i) == 0
    ensures !Accounted(src, xs[i + 1].s)
  {
    assert Happens(src, xs[i], events[i], xs[i + 1]);
    OldMeansTainted(src, xs, events, i);
    if events[i].StaleBeat? {
      BeatTaints(src, xs[i], xs[0], 0);
      StaleBeatIsFelt(src, xs[i + 1], xs[0], 1);
    } else {
      StaleEndIsHarmlessIff(src, xs[i], xs[0], 0);
    }
  }

  /** The second transfer accounts for every atom in every state exactly if the old block neither
      draws an atom nor ends inside it. */
  lemma ConservedIff<A>(src: seq<A>, xs: seq<Shared<A>>, events: seq<Event>)
    requires IsSecond(src, xs, events)
    ensures (forall i :: 0 <= i < |xs| ==> Accounted(src, xs[i].s))
            <==> (forall i :: 0 <= i < |events| ==> events[i].Own?)
  {
    if n :| 0 <= n < |events| && !events[n].Own? {
      var i := FirstStale(events, n);
      FirstStaleIsFelt(src, xs, events, i);
    } else {
      OwnIsRun(src, xs, events);
      forall i | 0 <= i < |xs| ensures Accounted(src, xs[i].s) {
        RunIsAccounted(src, States(xs), Actions(events), i);
      }
    }
  }

  // ---- After stale beats -----------------------------------------------------------------

  /** The FIFO has given away k atoms more than the transfer knows of. */
  ghost predicate Lagging<A>(src: seq<A>, s: State<A>, k: nat) {
    && s.drawn == Taken(src, s) + s.moved + k && s.drawn <= s.supplied <= |src| && 0 <= s.moved
    && (s.pc.Starting? || s.pc.Syncing? ==> !s.transferring)
    && (!s.transferring ==> s.moved == 0)
    && (k > 0 && s.pc == Done(Complete) ==> s.overrun)
  }

  lemma ReadKeepsLag<A>(src: seq<A>, s: State<A>, k: nat)
    requires Lagging(src, s, k) && CanRead(s) && (s.pc.Copying? ==> s.pc.left > 0 && 0 <= s.get < |s.ring|)
    ensures Lagging(src, Read(src, s), k)
  {
  }

  lemma OwnKeepsLag<A>(src: seq<A>, s: State<A>, a: Action, t: State<A>, k: nat)
    requires Lagging(src, s, k) && Step(src, s, a, t)
    ensures Lagging(src, t, k)
  {
    match a
    case ReaderStep => ReadKeepsLag(src, s, k);
    case _ =>
  }

  lemma BeatLags<A>(src: seq<A>, x: Shared<A>, start: Shared<A>, k: nat)
    requires Lagging(src, x.s, k) && CanStaleBeat(src, x) && Tainted(src, x, start, k)
    ensures Lagging(src, StaleBeatOf(src, x).s, k + 1)
  {
  }

  lemma StartsInStep<A>(src: seq<A>, s: State<A>)
    requires IsInitial(src, s)
    ensures Lagging(src, s, 0)
  {
  }

  lemma EventLags<A>(src: seq<A>, x: Shared<A>, e: Event, y: Shared<A>, start: Shared<A>, k: nat)
    requires Lagging(src, x.s, k) && Happens(src, x, e, y) && !e.StaleEnd?
    requires e.StaleBeat? ==> Tainted(src, x, start, k)
    ensures Lagging(src, y.s, k + if e.StaleBeat? then 1 else 0)
  {
    match e
    case Own(a) => OwnKeepsLag(src, x.s, a, y.s, k);
    case StaleBeat => BeatLags(src, x, start, k);
  }

  lemma TaintedAtBeat<A>(src: seq<A>, xs: seq<Shared<A>>, events: seq<Event>, i: nat)
    requires IsSecond(src, xs, events) && i < |events| && events[i].StaleBeat?
    ensures Tainted(src, xs[i], xs[0], StaleBeats(events, i))
  {
    assert Happens(src, xs[i], events[i], xs[i + 1]);
    OldMeansTainted(src, xs, events, i);
  }

  lemma NextLag<A>(src: seq<A>, xs: seq<Shared<A>>, events: seq<Event>, i: nat)
    requires IsSecond(src, xs, events) && i < |events| && !events[i].StaleEnd?
    requires Lagging(src, xs[i].s, StaleBeats(events, i))
    ensures Lagging(src, xs[i + 1].s, StaleBeats(events, i + 1))
  {
    if events[i].StaleBeat? { TaintedAtBeat(src, xs, events, i); }
    EventLags(src, xs[i], events[i], xs[i + 1], xs[0], StaleBeats(events, i));
  }

  lemma {:induction false} StaysLagging<A>(src: seq<A>, xs: seq<Shared<A>>, events: seq<Event>, i: nat)
    requires IsSecond(src, xs, events) && i < |xs|
    requires forall j :: 0 <= j < |events| ==> !events[j].StaleEnd?
    ensures Lagging(src, xs[i].s, StaleBeats(events, i))
  {
    if i == 0 {
      StartsInStep(src, xs[0].s);
    } else {
      StaysLagging(src, xs, events, i - 1);
      NextLag(src, xs, events, i - 1);
    }
  }

  /** Once the old block has drawn an atom and its end does not come in between, the second transfer
      never gets all of its own: it completes with an overrun or not at all. */
  lemma StaleBeatsStarve<A>(src: seq<A>, xs: seq<Shared<A>>, events: seq<Event>, i: nat)
    requires IsSecond(src, xs, events) && i < |xs| && StaleBeats(events, i) > 0
    requires forall j :: 0 <= j < |events| ==> !events[j].StaleEnd?
    ensures xs[i].s.remaining >= StaleBeats(events, i)
    ensures xs[i].s.pc == Done(Complete) ==> xs[i].s.overrun
  {
    StaysLagging(src, xs, events, i);
  }

  /** The shortest case: two atoms wanted and both in the FIFO, and an old block that draws the
      first.  The block size was computed before, so that the new block waits for an atom that never
      comes: the reader has the second atom in the first slot, and sleeps until it is aborted. */
  lemma TwoAtomsOneLost(a: int, b: int, ring: seq<int>, at: nat) returns (xs: seq<Shared<int>>)
    requires |ring| == FIFO_ATOMS && at + 2 <= FIFO_ATOMS
    ensures IsSecond([a, b], xs, [StaleBeat, Own(ReaderStep), Own(DmaBeat)])
    ensures xs[0] == Shared(Begin(ring, 2, 2, false), Block(at, 2))
    ensures var s := xs[3].s; |s.ring| == FIFO_ATOMS && s.ring[0] == b && s.csize == 2 && s.moved == 1 && Level(s) == 0
    ensures forall e, t :: Step([a, b], xs[3].s, e, t) ==> e == ReaderAbort
  {
    var src := [a, b];
    var x0 := Shared(Begin(ring, 2, 2, false), Block(at, 2));
    var x1 := StaleBeatOf(src, x0);
    var x2 := Shared(Read(src, x1.s), Gone);
    var x3 := Shared(Beat(src, x2.s), Gone);
    xs := [x0, x1, x2, x3];
    assert Happens(src, x0, StaleBeat, x1);
    assert Happens(src, x1, Own(ReaderStep), x2);
    assert Happens(src, x2, Own(DmaBeat), x3);
  }

  // ---- After a stale end -----------------------------------------------------------------

  /** The reader alone, step by step. */
  ghost predicate ReaderSteps<A>(src: seq<A>, states: seq<State<A>>) {
    states != [] && forall i :: 0 <= i < |states| - 1 ==> Step(src, states[i], ReaderStep, states[i + 1])
  }

  lemma {:induction false} CopiesOldAtoms<A>(src: seq<A>, s: State<A>, c: nat) returns (states: seq<State<A>>)
    requires |s.ring| == FIFO_ATOMS && c <= Min(|src|, BLOCK_ATOMS) && !s.overrun
    requires s.get == s.obAtoms && 0 <= s.obAtoms < c && s.pc == Copying(c - s.obAtoms)
    requires s.dest == s.ring[..s.obAtoms]
    ensures ReaderSteps(src, states) && states[0] == s
    ensures states[|states| - 1].dest == s.ring[..c]
    decreases c - s.obAtoms
  {
    var t := CopyOne(src, s);
    assert t.dest == s.ring[..s.obAtoms + 1];
    assert Step(src, s, ReaderStep, t);
    if s.obAtoms + 1 == c {
      states := [s, t];
    } else {
      var rest := CopiesOldAtoms(src, t, c);
      states := [s] + rest;
      assert forall i :: 0 < i < |states| - 1 ==> states[i] == rest[i - 1] && states[i + 1] == rest[i];
    }
  }

  lemma WakesToCopy<A>(src: seq<A>, t: State<A>, c: nat) returns (u: State<A>, v: State<A>)
    requires t.pc.Starting? && !NoDataYet(t) && t.get == 0 && t.put == c && 0 < c <= BLOCK_ATOMS
    ensures Step(src, t, ReaderStep, u) && Step(src, u, ReaderStep, v)
    ensures v == StartBlock(t).(pc := Copying(c))
  {
    u := Read(src, t);
    v := Read(src, u);
    assert u == StartBlock(t).(pc := Head);
  }

  /** After a stale end the reader, left to itself, starts with what the first slots hold. */
  lemma OldAtomsAreDelivered<A>(src: seq<A>, x: Shared<A>, start: Shared<A>, k: nat) returns (states: seq<State<A>>)
    requires IsInitial(src, start.s) && Tainted(src, x, start, k)
    requires !x.s.overrun && !x.s.hwOverrun && !NoDataYet(EndInterrupt(x.s))
    ensures ReaderSteps(src, states) && states[0] == EndInterrupt(x.s)
    ensures 0 < start.s.csize <= |x.s.ring|
    ensures states[|states| - 1].dest == x.s.ring[..start.s.csize]
  {
    AfterStaleEnd(src, x, start, k);
    var u, v := WakesToCopy(src, EndInterrupt(x.s), start.s.csize);
    var rest := CopiesOldAtoms(src, v, start.s.csize);
    states := [EndInterrupt(x.s), u] + rest;
    forall i | 0 <= i < |states| - 1 ensures Step(src, states[i], ReaderStep, states[i + 1]) {
      if i >= 2 { assert states[i] == rest[i - 2] && states[i + 1] == rest[i - 1]; }
    }
  }

  /** A request of one atom after a stale end: the reader gets the first slot, and the driver sees an
      atom left over exactly if the old block has not drawn it. */
  lemma OneAtomAfterEnd(src: seq<int>, t: State<int>) returns (states: seq<State<int>>)
    requires |src| == 1 && |t.ring| == FIFO_ATOMS && t.pc == Starting(0) && t.remaining == 0
    requires t.put == 1 && t.get == t.obAtoms == 0 && t.dest == [] && !t.overrun && 0 <= t.drawn <= t.supplied == 1
    ensures |states| == 6 && ReaderSteps(src, states) && states[0] == t
    ensures states[5].dest == [t.ring[0]]
    ensures states[5].pc == Done(if t.drawn == 1 then Complete else Residual)
  {
    var a := Read(src, t);
    var b := Read(src, a);
    var c := Read(src, b);
    var d := Read(src, c);
    var e := Read(src, d);
    assert b.pc == Copying(1) && c.pc == Emptied && d.pc == LoopTest;
    states := [t, a, b, c, d, e];
  }

  /** One atom wanted, and the ring holds a 0 from before.  If the end of the old block comes in
      between, the reader is given the 0, with an I/O error; if the old block also draws the atom
      wanted, to a slot of its own, the reader is given the 0 and told that all is well. */
  lemma OneOldAtom(ring: seq<int>, at: nat, draws: bool) returns (xs: seq<Shared<int>>, states: seq<State<int>>)
    requires |ring| == FIFO_ATOMS && ring[0] == 0 && 0 < at < FIFO_ATOMS
    ensures IsSecond([7], xs, if draws then [StaleBeat, StaleEnd] else [StaleEnd])
    ensures xs[0].s == Begin(ring, 1, 1, false)
    ensures |states| == 6 && ReaderSteps([7], states) && states[0] == xs[|xs| - 1].s
    ensures states[5].dest == [0] && states[5].pc == Done(if draws then Complete else Residual)
  {
    var x := Shared(Begin(ring, 1, 1, false), Block(at, if draws then 1 else 0));
    var y := if draws then StaleBeatOf([7], x) else x;
    var z := Shared(EndInterrupt(y.s), Gone);
    xs := if draws then [x, y, z] else [x, z];
    assert draws ==> Happens([7], x, StaleBeat, y);
    assert Happens([7], y, StaleEnd, z);
    states := OneAtomAfterEnd([7], z.s);
  }
}
