/** The event daemon's group of listeners: which processes are told about which events, and the
    event mask the device is given for them. A mask is the set of its bit numbers. */
module Listeners {

  type Mask = set<nat>

  const INIT_MASK: Mask := {3, 4}  // interlock and post mortem

  datatype Member = Member(pid: int, uid: int, mask: Mask)

  /** A request with an empty mask asks to leave. */
  datatype Request = Request(pid: int, uid: int, mask: Mask)

  /** `readers` are the processes whose event FIFO exists and is open for reading. */
  datatype State = State(members: seq<Member>, device: Mask, readers: set<int>)

  // ---- Membership ------------------------------------------------------------------------

  predicate Is(m: Member, pid: int, uid: int) { m.pid == pid && m.uid == uid }

  ghost predicate Unique(ms: seq<Member>) {
    forall i, j :: 0 <= i < j < |ms| ==> !Is(ms[i], ms[j].pid, ms[j].uid)
  }

  /** Index of a connection, or the length when there is none. */
  function Find(ms: seq<Member>, pid: int, uid: int): (k: nat)
    ensures k <= |ms|
    ensures k < |ms| ==> Is(ms[k], pid, uid)
    ensures forall i :: 0 <= i < k ==> !Is(ms[i], pid, uid)
  {
    if ms == [] || Is(ms[0], pid, uid) then 0 else 1 + Find(ms[1..], pid, uid)
  }

  function Without<T>(s: seq<T>, k: nat): seq<T>
    requires k < |s|
  {
    s[..k] + s[k + 1..]
  }

  /** Joining renews the mask of a known connection or puts a new one in front; a request without
      a mask leaves. */
  function AfterRequest(ms: seq<Member>, r: Request): seq<Member> {
    var k := Find(ms, r.pid, r.uid);
    if r.mask != {} then
      if k < |ms| then ms[k := Member(r.pid, r.uid, r.mask)] else [Member(r.pid, r.uid, r.mask)] + ms
    else
      if k < |ms| then Without(ms, k) else ms
  }

  /** The mask a connection listens with; empty for none. */
  function MaskOf(ms: seq<Member>, pid: int, uid: int): Mask {
    var k := Find(ms, pid, uid);
    if k < |ms| then ms[k].mask else {}
  }

  lemma FindIs(ms: seq<Member>, pid: int, uid: int, k: nat)
    requires Unique(ms) && k < |ms| && Is(ms[k], pid, uid)
    ensures Find(ms, pid, uid) == k
  {
  }

  lemma RequestKeepsUnique(ms: seq<Member>, r: Request)
    requires Unique(ms)
    ensures Unique(AfterRequest(ms, r))
  {
  }

  /** A request sets the mask of its own connection and of no other. */
  lemma RequestIsLocal(ms: seq<Member>, r: Request, pid: int, uid: int)
    requires Unique(ms)
    ensures MaskOf(AfterRequest(ms, r), pid, uid)
            == if pid == r.pid && uid == r.uid then r.mask else MaskOf(ms, pid, uid)
  {
    var k, after := Find(ms, r.pid, r.uid), AfterRequest(ms, r);
    RequestKeepsUnique(ms, r);
    if pid == r.pid && uid == r.uid {
      if r.mask != {} { FindIs(after, pid, uid, if k < |ms| then k else 0); }
    } else {
      OthersKeepTheirs(ms, r, pid, uid);
    }
  }

  lemma OthersKeepTheirs(ms: seq<Member>, r: Request, pid: int, uid: int)
    requires Unique(ms) && (pid != r.pid || uid != r.uid)
    ensures MaskOf(AfterRequest(ms, r), pid, uid) == MaskOf(ms, pid, uid)
  {
    var k, j := Find(ms, r.pid, r.uid), Find(ms, pid, uid);
    RequestKeepsUnique(ms, r);
    if j < |ms| {
      var at := if r.mask != {} then (if k < |ms| then j else j + 1)
                else if k < |ms| && k < j then j - 1 else j;
      FindIs(AfterRequest(ms, r), pid, uid, at);
    }
  }

  // ---- Masks -----------------------------------------------------------------------------

  function Union(ms: seq<Member>): Mask {
    if ms == [] then {} else ms[0].mask + Union(ms[1..])
  }

  /** The mask a request asks the device for. */
  function Wanted(ms: seq<Member>): Mask { INIT_MASK + Union(ms) }

  /** The union is the least mask that holds every member's. */
  lemma {:induction false} UnionIsLeast(ms: seq<Member>, m: Mask)
    ensures Union(ms) <= m <==> forall i :: 0 <= i < |ms| ==> ms[i].mask <= m
  {
    if ms == [] {
    } else {
      UnionIsLeast(ms[1..], m);
      assert forall i :: 0 <= i < |ms[1..]| ==> ms[1..][i] == ms[i + 1];
      assert (forall i :: 0 <= i < |ms| ==> ms[i].mask <= m)
             ==> forall i :: 0 <= i < |ms[1..]| ==> ms[1..][i].mask <= m;
      assert forall i :: 0 < i < |ms| ==> ms[i] == ms[1..][i - 1];
    }
  }

  /** The device is asked for the interlock, the post mortem and every member's mask, no more. */
  lemma WantedIsLeast(ms: seq<Member>, m: Mask)
    ensures Wanted(ms) <= m
            <==> 3 in m && 4 in m && forall i :: 0 <= i < |ms| ==> ms[i].mask <= m
  {
    UnionIsLeast(ms, m);
    if Wanted(ms) <= m { assert INIT_MASK <= Wanted(ms) && Union(ms) <= Wanted(ms); }
  }

  /** Dropping members never asks for more. */
  lemma UnionOfFewer(few: seq<Member>, ms: seq<Member>)
    requires forall m :: m in few ==> m in ms
    ensures Union(few) <= Union(ms)
  {
    UnionIsLeast(ms, Union(ms));
    forall i | 0 <= i < |few| ensures few[i].mask <= Union(ms) {
      assert few[i] in ms;
      var j :| 0 <= j < |ms| && ms[j] == few[i];
    }
    UnionIsLeast(few, Union(ms));
  }

  // ---- Dispatch --------------------------------------------------------------------------

  predicate Matches(m: Member, id: Mask) { id * m.mask != {} }

  /** A listener the event is for and whose FIFO is gone or has no reader. */
  predicate IsGhost(m: Member, id: Mask, readers: set<int>) { Matches(m, id) && m.pid !in readers }

  function Told(ms: seq<Member>, id: Mask): seq<Member> {
    if ms == [] then [] else (if Matches(ms[0], id) then [ms[0]] else []) + Told(ms[1..], id)
  }

  function Kept(ms: seq<Member>, id: Mask, readers: set<int>): seq<Member> {
    if ms == [] then []
    else (if IsGhost(ms[0], id, readers) then [] else [ms[0]]) + Kept(ms[1..], id, readers)
  }

  /** Exactly the ghosts go. */
  lemma {:induction false} KeptIs(ms: seq<Member>, id: Mask, readers: set<int>)
    ensures forall m :: m in Kept(ms, id, readers) <==> m in ms && !IsGhost(m, id, readers)
    ensures |Kept(ms, id, readers)| <= |ms|
  {
    if ms == [] {
    } else {
      KeptIs(ms[1..], id, readers);
    }
  }

  /** Those told are exactly the listeners the event is for, each once, in the order of the list. */
  lemma {:induction false} ToldInOrder(ms: seq<Member>, from: nat, id: Mask) returns (at: seq<nat>)
    requires from <= |ms|
    ensures |at| == |Told(ms[from..], id)|
    ensures forall k :: 0 <= k < |at| ==> from <= at[k] < |ms| && ms[at[k]] == Told(ms[from..], id)[k]
    ensures forall i, k :: 0 <= i < k < |at| ==> at[i] < at[k]
    ensures forall j :: from <= j < |ms| ==> (j in at <==> ms[j].mask * id != {})
    decreases |ms| - from
  {
    if from == |ms| {
      at := [];
    } else {
      at := ToldInOrder(ms, from + 1, id);
      assert ms[from..][1..] == ms[from + 1..];
      if Matches(ms[from], id) { at := [from] + at; }
    }
  }

  /** The rest stays in order: kept members sit at increasing places of the old list. */
  lemma {:induction false} KeptInOrder(ms: seq<Member>, from: nat, id: Mask, readers: set<int>)
    returns (at: seq<nat>)
    requires from <= |ms|
    ensures |at| == |Kept(ms[from..], id, readers)|
    ensures forall k :: 0 <= k < |at| ==> from <= at[k] < |ms| && ms[at[k]] == Kept(ms[from..], id, readers)[k]
    ensures forall i, k :: 0 <= i < k < |at| ==> at[i] < at[k]
    decreases |ms| - from
  {
    if from == |ms| {
      at := [];
    } else {
      at := KeptInOrder(ms, from + 1, id, readers);
      assert ms[from..][1..] == ms[from + 1..];
      if !IsGhost(ms[from], id, readers) { at := [from] + at; }
    }
  }

  lemma DispatchKeepsUnique(ms: seq<Member>, id: Mask, readers: set<int>)
    requires Unique(ms)
    ensures Unique(Kept(ms, id, readers))
  {
    var at := KeptInOrder(ms, 0, id, readers);
    assert ms[0..] == ms;
    var kept := Kept(ms, id, readers);
    forall i, j | 0 <= i < j < |kept| ensures !Is(kept[i], kept[j].pid, kept[j].uid) {
      assert at[i] < at[j];
    }
  }

  // ---- Runs ------------------------------------------------------------------------------

  datatype Input =
      // a request; does its process exist, and does the device take the new mask
    | Ask(r: Request, alive: bool, accepted: bool)
    | Raise(id: Mask)
      // processes open and close their event FIFOs
    | Open(pid: int)
    | Close(pid: int)

  function Next(s: State, i: Input): State {
    match i
    case Ask(r, alive, accepted) =>
      if !alive then s
      else
        var ms := AfterRequest(s.members, r);
        State(ms, if accepted then Wanted(ms) else s.device,
              if Leaves(s, r) then s.readers - {r.pid} else s.readers)
    case Raise(id) => s.(members := Kept(s.members, id, s.readers))
    case Open(pid) => s.(readers := s.readers + {pid})
    case Close(pid) => s.(readers := s.readers - {pid})
  }

  /** Leaving unlinks the event FIFO of the process. */
  predicate Leaves(s: State, r: Request) { r.mask == {} && Find(s.members, r.pid, r.uid) < |s.members| }

  ghost predicate Covered(s: State) { Wanted(s.members) <= s.device }

  ghost predicate Inv(s: State) { Unique(s.members) && Covered(s) }

  /** The device mask keeps covering the listeners at a step exactly unless the device refuses a
      mask that asks for something new. */
  lemma StepCovers(s: State, i: Input)
    requires Covered(s)
    ensures Covered(Next(s, i)) <==> i.Ask? && i.alive && !i.accepted ==> i.r.mask <= s.device
  {
    match i
    case Ask(r, alive, accepted) =>
      if alive && !accepted { RequestCovers(s.members, r, s.device); }
    case Raise(id) =>
      KeptIs(s.members, id, s.readers);
      UnionOfFewer(Kept(s.members, id, s.readers), s.members);
    case Open(_) =>
    case Close(_) =>
  }

  lemma RequestCovers(ms: seq<Member>, r: Request, device: Mask)
    requires Wanted(ms) <= device
    ensures Wanted(AfterRequest(ms, r)) <= device <==> r.mask <= device
  {
    var k, after := Find(ms, r.pid, r.uid), AfterRequest(ms, r);
    UnionIsLeast(ms, device);
    UnionIsLeast(after, device);
    if r.mask != {} {
      assert after[if k < |ms| then k else 0].mask == r.mask;
    }
  }

  /** The device refuses the new mask of a process that is there, which asks for something new. */
  ghost predicate RefusesNews(s: State, i: Input) {
    i.Ask? && i.alive && !i.accepted && !(i.r.mask <= s.device)
  }

  /** State after the first k inputs. */
  function StateAt(s: State, inputs: seq<Input>, k: nat): State
    requires k <= |inputs|
  {
    if k == 0 then s else Next(StateAt(s, inputs, k - 1), inputs[k - 1])
  }

  /** Only requests of living processes that the device accepts set its mask, and only processes open
      and close FIFOs, themselves or by leaving. */
  lemma NextFrames(s: State, i: Input)
    ensures Next(s, i).device != s.device ==> i.Ask? && i.alive && i.accepted
    ensures Next(s, i).members != s.members ==> (i.Ask? && i.alive) || i.Raise?
    ensures forall pid :: pid in Next(s, i).readers - s.readers ==> i == Open(pid)
    ensures forall pid :: pid in s.readers - Next(s, i).readers ==>
              i == Close(pid) || (i.Ask? && i.alive && i.r.pid == pid && i.r.mask == {})
    ensures i.Open? ==> i.pid in Next(s, i).readers
    ensures i.Close? ==> i.pid !in Next(s, i).readers
  {
  }

  lemma StepKeepsUnique(s: State, i: Input)
    requires Unique(s.members)
    ensures Unique(Next(s, i).members)
  {
    if i.Ask? { RequestKeepsUnique(s.members, i.r); }
    if i.Raise? { DispatchKeepsUnique(s.members, i.id, s.readers); }
  }

  /** A request that gets through leaves the device with the union and no more. */
  lemma StepInv(s: State, i: Input)
    requires Inv(s) && !RefusesNews(s, i)
    ensures Inv(Next(s, i))
    ensures i.Ask? && i.alive && i.accepted ==> Next(s, i).device == Wanted(Next(s, i).members)
  {
    StepCovers(s, i);
    StepKeepsUnique(s, i);
  }

  /** Connections stay unique and the device mask covers the initial mask and every listener's, as
      long as the device refuses no mask that asks for something new. */
  lemma {:induction false} RunInv(s: State, inputs: seq<Input>, n: nat)
    requires Inv(s) && n <= |inputs|
    requires forall k :: 0 <= k < n ==> !RefusesNews(StateAt(s, inputs, k), inputs[k])
    ensures Inv(StateAt(s, inputs, n))
  {
    if n == 0 {
    } else {
      RunInv(s, inputs, n - 1);
      StepInv(StateAt(s, inputs, n - 1), inputs[n - 1]);
    }
  }

  /** Over a whole run the device mask always covers the listeners exactly if no such mask is
      refused. */
  lemma RunCoversIff(s: State, inputs: seq<Input>)
    requires Inv(s)
    ensures (forall n :: 0 <= n <= |inputs| ==> Covered(StateAt(s, inputs, n)))
            <==> (forall k :: 0 <= k < |inputs| ==> !RefusesNews(StateAt(s, inputs, k), inputs[k]))
  {
    if k :| 0 <= k < |inputs| && RefusesNews(StateAt(s, inputs, k), inputs[k]) {
      NewsUncovers(s, inputs, k);
    } else {
      forall n | 0 <= n <= |inputs| ensures Covered(StateAt(s, inputs, n)) { RunInv(s, inputs, n); }
    }
  }

  lemma NewsUncovers(s: State, inputs: seq<Input>, k: nat)
    requires k < |inputs| && RefusesNews(StateAt(s, inputs, k), inputs[k])
    ensures !(Covered(StateAt(s, inputs, k)) && Covered(StateAt(s, inputs, k + 1)))
  {
    if Covered(StateAt(s, inputs, k)) { StepCovers(StateAt(s, inputs, k), inputs[k]); }
  }

  /** When one connection of a process leaves, the FIFO all its connections share is unlinked: the
      first event for another of them removes that one too, unless the process has opened its FIFO
      again. */
  lemma LeavingSilencesSiblings(s: State, pid: int, uid: int, other: int, id: Mask)
    requires Unique(s.members) && uid != other
    requires Find(s.members, pid, uid) < |s.members|
    requires id * MaskOf(s.members, pid, other) != {}
    ensures var left := Next(s, Ask(Request(pid, uid, {}), true, true));
            && MaskOf(left.members, pid, other) == MaskOf(s.members, pid, other)
            && MaskOf(Next(left, Raise(id)).members, pid, other) == {}
            && MaskOf(Next(Next(left, Open(pid)), Raise(id)).members, pid, other)
               == MaskOf(s.members, pid, other)
  {
    var r := Request(pid, uid, {});
    var left := Next(s, Ask(r, true, true));
    RequestIsLocal(s.members, r, pid, other);
    RequestKeepsUnique(s.members, r);
    AfterRaise(left, pid, other, id);
    AfterRaise(Next(left, Open(pid)), pid, other, id);
  }

  /** What one event does to one connection. */
  lemma AfterRaise(s: State, pid: int, uid: int, id: Mask)
    requires Unique(s.members)
    ensures var mask := MaskOf(s.members, pid, uid);
            MaskOf(Next(s, Raise(id)).members, pid, uid)
            == if id * mask != {} && pid !in s.readers then {} else mask
    ensures Next(s, Raise(id)).device == s.device && Next(s, Raise(id)).readers == s.readers
  {
    var kept := Kept(s.members, id, s.readers);
    var k, j := Find(s.members, pid, uid), Find(kept, pid, uid);
    KeptIs(s.members, id, s.readers);
    if j < |kept| {
      assert kept[j] in s.members;
      var i :| 0 <= i < |s.members| && s.members[i] == kept[j];
      FindIs(s.members, pid, uid, i);
    } else if k < |s.members| {
      assert s.members[k] !in kept;
    }
  }

  /** A walk under way: `stay` is behind it, `todo` ahead, `tried` has been written to. */
  ghost predicate Walked(was: seq<Member>, id: Mask, readers: set<int>,
                         stay: seq<Member>, todo: seq<Member>, tried: seq<Member>)
  {
    stay + Kept(todo, id, readers) == Kept(was, id, readers) && tried + Told(todo, id) == Told(was, id)
  }

  lemma WalkStep(was: seq<Member>, id: Mask, readers: set<int>,
                 stay: seq<Member>, todo: seq<Member>, tried: seq<Member>)
    requires todo != [] && Walked(was, id, readers, stay, todo, tried)
    ensures Walked(was, id, readers, if IsGhost(todo[0], id, readers) then stay else stay + [todo[0]],
                   todo[1..], if Matches(todo[0], id) then tried + [todo[0]] else tried)
  {
    var kept, told := Kept(todo[1..], id, readers), Told(todo[1..], id);
    assert stay + ([todo[0]] + kept) == (stay + [todo[0]]) + kept;
    assert tried + ([todo[0]] + told) == (tried + [todo[0]]) + told;
    assert [] + kept == kept && [] + told == told;
  }

  // ---- The daemon's list -----------------------------------------------------------------

  class Listener {
    const pid: int
    const uid: int
    var mask: Mask
    var prev: Listener?
    var next: Listener?

    constructor (pid: int, uid: int, mask: Mask)
      ensures this.pid == pid && this.uid == uid && this.mask == mask
      ensures prev == null && next == null
    {
      this.pid, this.uid, this.mask := pid, uid, mask;
      prev, next := null, null;
    }
  }

  /** The listener at a place of the list, null past either end. */
  ghost function At(ls: seq<Listener>, i: int): Listener? {
    if 0 <= i < |ls| then ls[i] else null
  }

  ghost predicate Distinct(ls: seq<Listener>) {
    forall i, j :: 0 <= i < j < |ls| ==> ls[i] != ls[j]
  }

  ghost predicate Linked(ls: seq<Listener>)
    reads ls
  {
    && Distinct(ls)
    && (forall i {:trigger ls[i].prev} :: 0 <= i < |ls| ==> ls[i].prev == At(ls, i - 1))
    && (forall i {:trigger ls[i].next} :: 0 <= i < |ls| ==> ls[i].next == At(ls, i + 1))
  }

  ghost predicate Holds(l: Listener, m: Member)
    reads l
  {
    l.pid == m.pid && l.uid == m.uid && l.mask == m.mask
  }

  ghost predicate Hold(ls: seq<Listener>, ms: seq<Member>)
    reads ls
  {
    |ls| == |ms| && forall i {:trigger ls[i]} {:trigger ms[i]} :: 0 <= i < |ls| ==> Holds(ls[i], ms[i])
  }

  /** The links when the neighbours of one listener already pass it by. */
  ghost predicate Bypassed(ls: seq<Listener>, k: nat)
    reads ls
  {
    && (forall i {:trigger ls[i].prev} :: 0 <= i < |ls| && i != k ==>
          ls[i].prev == if i == k + 1 then At(ls, k - 1) else At(ls, i - 1))
    && (forall i {:trigger ls[i].next} :: 0 <= i < |ls| && i != k ==>
          ls[i].next == if i == k - 1 then At(ls, k + 1) else At(ls, i + 1))
  }

  lemma Rejoined(ls: seq<Listener>, k: nat)
    requires k < |ls| && Distinct(ls) && Bypassed(ls, k)
    ensures Linked(Without(ls, k))
    ensures At(Without(ls, k), 0) == if k == 0 then At(ls, 1) else ls[0]
  {
    var rest := Without(ls, k);
    forall i | 0 <= i < |rest| ensures rest[i].prev == At(rest, i - 1) && rest[i].next == At(rest, i + 1) {
      var at := if i < k then i else i + 1;
      assert rest[i] == ls[at];
      assert ls[at].prev == if at == k + 1 then At(ls, k - 1) else At(ls, at - 1);
      assert ls[at].next == if at == k - 1 then At(ls, k + 1) else At(ls, at + 1);
    }
  }

  lemma HoldWithout(ls: seq<Listener>, ms: seq<Member>, k: nat)
    requires k < |ls| && Hold(ls, ms)
    ensures Hold(Without(ls, k), Without(ms, k))
  {
    var rest := Without(ls, k);
    forall i | 0 <= i < |rest| ensures Holds(rest[i], Without(ms, k)[i]) {
      var at := if i < k then i else i + 1;
      assert rest[i] == ls[at] && Without(ms, k)[i] == ms[at];
    }
  }

  lemma WithoutIn(ls: seq<Listener>, nodes: set<Listener>, k: nat)
    requires k < |ls| && forall i :: 0 <= i < |ls| ==> ls[i] in nodes
    ensures |Without(ls, k)| == |ls| - 1
    ensures forall i :: 0 <= i < |ls| - 1 ==> Without(ls, k)[i] in nodes
  {
    forall i | 0 <= i < |ls| - 1 ensures Without(ls, k)[i] in nodes {
      assert Without(ls, k)[i] == ls[if i < k then i else i + 1];
    }
  }

  /** Unhooks one listener from its neighbours. */
  method Bypass(ghost ls: seq<Listener>, p: Listener, ghost k: nat) returns (after: Listener?)
    requires Linked(ls) && k < |ls| && p == ls[k]
    modifies ls`prev, ls`next
    ensures Bypassed(ls, k) && p.prev == null && p.next == null
    ensures after == At(ls, k + 1)
  {
    after := p.next;
    if p.prev != null {
      assert p.prev == ls[k - 1];
      p.prev.next := p.next;
    }
    if p.next != null {
      assert p.next == ls[k + 1];
      p.next.prev := p.prev;
    }
    p.prev, p.next := null, null;
  }

  class Daemon {
    var head: Listener?
    var count: int
    var device: Mask
    var readers: set<int>

    /** The listeners from the head on. */
    ghost var list: seq<Listener>
    /** Every listener allocated so far. */
    ghost var nodes: set<Listener>
    /** What the listed ones hold. */
    ghost var members: seq<Member>

    ghost predicate Valid()
      reads this, nodes
    {
      && (forall i :: 0 <= i < |list| ==> list[i] in nodes)
      && count == |list|
      && head == At(list, 0)
      && Linked(list)
      && Hold(list, members)
    }

    ghost function Now(): State
      reads this
    {
      State(members, device, readers)
    }

    constructor ()
      ensures Valid() && fresh(this)
      ensures Now() == State([], INIT_MASK, {})
    {
      head, count, device, readers := null, 0, INIT_MASK, {};
      list, members, nodes := [], [], {};
    }

    method FindListener(pid: int, uid: int) returns (q: Listener?)
      requires Valid()
      ensures q == At(list, Find(members, pid, uid))
    {
      ghost var k := 0;
      q := head;
      while q != null && (q.pid != pid || q.uid != uid)
        invariant 0 <= k <= |list| && q == At(list, k)
        invariant forall i :: 0 <= i < k ==> !Is(members[i], pid, uid)
        decreases |list| - k
      {
        q := q.next;
        k := k + 1;
      }
    }

    method InsertListener(pid: int, uid: int, mask: Mask) returns (p: Listener)
      requires Valid()
      modifies this, nodes
      ensures Valid() && fresh(p) && nodes == old(nodes) + {p}
      ensures list == [p] + old(list)
      ensures members == [Member(pid, uid, mask)] + old(members)
      ensures device == old(device) && readers == old(readers)
    {
      p := new Listener(pid, uid, mask);
      if head != null {
        p.next := head;
        p.next.prev := p;
      }
      head := p;
      count := count + 1;
      list, nodes, members := [p] + list, nodes + {p}, [Member(pid, uid, mask)] + members;
    }

    /** Takes one listener out of the links. */
    method Unhook(p: Listener, ghost k: nat)
      requires Valid() && k < |list| && p == list[k]
      modifies this`head, nodes`prev, nodes`next
      ensures Linked(Without(list, k)) && head == At(Without(list, k), 0)
      ensures p.prev == null && p.next == null
    {
      var first := Bypass(list, p, k);
      if head == p { head := first; }
      Rejoined(list, k);
    }

    method RemoveListener(p: Listener, ghost k: nat)
      requires Valid() && k < |list| && p == list[k]
      modifies this, nodes
      ensures Valid() && nodes == old(nodes)
      ensures list == Without(old(list), k)
      ensures members == Without(old(members), k)
      ensures readers == old(readers) - {p.pid}
      ensures device == old(device)
      ensures p.prev == null && p.next == null
    {
      Unhook(p, k);
      count := count - 1;
      readers := readers - {p.pid};
      HoldWithout(list, members, k);
      WithoutIn(list, nodes, k);
      list, members := Without(list, k), Without(members, k);
    }

    method SetMask(q: Listener, ghost k: nat, mask: Mask)
      requires Valid() && k < |list| && q == list[k]
      modifies q`mask, `members
      ensures Valid() && members == old(members)[k := Member(q.pid, q.uid, mask)]
    {
      q.mask := mask;
      members := members[k := Member(q.pid, q.uid, mask)];
    }

    /** The list half of a request. */
    method JoinOrLeave(r: Request)
      requires Valid()
      modifies this, nodes
      ensures Valid() && fresh(nodes - old(nodes))
      ensures members == AfterRequest(old(members), r) && device == old(device)
      ensures readers == if Leaves(old(Now()), r) then old(readers) - {r.pid} else old(readers)
    {
      ghost var k := Find(members, r.pid, r.uid);
      var q := FindListener(r.pid, r.uid);
      if r.mask != {} {
        if q != null {
          SetMask(q, k, r.mask);
        } else {
          var _ := InsertListener(r.pid, r.uid, r.mask);
        }
      } else if q != null {
        RemoveListener(q, k);
      }
    }

    method HandleRequest(r: Request, alive: bool, accepted: bool) returns (rc: int)
      requires Valid()
      modifies this, nodes
      ensures Valid() && fresh(nodes - old(nodes))
      ensures rc == if alive && accepted then 0 else -1
      ensures Now() == Next(old(Now()), Ask(r, alive, accepted))
    {
      if !alive { return -1; }
      JoinOrLeave(r);
      var mask := CollectMask();
      if accepted { device := mask; }
      rc := if accepted then 0 else -1;
    }

    method CollectMask() returns (mask: Mask)
      requires Valid()
      ensures mask == Wanted(members)
    {
      mask := INIT_MASK;
      var p := head;
      ghost var k := 0;
      while p != null
        invariant 0 <= k <= |list| && p == At(list, k)
        invariant mask + Union(members[k..]) == Wanted(members)
        decreases |list| - k
      {
        assert members[k..][1..] == members[k + 1..];
        mask := mask + p.mask;
        p := p.next;
        k := k + 1;
      }
    }

    /** Walks the list once: `tried` is who was written to, in order. A ghost is unlinked only after
        the walk has moved past it. */
    method HandleEvent(id: Mask) returns (tried: seq<Member>)
      requires Valid()
      modifies this, nodes
      ensures Valid() && nodes == old(nodes)
      ensures tried == Told(old(members), id)
      ensures Now() == Next(old(Now()), Raise(id))
    {
      tried := [];
      var q := head;
      // members[..k] have been dealt with and stay, `todo` is still ahead
      ghost var k := 0;
      ghost var was, todo := members, members;
      while q != null
        invariant Valid() && 0 <= k <= |list| && q == At(list, k)
        invariant nodes == old(nodes)
        invariant todo == members[k..]
        invariant Walked(was, id, readers, members[..k], todo, tried)
        invariant readers == old(readers) && device == old(device)
        decreases |todo|
      {
        WalkStep(was, id, readers, members[..k], todo, tried);
        assert todo[1..] == members[k + 1..];
        var ghost_: Listener? := null;
        if id * q.mask != {} {
          tried := tried + [Member(q.pid, q.uid, q.mask)];
          if q.pid !in readers { ghost_ := q; }
        }
        q := q.next;
        todo := todo[1..];
        ghost var stay := members[..k];
        if ghost_ != null {
          RemoveListener(ghost_, k);
          assert readers == old(readers) && members[..k] == stay && members[k..] == todo;
        } else {
          assert members[..k + 1] == stay + [members[k]];
          k := k + 1;
        }
      }
      assert members[..k] == members;
    }

    /** Shutting down: every listener is told off by removing its FIFO. */
    method RemoveAll()
      requires Valid()
      modifies this, nodes
      ensures Valid() && nodes == old(nodes) && list == []
      ensures forall m :: m in old(members) ==> m.pid !in readers
      ensures readers <= old(readers)
    {
      while head != null
        invariant Valid() && nodes == old(nodes)
        invariant readers <= old(readers)
        invariant forall m :: m in old(members) ==> m in members || m.pid !in readers
        decreases |list|
      {
        assert members[..0] + members[1..] == members[1..];
        assert forall m :: m in members ==> m == members[0] || m in members[1..];
        RemoveListener(head, 0);
      }
    }
  }
}
