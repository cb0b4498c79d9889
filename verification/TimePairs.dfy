/** Current time as a pair of stamps: a software trigger is stamped by the system-clock module and
    by the machine-clock module, two interrupt-fed FIFOs carry the stamps, and the reader joins
    them again. */
module TimePairs {

  const TRIG_LOG := 4096

  /** An index less than two turns on, brought back into the ring. */
  function Wrap(i: int): int { if i < TRIG_LOG then i else i - TRIG_LOG }

  /** The slots after `get` hold the contents. */
  ghost predicate Carries(stamps: seq<int>, get: int, contents: seq<int>)
    requires |stamps| == TRIG_LOG && 0 <= get < TRIG_LOG && |contents| < TRIG_LOG
  {
    forall k {:trigger contents[k]} :: 0 <= k < |contents| ==> stamps[Wrap(get + 1 + k)] == contents[k]
  }

  lemma CarriesMore(stamps: seq<int>, get: int, contents: seq<int>, data: int)
    requires |stamps| == TRIG_LOG && 0 <= get < TRIG_LOG && |contents| < TRIG_LOG - 1
    requires Carries(stamps, get, contents)
    ensures Carries(stamps[Wrap(get + 1 + |contents|) := data], get, contents + [data])
  {
    var more := contents + [data];
    forall k | 0 <= k < |more|
      ensures stamps[Wrap(get + 1 + |contents|) := data][Wrap(get + 1 + k)] == more[k]
    {
      if k < |contents| { assert stamps[Wrap(get + 1 + k)] == contents[k]; }
    }
  }

  lemma CarriesRest(stamps: seq<int>, get: int, contents: seq<int>)
    requires |stamps| == TRIG_LOG && 0 <= get < TRIG_LOG && 0 < |contents| < TRIG_LOG
    requires Carries(stamps, get, contents)
    ensures stamps[Wrap(get + 1)] == contents[0]
    ensures Carries(stamps, Wrap(get + 1), contents[1..])
  {
    var rest := contents[1..];
    assert stamps[Wrap(get + 1 + 0)] == contents[0];
    forall k | 0 <= k < |rest| ensures stamps[Wrap(Wrap(get + 1) + 1 + k)] == rest[k] {
      assert rest[k] == contents[k + 1];
    }
  }

  class TimeFifo {
    const stamp: array<int>
    var put: int
    var get: int
    ghost var contents: seq<int>
    ghost var taken: nat  // stamps taken so far

    /** The ring between `get` (exclusive) and `put` (inclusive) holds `contents`. */
    ghost predicate Valid()
      reads this, stamp
    {
      && stamp.Length == TRIG_LOG && |contents| < TRIG_LOG
      && 0 <= get < TRIG_LOG && put == Wrap(get + |contents|)
      && Carries(stamp[..], get, contents)
    }

    constructor ()
      ensures Valid() && contents == [] && taken == 0 && fresh(stamp)
    {
      stamp := new int[TRIG_LOG];
      put, get, contents, taken := 0, 0, [], 0;
    }

    function Length(): int
      reads this
    {
      (put + TRIG_LOG - get) % TRIG_LOG
    }

    lemma LengthIsContents()
      requires Valid()
      ensures Length() == |contents| && (put != get <==> contents != [])
    {
    }

    /** Refuses a stamp exactly when 4095 are waiting, and never touches the slot handed out
        last. */
    method Put(data: int) returns (r: int)
      requires Valid()
      modifies this`put, this`contents, stamp
      ensures Valid() && (r == 0 || r == -1)
      ensures r == -1 <==> |old(contents)| == TRIG_LOG - 1
      ensures contents == if r == 0 then old(contents) + [data] else old(contents)
      ensures 0 <= get < TRIG_LOG && stamp[get] == old(stamp[get])
    {
      var index := (put + 1) % TRIG_LOG;
      assert index == Wrap(get + 1 + |contents|) || (index == get && |contents| == TRIG_LOG - 1);
      if index == get {
        return -1;
      }
      CarriesMore(stamp[..], get, contents, data);
      ghost var before := stamp[..];
      stamp[index] := data;
      assert stamp[..] == before[index := data];
      put := index;
      contents := contents + [data];
      return 0;
    }

    /** Hands out a slot of the ring, or nothing when it is empty. */
    method Get() returns (slot: int)
      requires Valid()
      modifies this`get, this`contents, this`taken
      ensures Valid() && (slot == -1 <==> old(contents) == [])
      ensures slot == -1 ==> contents == old(contents) && taken == old(taken) && get == old(get)
      ensures slot != -1 ==>
                && 0 <= slot < TRIG_LOG && slot == get && stamp[slot] == old(contents)[0]
                && contents == old(contents)[1..] && taken == old(taken) + 1
    {
      if put == get {
        return -1;
      }
      CarriesRest(stamp[..], get, contents);
      assert (get + 1) % TRIG_LOG == Wrap(get + 1);
      get := (get + 1) % TRIG_LOG;
      taken := taken + 1;
      contents := contents[1..];
      return get;
    }
  }

  /** A slot handed out keeps its stamp through any number of puts. */
  method PutMany(q: TimeFifo, data: seq<int>)
    requires q.Valid()
    modifies q`put, q`contents, q.stamp
    ensures q.Valid() && 0 <= q.get < TRIG_LOG && q.stamp[q.get] == old(q.stamp[q.get])
    ensures |old(q.contents)| + |data| < TRIG_LOG ==> q.contents == old(q.contents) + data
    ensures old(q.contents) <= q.contents
  {
    var i := 0;
    while i < |data|
      invariant 0 <= i <= |data| && q.Valid() && q.stamp[q.get] == old(q.stamp[q.get])
      invariant old(q.contents) <= q.contents
      invariant |old(q.contents)| + i < TRIG_LOG ==> q.contents == old(q.contents) + data[..i]
    {
      var _ := q.Put(data[i]);
      assert data[..i + 1] == data[..i] + [data[i]];
      i := i + 1;
    }
  }

  datatype Outcome = Time(lst: int, lmt: int) | Restart | Fault  // 0, -ERESTARTSYS, -EFAULT

  /** Where a signal meets a caller: at one of the two locks, or in the wait for the stamp. */
  datatype Signal = NoSignal | AtFirstLock | AtSecondLock | InWait

  /** Where a call ended: with its answer, before its trigger was issued, or after. */
  datatype Ending = Answered | BeforeTrigger | AfterTrigger

  predicate EndsBy(s: Signal, e: Ending) {
    match s
    case NoSignal => e.Answered?
    case AtFirstLock => e.BeforeTrigger?
    case AtSecondLock => e.AfterTrigger?
    case InWait => e.Answered? || e.AfterTrigger?
  }

  /** Calls that a signal can interrupt after their triggers. */
  function MayLeave(ss: seq<Signal>): nat {
    if ss == [] then 0 else (if ss[0].AtSecondLock? || ss[0].InWait? then 1 else 0) + MayLeave(ss[1..])
  }

  /** Triggers issued by the first k calls. */
  function Issues(es: seq<Ending>, k: nat): nat
    requires k <= |es|
  {
    if k == 0 then 0 else Issues(es, k - 1) + if es[k - 1].BeforeTrigger? then 0 else 1
  }

  /** Triggers of the first k calls whose stamps their callers did not take. */
  function LeftOver(es: seq<Ending>, k: nat): nat
    requires k <= |es|
  {
    if k == 0 then 0 else LeftOver(es, k - 1) + if es[k - 1].AfterTrigger? then 1 else 0
  }

  lemma {:induction false} LeftAreIssued(es: seq<Ending>, k: nat)
    requires k <= |es|
    ensures LeftOver(es, k) <= Issues(es, k)
  {
    if k == 0 {
    } else {
      LeftAreIssued(es, k - 1);
    }
  }

  lemma {:induction false} NoneLeftIff(es: seq<Ending>, k: nat)
    requires k <= |es|
    ensures LeftOver(es, k) == 0 <==> forall j :: 0 <= j < k ==> !es[j].AfterTrigger?
  {
    if k == 0 {
    } else {
      NoneLeftIff(es, k - 1);
    }
  }

  lemma {:induction false} LaterCallsDoNotCount(es: seq<Ending>, e: Ending, k: nat)
    requires k <= |es|
    ensures Issues(es + [e], k) == Issues(es, k) && LeftOver(es + [e], k) == LeftOver(es, k)
  {
    if k == 0 {
    } else {
      LaterCallsDoNotCount(es, e, k - 1);
    }
  }

  /** The answer of the k-th call, given how many triggers had been issued and left over before: the
      time of the trigger issued by the call, less the triggers left over till then. */
  function Answer(lst: nat -> int, lmt: nat -> int, es: seq<Ending>, k: nat, issued: nat, lag: nat): (t: Outcome)
    requires k < |es| && lag <= issued
  {
    if es[k].Answered? then
      LeftAreIssued(es, k);
      var n := issued + Issues(es, k) - (lag + LeftOver(es, k));
      Time(lst(n), lmt(n))
    else Restart
  }

  /** With stamps that increase, an answered call gets the time of its own trigger exactly if no
      stamps were left over at first and no call before it was interrupted after its trigger. */
  lemma AnswerIsOwnIff(lst: nat -> int, lmt: nat -> int, es: seq<Ending>, k: nat, issued: nat, lag: nat)
    requires forall i: nat, j: nat :: i < j ==> lst(i) < lst(j)
    requires k < |es| && lag <= issued && es[k].Answered?
    ensures var own := issued + Issues(es, k);
            Answer(lst, lmt, es, k, issued, lag) == Time(lst(own), lmt(own))
            <==> lag == 0 && forall j :: 0 <= j < k ==> !es[j].AfterTrigger?
  {
    LeftAreIssued(es, k);
    NoneLeftIff(es, k);
    var own, late := issued + Issues(es, k), lag + LeftOver(es, k);
    assert late > 0 ==> lst(own - late) < lst(own);
  }

  /** The lag never shrinks. */
  lemma {:induction false} LagLasts(es: seq<Ending>, j: nat, k: nat)
    requires j <= k <= |es|
    ensures LeftOver(es, j) <= LeftOver(es, k)
    decreases k
  {
    if j == k {
    } else {
      LagLasts(es, j, k - 1);
    }
  }

  /** The two FIFOs together with the triggers issued so far: what each module stamps on the k-th
      trigger, and how many of the stamps the interrupt has moved into the FIFOs. */
  class TimeSource {
    const sc: TimeFifo
    const mc: TimeFifo
    const lst: nat -> int
    const lmt: nat -> int
    var issued: nat
    var scServed: nat
    var mcServed: nat

    /** Both FIFOs carry the stamps of consecutive triggers; `ahead` more machine-clock stamps have
        been taken than system-clock stamps. */
    ghost predicate Aligned(ahead: nat)
      reads this, sc, sc.stamp, mc, mc.stamp
    {
      && sc != mc && sc.stamp != mc.stamp && sc.Valid() && mc.Valid()
      && mc.taken == sc.taken + ahead && mc.taken <= mcServed <= scServed <= issued
      && issued - sc.taken < TRIG_LOG
      && |sc.contents| == scServed - sc.taken && |mc.contents| == mcServed - mc.taken
      && (forall k :: 0 <= k < |sc.contents| ==> sc.contents[k] == lst(sc.taken + k))
      && (forall k :: 0 <= k < |mc.contents| ==> mc.contents[k] == lmt(mc.taken + k))
    }

    ghost predicate Valid()
      reads this, sc, sc.stamp, mc, mc.stamp
    {
      Aligned(0)
    }

    constructor (lstOf: nat -> int, lmtOf: nat -> int)
      ensures Valid() && issued == 0 && sc.taken == 0 && lst == lstOf && lmt == lmtOf
      ensures fresh(sc) && fresh(sc.stamp) && fresh(mc) && fresh(mc.stamp)
    {
      sc := new TimeFifo();
      mc := new TimeFifo();
      lst, lmt := lstOf, lmtOf;
      issued, scServed, mcServed := 0, 0, 0;
    }

    method ServeSc(ghost ahead: nat)
      requires Aligned(ahead) && scServed < issued
      modifies this`scServed, sc`put, sc`contents, sc.stamp
      ensures Aligned(ahead) && scServed == old(scServed) + 1
    {
      ghost var before := sc.contents;
      var r := sc.Put(lst(scServed));
      assert r == 0 && sc.contents == before + [lst(scServed)];
      scServed := scServed + 1;
    }

    method ServeMc(ghost ahead: nat)
      requires Aligned(ahead) && mcServed < scServed
      modifies this`mcServed, mc`put, mc`contents, mc.stamp
      ensures Aligned(ahead) && mcServed == old(mcServed) + 1
      ensures 0 <= mc.get < TRIG_LOG && mc.stamp[mc.get] == old(mc.stamp[mc.get])
    {
      ghost var before := mc.contents;
      var r := mc.Put(lmt(mcServed));
      assert r == 0 && mc.contents == before + [lmt(mcServed)];
      mcServed := mcServed + 1;
    }

    /** One stamp moved by the interrupt handler, which serves the system-clock module before the
        machine-clock module; the slot handed out last keeps its stamp. */
    method Serve(ghost ahead: nat)
      requires Aligned(ahead)
      modifies this`scServed, this`mcServed, sc`put, sc`contents, sc.stamp, mc`put, mc`contents, mc.stamp
      ensures Aligned(ahead)
      ensures old(mcServed) < issued ==> scServed + mcServed > old(scServed + mcServed)
      ensures 0 <= mc.get < TRIG_LOG && mc.stamp[mc.get] == old(mc.stamp[mc.get])
    {
      var scFirst: bool := *;
      if scServed < issued && (scFirst || mcServed == scServed) {
        ServeSc(ahead);
      } else if mcServed < scServed {
        ServeMc(ahead);
      }
    }

    method ServeMany(ghost ahead: nat)
      requires Aligned(ahead)
      modifies this`scServed, this`mcServed, sc`put, sc`contents, sc.stamp, mc`put, mc`contents, mc.stamp
      ensures Aligned(ahead)
      ensures 0 <= mc.get < TRIG_LOG && mc.stamp[mc.get] == old(mc.stamp[mc.get])
    {
      var n: int := *;
      while n > 0
        invariant Aligned(ahead) && mc.stamp[mc.get] == old(mc.stamp[mc.get])
      {
        Serve(ahead);
        n := n - 1;
      }
    }

    method TakeMc() returns (slot: int)
      requires Valid() && mc.contents != []
      modifies mc`get, mc`contents, mc`taken
      ensures Aligned(1) && 0 <= slot < TRIG_LOG && slot == mc.get && mc.stamp[slot] == lmt(sc.taken)
    {
      slot := mc.Get();
    }

    /** Blocking read of the machine-clock FIFO; a signal may keep the caller from the lock or end
        its wait, but not once a stamp is there. */
    method GetBlockedMc(s: Signal) returns (ok: bool, value: int)
      requires Valid() && mc.taken < issued
      modifies this`scServed, this`mcServed, sc`put, sc`contents, sc.stamp,
               mc`put, mc`get, mc`contents, mc`taken, mc.stamp
      ensures !ok ==> (s.AtSecondLock? || s.InWait?) && Valid() && mc.taken == old(mc.taken)
      ensures ok ==> !s.AtSecondLock? && Aligned(1) && sc.taken == old(sc.taken) && value == lmt(sc.taken)
    {
      value := 0;
      if s.AtSecondLock? {
        return false, 0;
      }
      while mc.put == mc.get
        invariant Valid() && mc.taken == old(mc.taken)
        decreases 2 * issued - scServed - mcServed
      {
        mc.LengthIsContents();
        var arrived: bool := *;
        if s.InWait? && arrived {
          return false, 0;
        }
        Serve(0);
      }
      mc.LengthIsContents();
      var slot := TakeMc();
      ServeMany(1);
      value := mc.stamp[slot];
      ok := true;
    }

    /** Non-blocking read of the system-clock FIFO after the machine-clock stamp was taken. */
    method JoinSc(machine: int) returns (t: Outcome)
      requires Aligned(1)
      modifies sc`get, sc`contents, sc`taken
      ensures Valid() && sc.taken == old(sc.taken) + 1
      ensures t == Time(lst(old(sc.taken)), machine)
    {
      var slot := sc.Get();
      t := if slot == -1 then Fault else Time(sc.stamp[slot], machine);
    }

    /** Stamps waiting, or on their way, that no caller has taken. */
    ghost function Lag(): int
      reads this, sc
    {
      issued - sc.taken
    }

    /** `libera_get_CTIME`.  An answered call returns both stamps of the oldest trigger not yet
        answered, and the non-blocking read never fails.  A call interrupted after its trigger
        leaves its stamps to the callers after it. */
    method GetCtime(s: Signal) returns (t: Outcome, ghost e: Ending)
      requires Valid() && (Lag() < TRIG_LOG - 1 || s.AtFirstLock?)
      modifies this, sc, sc.stamp, mc, mc.stamp
      ensures Valid() && EndsBy(s, e)
      ensures issued == old(issued) + (if e.BeforeTrigger? then 0 else 1)
      ensures Lag() == old(Lag()) + (if e.AfterTrigger? then 1 else 0)
      ensures t == if e.Answered? then Time(lst(old(issued - Lag())), lmt(old(issued - Lag()))) else Restart
    {
      if s.AtFirstLock? {
        return Restart, BeforeTrigger;
      }
      issued := issued + 1;
      var ok, machine := GetBlockedMc(s);
      if !ok {
        return Restart, AfterTrigger;
      }
      e := Answered;
      t := JoinSc(machine);
    }

    /** A series of calls, while the FIFOs have room for the stamps that may be left over.  Every
        call is behind its own trigger by what was left over at first plus the calls interrupted
        after their triggers since. */
    method GetMany(ss: seq<Signal>) returns (ts: seq<Outcome>, ghost es: seq<Ending>)
      requires Valid() && Lag() + MayLeave(ss) < TRIG_LOG - 1
      modifies this, sc, sc.stamp, mc, mc.stamp
      ensures Valid() && |ts| == |es| == |ss|
      ensures forall k :: 0 <= k < |es| ==> EndsBy(ss[k], es[k])
      ensures issued == old(issued) + Issues(es, |es|) && Lag() == old(Lag()) + LeftOver(es, |es|)
      ensures forall k :: 0 <= k < |ts| ==> ts[k] == Answer(lst, lmt, es, k, old(issued), old(Lag()))
    {
      ts, es := [], [];
      while |ts| < |ss|
        invariant Valid() && |ts| == |es| <= |ss| && Lag() + MayLeave(ss[|ts|..]) < TRIG_LOG - 1
        invariant forall k :: 0 <= k < |es| ==> EndsBy(ss[k], es[k])
        invariant issued == old(issued) + Issues(es, |es|) && Lag() == old(Lag()) + LeftOver(es, |es|)
        invariant forall k :: 0 <= k < |ts| ==> ts[k] == Answer(lst, lmt, es, k, old(issued), old(Lag()))
      {
        var t, e := GetCtime(ss[|ts|]);
        NextAnswer(lst, lmt, es, e, old(issued), old(Lag()));
        AnswersNext(lst, lmt, ts, t, es, e, old(issued), old(Lag()));
        ts, es := ts + [t], es + [e];
      }
    }
  }

  lemma NextAnswer(lst: nat -> int, lmt: nat -> int, es: seq<Ending>, e: Ending, issued: nat, lag: nat)
    requires lag <= issued
    ensures Issues(es + [e], |es| + 1) == Issues(es, |es|) + if e.BeforeTrigger? then 0 else 1
    ensures LeftOver(es + [e], |es| + 1) == LeftOver(es, |es|) + if e.AfterTrigger? then 1 else 0
    ensures LeftOver(es, |es|) <= Issues(es, |es|)
    ensures var n := issued + Issues(es, |es|) - (lag + LeftOver(es, |es|));
            Answer(lst, lmt, es + [e], |es|, issued, lag) == if e.Answered? then Time(lst(n), lmt(n)) else Restart
  {
    LeftAreIssued(es, |es|);
    LaterCallsDoNotCount(es, e, |es|);
  }

  /** One more call. */
  lemma AnswersNext(lst: nat -> int, lmt: nat -> int, ts: seq<Outcome>, t: Outcome, es: seq<Ending>, e: Ending,
                    issued: nat, lag: nat)
    requires lag <= issued && |ts| == |es|
    requires forall k :: 0 <= k < |ts| ==> ts[k] == Answer(lst, lmt, es, k, issued, lag)
    requires t == Answer(lst, lmt, es + [e], |es|, issued, lag)
    ensures forall k :: 0 <= k < |ts + [t]| ==> (ts + [t])[k] == Answer(lst, lmt, es + [e], k, issued, lag)
  {
    forall k | 0 <= k < |ts + [t]|
      ensures (ts + [t])[k] == Answer(lst, lmt, es + [e], k, issued, lag)
    {
      if k < |ts| { LaterCallsDoNotCount(es, e, k); }
    }
  }

  /** One caller interrupted between its trigger and its answer, and the next caller gets the time
      of the interrupted caller's trigger. */
  method SecondCallerGetsFirstTime(lst: nat -> int, lmt: nat -> int) returns (first: Outcome, second: Outcome)
    ensures first == Restart && second == Time(lst(0), lmt(0))
  {
    var source := new TimeSource(lst, lmt);
    ghost var e;
    first, e := source.GetCtime(AtSecondLock);
    second, e := source.GetCtime(NoSignal);
  }

  /** With both FIFOs full the system-clock stamp of the next trigger is lost; if the reader takes a
      machine-clock stamp before that trigger's own one comes in, the FIFOs stay out of step, and
      the lost stamp's partner is paired with the next system-clock stamp to come in. */
  method FullFifosLoseStep(sc: TimeFifo, mc: TimeFifo, lost: int, partner: int)
    requires sc.Valid() && mc.Valid() && sc != mc && sc.stamp != mc.stamp
    requires |sc.contents| == |mc.contents| == TRIG_LOG - 1
    modifies sc, sc.stamp, mc, mc.stamp
    ensures sc.Valid() && sc.contents == old(sc.contents)[1..]
    ensures mc.Valid() && mc.contents == old(mc.contents)[1..] + [partner]
  {
    var _ := sc.Put(lost);
    var _ := mc.Get();
    var _ := mc.Put(partner);
    var _ := sc.Get();
  }

  /** A read while only the machine-clock stamp of the trigger has been served. */
  method ReadTooEarly(sc: TimeFifo, mc: TimeFifo, machine: int) returns (slot: int)
    requires sc.Valid() && mc.Valid() && sc != mc && sc.stamp != mc.stamp
    requires sc.contents == [] && mc.contents == []
    modifies sc, mc, mc.stamp
    ensures sc.Valid() && mc.Valid() && sc.contents == [] && mc.contents == []
    ensures slot == -1
  {
    var _ := mc.Put(machine);
    var _ := mc.Get();
    slot := sc.Get();
  }

  method PutTwo(q: TimeFifo, a: int, b: int)
    requires q.Valid() && q.contents == []
    modifies q, q.stamp
    ensures q.Valid() && q.contents == [a, b]
  {
    var _ := q.Put(a);
    var _ := q.Put(b);
  }

  /** The order matters: if the machine-clock module is once served first, the read fails with a
      fault, and from then on stamps of different triggers are paired. */
  method OutOfOrderServiceMispairs(lst: nat -> int, lmt: nat -> int)
      returns (first: int, systemStamp: int, machineStamp: int)
    ensures first == -1 && systemStamp == lst(0) && machineStamp == lmt(1)
  {
    var sc := new TimeFifo();
    var mc := new TimeFifo();
    first := ReadTooEarly(sc, mc, lmt(0));
    PutTwo(sc, lst(0), lst(1));
    var _ := mc.Put(lmt(1));
    var m := mc.Get();
    machineStamp := mc.stamp[m];
    var s := sc.Get();
    systemStamp := sc.stamp[s];
  }
}
