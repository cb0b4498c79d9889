/** Assembly of 64-bit event times from 26-bit hardware stamps and self-increment events, and the
    dispatch of an event to its triggers. */
module Timestamps {
  import opened Arithmetic
  import opened TimeBase
  import opened Wrapping

  const STAMP_RANGE := 0x400_0000        // 2^26
  const TRIGGERS: nat := 9               // bits 22..30 of the status word
  const TRIGGER: nat := 8                // the trigger that can set the time

  /** An entry of the timing module's event FIFO; `counter` is the hardware counter, of which the
      entry carries the low 26 bits. */
  datatype Event = Event(counter: nat, selfInc: bool, triggers: seq<bool>)

  datatype Dispatch = Dispatch(trigger: nat, stamp: int, raw: int)

  /** What the next trigger does: it is only told of, or it sets the time, to `refTime` with the phase
      `mcphi` if the machine time is to be updated; then the mode is GET again. */
  datatype Mode = Get | Set(update: bool, refTime: int, mcphi: int, period: nat)

  /** The offset added to raw stamps, the PLL's share that raw stamps already contain, the mode. */
  datatype Settings = Settings(off: int, offPll: int, mode: Mode)

  predicate IsSettings(s: Settings) {
    0 <= s.off < TIME_RANGE && 0 <= s.offPll
  }

  /** The settings after a trigger with this raw stamp. */
  function Triggered(s: Settings, raw: int): (t: Settings)
    requires IsSettings(s)
    ensures IsSettings(t) && t.mode.Get?
  {
    match s.mode
    case Get => s
    case Set(update, refTime, mcphi, period) =>
      if !update then s.(mode := Get)
      else
        var all := WholeOffset(refTime, mcphi, raw, s.offPll);
        var share := PllShare(all, period);
        ShareIsPart(all, period);
        Settings(all - share, share, Get)
  }

  lemma ShareIsPart(all: int, period: nat)
    requires all >= 0
    ensures 0 <= PllShare(all, period) <= all
  {
  }

  /** The settings after an event. */
  function AfterEvent(s: Settings, e: Event, raw: int): (t: Settings)
    requires IsSettings(s)
    ensures IsSettings(t)
  {
    if TRIGGER < |e.triggers| && e.triggers[TRIGGER] then Triggered(s, raw) else s
  }

  function Stamp26(e: Event): int { e.counter % STAMP_RANGE }

  function Epoch(c: int): int { c / STAMP_RANGE }

  // ---- Trigger demultiplexing ------------------------------------------------------------

  /** Indices of the set bits from `from` on, ascending. */
  function SetBits(bits: seq<bool>, from: nat): seq<nat>
    requires from <= |bits|
    decreases |bits| - from
  {
    if from == |bits| then []
    else (if bits[from] then [from] else []) + SetBits(bits, from + 1)
  }

  lemma {:induction false} SetBitsSound(bits: seq<bool>, from: nat)
    requires from <= |bits|
    ensures forall k :: 0 <= k < |SetBits(bits, from)| ==>
              from <= SetBits(bits, from)[k] < |bits| && bits[SetBits(bits, from)[k]]
    ensures forall k, l :: 0 <= k < l < |SetBits(bits, from)| ==>
              SetBits(bits, from)[k] < SetBits(bits, from)[l]
    ensures forall b :: from <= b < |bits| && bits[b] ==> b in SetBits(bits, from)
    decreases |bits| - from
  {
    if from == |bits| {
    } else {
      SetBitsSound(bits, from + 1);
    }
  }

  lemma {:induction false} SetBitsSkip(bits: seq<bool>, from: nat)
    requires from < |bits|
    ensures SetBits(bits[from := false], from) == SetBits(bits, from + 1)
  {
    SetBitsBelow(bits, from, from + 1);
  }

  lemma {:induction false} SetBitsBelow(bits: seq<bool>, b: nat, from: nat)
    requires b < from <= |bits|
    ensures SetBits(bits[b := false], from) == SetBits(bits, from)
    decreases |bits| - from
  {
    if from == |bits| {
    } else {
      SetBitsBelow(bits, b, from + 1);
    }
  }

  lemma {:induction false} SetBitsClear(bits: seq<bool>, from: nat, to: nat)
    requires from <= to <= |bits| && forall b :: from <= b < to ==> !bits[b]
    ensures SetBits(bits, from) == SetBits(bits, to)
    decreases |bits| - from
  {
    if from == to {
    } else {
      SetBitsClear(bits, from + 1, to);
    }
  }

  /** Whether any trigger bit is left. */
  predicate Any(bits: seq<bool>) { exists b :: 0 <= b < |bits| && bits[b] }

  function Count(bits: seq<bool>): nat { if bits == [] then 0 else (if bits[0] then 1 else 0) + Count(bits[1..]) }

  lemma {:induction false} CountCleared(bits: seq<bool>, i: nat)
    requires i < |bits| && bits[i]
    ensures Count(bits[i := false]) == Count(bits) - 1
  {
    if i == 0 {
      assert bits[0 := false][1..] == bits[1..];
    } else {
      assert bits[i := false][1..] == bits[1..][i - 1 := false];
      CountCleared(bits[1..], i - 1);
    }
  }

  /** The bit found next goes behind the ones done. */
  lemma NextBit(tl: seq<bool>, from: nat, i: nat, done: seq<nat>)
    requires from <= i < |tl| && tl[i] && forall b :: from <= b < i ==> !tl[b]
    ensures (done + [i]) + SetBits(tl[i := false], i) == done + SetBits(tl, from)
    ensures Count(tl[i := false]) == Count(tl) - 1
  {
    SetBitsClear(tl, from, i);
    SetBitsSkip(tl, i);
    CountCleared(tl, i);
    var rest := SetBits(tl, i + 1);
    assert done + ([i] + rest) == (done + [i]) + rest;
  }

  class EventModule {
    var time: int   // sc_time or mc_time
    var settings: Settings
    var log: seq<Dispatch>

    constructor (start: int, initial: Settings)
      requires 0 <= start < TIME_RANGE && IsSettings(initial)
      ensures Valid() && time == start && settings == initial && log == []
    {
      time, settings, log := start, initial, [];
    }

    predicate Valid()
      reads this
    {
      0 <= time < TIME_RANGE && IsSettings(settings)
    }

    /** A SET trigger sets the time; the PLL's share is kept out of the driver's. */
    method SetTime(raw: int)
      requires IsSettings(settings)
      modifies this`settings
      ensures settings == Triggered(old(settings), raw)
    {
      if settings.mode.Set? {
        if settings.mode.update {
          var all := U64(settings.mode.refTime - settings.mode.mcphi - raw + settings.offPll);
          var share := if settings.mode.period != 0 then all % settings.mode.period else 0;
          settings := settings.(off := all - share, offPll := share);
        }
        settings := settings.(mode := Get);
      }
    }

    /** One trigger bit. */
    method Handle(i: nat, stamp: int, raw: int)
      requires IsSettings(settings)
      modifies this`log, this`settings
      ensures log == old(log) + [Dispatch(i, stamp, raw)]
      ensures settings == if i == TRIGGER then Triggered(old(settings), raw) else old(settings)
    {
      log := log + [Dispatch(i, stamp, raw)];
      if i == TRIGGER {
        SetTime(raw);
      }
    }

    /** The nested loop over the trigger bits: each set bit once, in ascending order. */
    method Demux(triggers: seq<bool>, stamp: int, raw: int)
      requires |triggers| == TRIGGERS && IsSettings(settings)
      modifies this`log, this`settings
      ensures log == old(log) + Dispatches(SetBits(triggers, 0), stamp, raw)
      ensures settings == if triggers[TRIGGER] then Triggered(old(settings), raw) else old(settings)
    {
      var tl := triggers;
      var i := 0;
      ghost var done: seq<nat> := [];
      while Any(tl)
        invariant |tl| == TRIGGERS && 0 <= i <= TRIGGERS && IsSettings(settings)
        invariant forall b :: 0 <= b < i ==> !tl[b]
        invariant done + SetBits(tl, i) == SetBits(triggers, 0)
        invariant log == old(log) + Dispatches(done, stamp, raw)
        invariant settings == if triggers[TRIGGER] && !tl[TRIGGER] then Triggered(old(settings), raw)
                              else old(settings)
        invariant tl[TRIGGER] ==> triggers[TRIGGER]
        decreases Count(tl)
      {
        ghost var b :| 0 <= b < |tl| && tl[b];
        ghost var i0 := i;
        while !tl[i]
          invariant i0 <= i <= b && forall k :: 0 <= k < i ==> !tl[k]
          decreases b - i
        {
          i := i + 1;
        }
        NextBit(tl, i0, i, done);
        DispatchesAppend(done, i, stamp, raw);
        tl := tl[i := false];
        Handle(i, stamp, raw);
        done := done + [i];
      }
      SetBitsClear(tl, i, TRIGGERS);
      assert done + [] == done;
    }

    /** The interrupt handler: empties the event FIFO. */
    method HandleFifo(fifo: seq<Event>)
      requires Valid() && forall k :: 0 <= k < |fifo| ==> |fifo[k].triggers| == TRIGGERS
      modifies this
      ensures Valid() && time == TimeAfter(old(time), fifo)
      ensures log == old(log) + LogOf(fifo, old(time), old(settings))
      ensures settings == SettingsAfter(fifo, old(time), old(settings))
      ensures Undisturbed(fifo, old(settings)) ==>
                && settings == old(settings)
                && forall k :: |old(log)| <= k < |log| ==> log[k].stamp == U64(log[k].raw + settings.off)
    {
      if Undisturbed(fifo, settings) { GetLeavesTime(fifo, time, settings); }
      var k := 0;
      assert fifo[0..] == fifo;
      while k < |fifo|
        invariant 0 <= k <= |fifo| && Valid()
        invariant TimeAfter(time, fifo[k..]) == TimeAfter(old(time), fifo)
        invariant log + LogOf(fifo[k..], time, settings) == old(log) + LogOf(fifo, old(time), old(settings))
        invariant SettingsAfter(fifo[k..], time, settings) == SettingsAfter(fifo, old(time), old(settings))
      {
        HandleEvent(fifo[k]);
        assert fifo[k..] == [fifo[k]] + fifo[k + 1..];
        k := k + 1;
      }
    }

    method HandleEvent(e: Event)
      requires Valid() && |e.triggers| == TRIGGERS
      modifies this
      ensures time == Advance(old(time), e) && Valid()
      ensures log == old(log) + EventLog(e, time, old(settings).off)
      ensures settings == AfterEvent(old(settings), e, Assembled(time, e))
    {
      var stamp := Stamp26(e);
      if e.selfInc {
        time := (time + STAMP_RANGE) % TIME_RANGE;
      }
      stamp := stamp + (time - time % STAMP_RANGE);
      var raw := stamp;
      stamp := (stamp + settings.off) % TIME_RANGE;
      Demux(e.triggers, stamp, raw);
    }
  }

  /** The software part of the clock after an event. */
  function Advance(time: int, e: Event): (t: int)
    ensures 0 <= time < TIME_RANGE ==> 0 <= t < TIME_RANGE
  {
    if e.selfInc then (time + STAMP_RANGE) % TIME_RANGE else time
  }

  function TimeAfter(time: int, events: seq<Event>): int
    decreases events
  {
    if events == [] then time else TimeAfter(Advance(time, events[0]), events[1..])
  }

  /** The upper 38 bits of the clock joined with the 26 bits of the stamp. */
  function Assembled(time: int, e: Event): int { Stamp26(e) + (time - time % STAMP_RANGE) }

  /** What an event dispatches when the clock, already advanced, stands at `time`. */
  function EventLog(e: Event, time: int, off: int): seq<Dispatch> {
    Dispatches(SetBits(e.triggers, 0), (Assembled(time, e) + off) % TIME_RANGE, Assembled(time, e))
  }

  function LogOf(events: seq<Event>, time: int, s: Settings): seq<Dispatch>
    requires IsSettings(s)
  {
    if events == [] then []
    else var t := Advance(time, events[0]);
         EventLog(events[0], t, s.off)
         + LogOf(events[1..], t, AfterEvent(s, events[0], Assembled(t, events[0])))
  }

  function SettingsAfter(events: seq<Event>, time: int, s: Settings): Settings
    requires IsSettings(s)
  {
    if events == [] then s
    else var t := Advance(time, events[0]);
         SettingsAfter(events[1..], t, AfterEvent(s, events[0], Assembled(t, events[0])))
  }

  // ---- The assembled stamps --------------------------------------------------------------

  /** Stamps assembled along a run of events. */
  function Stamps(events: seq<Event>, time: int): (r: seq<int>)
    ensures |r| == |events|
  {
    if events == [] then []
    else var t := Advance(time, events[0]);
         [Assembled(t, events[0])] + Stamps(events[1..], t)
  }

  /** A self-increment is the first event of each epoch, and of no other. */
  predicate Disciplined(events: seq<Event>, epoch: int) {
    events == []
    || (Epoch(events[0].counter) == epoch + (if events[0].selfInc then 1 else 0)
        && Disciplined(events[1..], Epoch(events[0].counter)))
  }

  /** Hardware counters never run backwards and fit 64 bits. */
  predicate Forward(events: seq<Event>, from: int) {
    events == []
    || (from <= events[0].counter < TIME_RANGE && Forward(events[1..], events[0].counter))
  }

  /** The stamps equal the true counters exactly for the runs in which every epoch opens with its
      self-increment event. */
  lemma {:induction false} StampsAreCounters(events: seq<Event>, time: int, from: int)
    requires 0 <= time < TIME_RANGE && 0 <= from < TIME_RANGE && Epoch(time) == Epoch(from)
    requires Forward(events, from)
    ensures (forall k :: 0 <= k < |events| ==> Stamps(events, time)[k] == events[k].counter)
            <==> Disciplined(events, Epoch(from))
  {
    if events == [] {
    } else {
      var e, rest := events[0], events[1..];
      var t := Advance(time, e);
      assert Stamps(events, time)[0] == Assembled(t, e);
      assert forall k :: 0 <= k < |rest| ==>
               Stamps(events, time)[k + 1] == Stamps(rest, t)[k] && events[k + 1] == rest[k];
      AssembledIff(t, e);
      EpochAdvance(time, e, from);
      if Epoch(t) == Epoch(e.counter) {
        StampsAreCounters(rest, t, e.counter);
        HeadAndTail(Stamps(events, time), events, Stamps(rest, t), rest);
      }
    }
  }

  lemma HeadAndTail(ss: seq<int>, es: seq<Event>, ss': seq<int>, es': seq<Event>)
    requires |ss| == |es| > 0 && ss' == ss[1..] && es' == es[1..]
    ensures (forall k :: 0 <= k < |es| ==> ss[k] == es[k].counter)
            <==> ss[0] == es[0].counter && forall k :: 0 <= k < |es'| ==> ss'[k] == es'[k].counter
  {
    if ss[0] == es[0].counter && forall k :: 0 <= k < |es'| ==> ss'[k] == es'[k].counter {
      forall k | 0 <= k < |es| ensures ss[k] == es[k].counter {
        if k > 0 { assert ss'[k - 1] == es'[k - 1].counter; }
      }
    } else if ss[0] == es[0].counter {
      var k :| 0 <= k < |es'| && ss'[k] != es'[k].counter;
      assert ss[k + 1] != es[k + 1].counter;
    }
  }

  lemma AssembledIff(t: int, e: Event)
    ensures Assembled(t, e) == e.counter <==> Epoch(t) == Epoch(e.counter)
  {
  }

  /** As counters run forward, a wrapped clock cannot match by accident. */
  lemma EpochAdvance(time: int, e: Event, from: int)
    requires 0 <= time < TIME_RANGE && Epoch(time) == Epoch(from) && from <= e.counter < TIME_RANGE
    ensures Epoch(Advance(time, e)) == Epoch(e.counter)
            <==> Epoch(e.counter) == Epoch(from) + (if e.selfInc then 1 else 0)
  {
  }

  /** So stamps never run backwards on such a run. */
  lemma {:induction false} StampsAreMonotone(events: seq<Event>, time: int, from: int, k: nat, l: nat)
    requires 0 <= time < TIME_RANGE && 0 <= from < TIME_RANGE && Epoch(time) == Epoch(from)
    requires Forward(events, from) && Disciplined(events, Epoch(from)) && k <= l < |events|
    ensures Stamps(events, time)[k] <= Stamps(events, time)[l]
  {
    StampsAreCounters(events, time, from);
    ForwardOrder(events, from, k, l);
  }

  lemma {:induction false} ForwardOrder(events: seq<Event>, from: int, k: nat, l: nat)
    requires Forward(events, from) && k <= l < |events|
    ensures from <= events[k].counter <= events[l].counter
    decreases |events|
  {
    if l > 0 {
      ForwardOrder(events[1..], events[0].counter, if k > 0 then k - 1 else 0, l - 1);
    }
  }

  function Dispatches(order: seq<nat>, stamp: int, raw: int): seq<Dispatch> {
    if order == [] then [] else [Dispatch(order[0], stamp, raw)] + Dispatches(order[1..], stamp, raw)
  }

  lemma {:induction false} DispatchesAppend(order: seq<nat>, i: nat, stamp: int, raw: int)
    ensures Dispatches(order + [i], stamp, raw) == Dispatches(order, stamp, raw) + [Dispatch(i, stamp, raw)]
  {
    if order == [] {
      assert [i][1..] == [];
    } else {
      assert (order + [i])[1..] == order[1..] + [i];
      DispatchesAppend(order[1..], i, stamp, raw);
    }
  }

  /** Every set trigger of every event once, in order, with the true counter plus the offset, which a
      SET trigger changes for the events behind it. */
  function TrueLog(events: seq<Event>, s: Settings): seq<Dispatch>
    requires IsSettings(s)
  {
    if events == [] then []
    else var e := events[0];
         Dispatches(SetBits(e.triggers, 0), U64(e.counter + s.off), e.counter)
         + TrueLog(events[1..], AfterEvent(s, e, e.counter))
  }

  /** On a disciplined run the handler dispatches true times. */
  lemma {:induction false} LogIsTrue(events: seq<Event>, time: int, from: int, s: Settings)
    requires 0 <= time < TIME_RANGE && 0 <= from < TIME_RANGE && Epoch(time) == Epoch(from)
    requires Forward(events, from) && Disciplined(events, Epoch(from)) && IsSettings(s)
    ensures LogOf(events, time, s) == TrueLog(events, s)
    decreases events
  {
    if events == [] {
    } else {
      var e := events[0];
      EpochAdvance(time, e, from);
      AssembledIff(Advance(time, e), e);
      LogIsTrue(events[1..], Advance(time, e), e.counter, AfterEvent(s, e, e.counter));
    }
  }

  predicate IsTrigger(e: Event) { TRIGGER < |e.triggers| && e.triggers[TRIGGER] }

  /** Two logs that start with the same event at the same offset start alike. */
  lemma FirstOfLogs(e: Event, rest: seq<Event>, s: Settings, rest': seq<Event>, s': Settings) returns (head: seq<Dispatch>)
    requires IsSettings(s) && IsSettings(s') && s.off == s'.off
    ensures TrueLog([e] + rest, s) == head + TrueLog(rest, AfterEvent(s, e, e.counter))
    ensures TrueLog([e] + rest', s') == head + TrueLog(rest', AfterEvent(s', e, e.counter))
  {
    head := Dispatches(SetBits(e.triggers, 0), U64(e.counter + s.off), e.counter);
    assert ([e] + rest)[1..] == rest && ([e] + rest')[1..] == rest';
  }

  lemma SplitHere(e: Event, after: seq<Event>, s: Settings)
    requires IsSettings(s) && IsTrigger(e)
    ensures TrueLog([e] + after, s)
            == TrueLog([e] + [], s.(mode := Get)) + TrueLog(after, Triggered(s, e.counter))
  {
    var head := FirstOfLogs(e, after, s, [], s.(mode := Get));
  }

  lemma SplitLater(b: Event, all: seq<Event>, part: seq<Event>, s: Settings, tail: seq<Dispatch>)
    requires IsSettings(s) && !IsTrigger(b)
    requires TrueLog(all, s) == TrueLog(part, s.(mode := Get)) + tail
    ensures TrueLog([b] + all, s) == TrueLog([b] + part, s.(mode := Get)) + tail
  {
    var head := FirstOfLogs(b, all, s, part, s.(mode := Get));
    Regrouped(head, TrueLog(part, s.(mode := Get)), tail, TrueLog(all, s));
  }

  lemma Regrouped<T>(head: seq<T>, part: seq<T>, tail: seq<T>, all: seq<T>)
    requires all == part + tail
    ensures head + all == (head + part) + tail
  {
  }

  /** One SET trigger sets the time once: events up to it carry the old offset, and the events behind
      it the new one, however many triggers follow. */
  lemma {:induction false} SetSplitsLog(events: seq<Event>, n: nat, s: Settings)
    requires IsSettings(s) && n < |events| && IsTrigger(events[n])
    requires forall k :: 0 <= k < n ==> !IsTrigger(events[k])
    ensures TrueLog(events, s)
            == TrueLog(events[..n + 1], s.(mode := Get)) + TrueLog(events[n + 1..], Triggered(s, events[n].counter))
  {
    var b, rest := events[0], events[1..];
    assert events == [b] + rest;
    if n == 0 {
      assert events[..1] == [b] + [];
      SplitHere(b, rest, s);
    } else {
      assert rest[n - 1] == events[n] && rest[n..] == events[n + 1..] && events[..n + 1] == [b] + rest[..n];
      SetSplitsLog(rest, n - 1, s);
      SplitLater(b, rest, rest[..n], s, TrueLog(rest[n..], Triggered(s, events[n].counter)));
    }
  }

  /** A stretch of events that leaves the time alone: the mode is GET, or none of them carries the
      trigger that could set it. */
  predicate Undisturbed(events: seq<Event>, s: Settings) {
    s.mode.Get? || forall k :: 0 <= k < |events| ==> !IsTrigger(events[k])
  }

  /** Only trigger 8 can change the settings. */
  lemma OnlyTriggerEight(s: Settings, e: Event, raw: int)
    requires IsSettings(s) && (|e.triggers| > 8 ==> !e.triggers[8])
    ensures AfterEvent(s, e, raw) == s
  {
  }

  /** Whatever triggers come in GET mode, every dispatch carries its raw stamp plus the offset of the
      start, and the settings stay as they are. */
  lemma {:induction false} GetLeavesTime(events: seq<Event>, time: int, s: Settings)
    requires IsSettings(s) && Undisturbed(events, s)
    ensures SettingsAfter(events, time, s) == s
    ensures forall d :: d in LogOf(events, time, s) ==> d.stamp == U64(d.raw + s.off)
    decreases events
  {
    if events == [] {
    } else {
      var e, t := events[0], Advance(time, events[0]);
      assert AfterEvent(s, e, Assembled(t, e)) == s;
      GetLeavesTime(events[1..], t, s);
      DispatchesAre(SetBits(e.triggers, 0), U64(Assembled(t, e) + s.off), Assembled(t, e));
    }
  }

  /** In SET mode the settings at the end are those that the first trigger leaves. */
  lemma {:induction false} SetOnce(events: seq<Event>, n: nat, time: int, s: Settings)
    requires IsSettings(s) && n < |events| && IsTrigger(events[n])
    requires forall k :: 0 <= k < n ==> !IsTrigger(events[k])
    ensures SettingsAfter(events, time, s) == Triggered(s, Stamps(events, time)[n])
    decreases n
  {
    var e, rest, t := events[0], events[1..], Advance(time, events[0]);
    if n == 0 {
      GetLeavesTime(rest, t, Triggered(s, Assembled(t, e)));
    } else {
      assert rest[n - 1] == events[n] && Stamps(events, time)[n] == Stamps(rest, t)[n - 1];
      SetOnce(rest, n - 1, t, s);
    }
  }

  lemma {:induction false} DispatchesAre(order: seq<nat>, stamp: int, raw: int)
    ensures |Dispatches(order, stamp, raw)| == |order|
    ensures forall k :: 0 <= k < |order| ==> Dispatches(order, stamp, raw)[k] == Dispatch(order[k], stamp, raw)
  {
    if order == [] {
    } else {
      DispatchesAre(order[1..], stamp, raw);
    }
  }

  /** A trigger in SET mode without an update changes the mode only; with one, the two shares make up the
      whole offset, the driver's a whole number of periods and the PLL's less than one. */
  lemma SetChanges(s: Settings, raw: int)
    requires IsSettings(s) && s.mode.Set?
    ensures var t := Triggered(s, raw);
            && t.mode == Get
            && (!s.mode.update ==> t.off == s.off && t.offPll == s.offPll)
            && (s.mode.update ==>
                  && U64(t.off + t.offPll + raw) == U64(s.mode.refTime - s.mode.mcphi + s.offPll)
                  && (s.mode.period == 0 ==> t.offPll == 0)
                  && (s.mode.period > 0 ==> 0 <= t.offPll < s.mode.period && t.off % s.mode.period == 0))
  {
    if s.mode.update {
      var x := s.mode.refTime - s.mode.mcphi - raw + s.offPll;
      U64Add(x, raw);
      if s.mode.period > 0 { MultipleOf(U64(x), s.mode.period); }
    }
  }

  /** Behind it time runs on from the reference, as far as the PLL's share has come to be part of the
      counter. */
  lemma TimeRunsOn(s: Settings, raw: int, counter: int)
    requires IsSettings(s) && s.mode.Set? && s.mode.update
    ensures var t := Triggered(s, raw);
            U64(counter + (t.offPll - s.offPll) + t.off)
            == U64(s.mode.refTime - s.mode.mcphi + (counter - raw))
  {
    var x := s.mode.refTime - s.mode.mcphi - raw + s.offPll;
    U64Add(x, counter - s.offPll);
  }
}
