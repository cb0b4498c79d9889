/** The voltage monitor: an MSP430 slave that converts eight channels and answers over SPI with
    a delay of one exchange, and the master that polls it and reads sixteen bytes. */
module Msp {

  const CONV_START := 0x10
  const CONV_IN_PROGRESS := 0xef
  const CONV_TEST := 0xa5
  const PROTO_END := 0x10

  /** Where the slave's main loop stands. */
  datatype Phase =
    | Asleep               // data ready, processor in low-power mode
    | Woken                // left low-power mode, `no_data` not yet set again
    | Converting(left: nat)
    | Writing(j: nat)      // j results stored
    | Ready                // data ready, about to sleep

  predicate ValidSample(ws: seq<int>) {
    |ws| == 8 && forall i :: 0 <= i < 8 ==> 0 <= ws[i] < 0x1_0000
  }

  /** The conversion results as the slave stores them, low byte first. */
  function Bytes(ws: seq<int>): (bs: seq<int>)
    requires ValidSample(ws)
    ensures |bs| == 16
  {
    seq(16, i requires 0 <= i < 16 => if i % 2 == 0 then ws[i / 2] % 256 else ws[i / 2] / 256)
  }

  /** What the receive interrupt loads for the next exchange. */
  function Reply(noData: bool, data: seq<int>, rx: int): int
    requires |data| == 16
  {
    if noData then 0xef
    else if 0 <= rx <= 15 then data[rx]
    else if rx == 16 then 0xef
    else (rx + 1) % 256
  }

  class Slave {
    var noData: bool
    const byteData: array<int>
    var txBuf: int
    var phase: Phase
    // completed conversions; results and duration of each are given by the outside world
    var conversions: nat
    const adc: nat -> seq<int>
    const time: nat -> nat

    ghost predicate Valid()
      reads this, byteData
    {
      && byteData.Length == 16
      && (forall n :: ValidSample(adc(n)))
      && match phase
         case Converting(_) => noData
         case Writing(j) => noData && j <= 8 && byteData[..2 * j] == Bytes(adc(conversions))[..2 * j]
         case _ => Holds()
    }

    /** The table holds exactly the latest conversion. */
    ghost predicate Holds()
      requires byteData.Length == 16 && forall n :: ValidSample(adc(n))
      reads this, byteData
    {
      !noData && conversions > 0 && byteData[..] == Bytes(adc(conversions - 1))
    }

    /** Data is served and the main loop will not touch it before the next start request. */
    ghost predicate Stable()
      reads this
    {
      phase.Asleep? || phase.Ready?
    }

    ghost function StepsLeft(): nat
      reads this
    {
      match phase
      case Asleep => 0
      case Ready => 1
      case Writing(j) => if j <= 8 then 10 - j else 0
      case Converting(left) => 11 + left
      case Woken => 12 + time(conversions)
    }

    constructor (samples: nat -> seq<int>, duration: nat -> nat)
      requires forall n :: ValidSample(samples(n))
      ensures Valid() && adc == samples && time == duration && noData && fresh(byteData)
      ensures txBuf == 0xaa && conversions == 0
    {
      adc, time := samples, duration;
      byteData := new int[16];
      noData, txBuf, conversions := true, 0xaa, 0;
      phase := Converting(duration(0));
    }

    /** The receive interrupt. */
    method RxIsr(rx: int)
      requires Valid() && 0 <= rx < 256
      modifies this`txBuf, this`phase
      ensures Valid() && txBuf == Reply(noData, byteData[..], rx)
      ensures phase == if old(phase).Asleep? && rx == 16 then Woken else old(phase)
    {
      if noData {
        txBuf := 0xef;
      } else if 0 <= rx <= 15 {
        txBuf := byteData[rx];
      } else if rx == 16 {
        txBuf := 0xef;
        if phase.Asleep? {
          phase := Woken;
        }
      } else {
        txBuf := (rx + 1) % 256;
      }
    }

    /** One step of the main loop. */
    method MainStep()
      requires Valid() && !phase.Asleep?
      modifies this`noData, this`phase, this`conversions, byteData
      ensures Valid() && StepsLeft() < old(StepsLeft()) && !phase.Woken?
      ensures old(phase).Woken? ==> noData && phase.Converting?
      ensures old(Stable()) ==> Stable() && noData == old(noData) && byteData[..] == old(byteData[..])
      ensures conversions == old(conversions) + (if old(!Stable()) && Stable() then 1 else 0)
    {
      match phase
      case Woken =>
        noData := true;
        phase := Converting(time(conversions));
      case Converting(left) =>
        phase := if left > 0 then Converting(left - 1) else Writing(0);
      case Writing(j) =>
        if j < 8 {
          StoreResult(j);
        } else {
          noData := false;
          conversions := conversions + 1;
          phase := Ready;
        }
      case Ready =>
        phase := Asleep;
    }

    method StoreResult(j: nat)
      requires Valid() && phase == Writing(j) && j < 8
      modifies this`phase, byteData
      ensures Valid() && phase == Writing(j + 1)
    {
      var w := adc(conversions)[j];
      ghost var before, target := byteData[..], Bytes(adc(conversions));
      byteData[2 * j] := w % 256;
      byteData[2 * j + 1] := w / 256;
      phase := Writing(j + 1);
      assert byteData[..2 * j] == before[..2 * j];
      assert byteData[..2 * (j + 1)] == byteData[..2 * j] + [w % 256, w / 256];
      assert target[..2 * (j + 1)] == target[..2 * j] + [target[2 * j], target[2 * j + 1]];
    }

    /** The main loop runs for a while: at least one step unless it sleeps. */
    method MainRuns()
      requires Valid()
      modifies this`noData, this`phase, this`conversions, byteData
      ensures Valid() && !phase.Woken?
      ensures StepsLeft() <= old(StepsLeft())
      ensures !old(phase).Asleep? ==> StepsLeft() < old(StepsLeft())
      ensures old(Stable()) ==> Stable() && noData == old(noData) && byteData[..] == old(byteData[..])
      ensures conversions == old(conversions) + (if old(!Stable()) && Stable() then 1 else 0)
    {
      var more := !phase.Asleep?;
      while more && !phase.Asleep?
        invariant Valid() && (more || !phase.Woken?)
        invariant StepsLeft() <= old(StepsLeft())
        invariant more || old(phase).Asleep? || StepsLeft() < old(StepsLeft())
        invariant StepsLeft() < old(StepsLeft()) || phase == old(phase)
        invariant old(Stable()) ==> Stable() && noData == old(noData) && byteData[..] == old(byteData[..])
        invariant conversions == old(conversions) + (if old(!Stable()) && Stable() then 1 else 0)
        decreases StepsLeft()
      {
        MainStep();
        more := *;
      }
    }
  }

  datatype Status = Done | BadExchange  // 0, -EBADE

  class Master {
    const buf: array<int>
    var rxSeq: nat

    constructor ()
      ensures buf.Length == PROTO_END && fresh(buf)
    {
      buf := new int[PROTO_END];
      rxSeq := 0;
    }

    /** Exchanges one byte.  What comes back was loaded before `tx` arrived; the slave's main loop
        runs before the next exchange. */
    method SspExchange(slave: Slave, tx: int) returns (rx: int)
      requires slave.Valid() && 0 <= tx < 256 && buf != slave.byteData
      modifies slave, slave.byteData
      ensures slave.Valid() && rx == old(slave.txBuf) && !slave.phase.Woken?
      ensures slave.txBuf == Reply(old(slave.noData), old(slave.byteData[..]), tx)
      ensures old(slave.Stable()) && (tx != CONV_START || old(slave.phase).Ready?) ==>
                slave.Stable() && slave.byteData[..] == old(slave.byteData[..])
                && slave.conversions == old(slave.conversions)
                && slave.StepsLeft() <= old(slave.StepsLeft())
      ensures old(slave.noData) ==> slave.StepsLeft() < old(slave.StepsLeft())
      ensures slave.conversions
                == old(slave.conversions)
                   + (if !(old(slave.Stable()) && !(old(slave.phase).Asleep? && tx == CONV_START))
                         && slave.Stable() then 1 else 0)
    {
      rx := slave.txBuf;
      slave.RxIsr(tx);
      slave.MainRuns();
    }

    /** Starts a conversion and polls until its end is reported. */
    method AwaitConversion(slave: Slave) returns (eoc: int)
      requires slave.Valid() && !slave.phase.Woken? && buf != slave.byteData
      modifies slave, slave.byteData
      ensures slave.Valid() && slave.Stable() && eoc == slave.txBuf == CONV_TEST + 1
      ensures slave.conversions == old(slave.conversions) + (if old(slave.phase).Ready? then 0 else 1)
    {
      var _ := SspExchange(slave, CONV_START);
      eoc := SspExchange(slave, CONV_TEST);
      while eoc == CONV_IN_PROGRESS
        invariant slave.Valid() && !slave.phase.Woken? && (old(slave.phase).Ready? ==> slave.Stable())
        invariant eoc == CONV_IN_PROGRESS || (eoc == CONV_TEST + 1 && slave.Stable())
        invariant slave.txBuf == CONV_IN_PROGRESS || (slave.txBuf == CONV_TEST + 1 && slave.Stable())
        invariant eoc == CONV_TEST + 1 ==> slave.txBuf == CONV_TEST + 1
        invariant slave.conversions
                    == old(slave.conversions)
                       + (if slave.Stable() && !old(slave.phase).Ready? then 1 else 0)
        decreases eoc == CONV_IN_PROGRESS, slave.StepsLeft(), slave.txBuf == CONV_IN_PROGRESS
      {
        eoc := SspExchange(slave, CONV_TEST);
      }
    }

    /** One atom of `msp_transfer`.  The check before the data never fails, and the sixteen bytes
        are those of one completed conversion: a new one, unless the start request fell between
        the end of a conversion and the slave going to sleep. */
    method Transfer(slave: Slave) returns (status: Status)
      requires slave.Valid() && !slave.phase.Woken? && buf.Length == PROTO_END && buf != slave.byteData
      modifies this, buf, slave, slave.byteData
      ensures slave.Valid() && !slave.phase.Woken? && status == Done && rxSeq == PROTO_END
      ensures buf[..] == slave.byteData[..]
      ensures slave.conversions == old(slave.conversions) + (if old(slave.phase).Ready? then 0 else 1)
      ensures slave.conversions > 0 && buf[..] == Bytes(slave.adc(slave.conversions - 1))
    {
      var eoc := AwaitConversion(slave);
      rxSeq := 0;
      var rx := SspExchange(slave, rxSeq);
      status := if rx != CONV_TEST + 1 then BadExchange else Done;
      if status == Done {
        ReadData(slave);
      }
    }

    /** The data phase: byte j comes back with request j + 1. */
    method ReadData(slave: Slave)
      requires slave.Valid() && slave.Stable() && buf.Length == PROTO_END && buf != slave.byteData
      requires rxSeq == 0 && slave.txBuf == slave.byteData[0]
      modifies this, buf, slave, slave.byteData
      ensures slave.Valid() && slave.Stable() && rxSeq == PROTO_END
      ensures buf[..] == slave.byteData[..] == old(slave.byteData[..])
      ensures slave.conversions == old(slave.conversions)
    {
      ghost var data := slave.byteData[..];
      assert data[0] == slave.byteData[0] && buf[..0] == data[..0];
      var j := 1;
      while j < PROTO_END
        invariant slave.Valid() && slave.Stable() && 1 <= j <= PROTO_END && rxSeq == j - 1
        invariant slave.byteData[..] == data && slave.conversions == old(slave.conversions)
        invariant slave.txBuf == data[j - 1] && buf[..rxSeq] == data[..rxSeq]
      {
        StoreExchange(slave, j, data);
        j := j + 1;
      }
      StoreExchange(slave, PROTO_END - 1, data);
      assert buf[..] == buf[..PROTO_END] && data == data[..PROTO_END];
    }

    /** Stores what comes back for one request of the data phase. */
    method StoreExchange(slave: Slave, tx: nat, ghost data: seq<int>)
      requires slave.Valid() && slave.Stable() && buf.Length == PROTO_END && buf != slave.byteData
      requires tx < PROTO_END && rxSeq < PROTO_END && slave.byteData[..] == data
      requires slave.txBuf == data[rxSeq] && buf[..rxSeq] == data[..rxSeq]
      modifies this, buf, slave, slave.byteData
      ensures slave.Valid() && slave.Stable() && slave.byteData[..] == data
      ensures slave.conversions == old(slave.conversions) && slave.txBuf == data[tx]
      ensures rxSeq == old(rxSeq) + 1 && buf[..rxSeq] == data[..rxSeq]
    {
      var rx := SspExchange(slave, tx);
      buf[rxSeq] := rx;
      assert buf[..rxSeq + 1] == data[..rxSeq] + [rx];
      rxSeq := rxSeq + 1;
    }
  }

  // ---- Voltages --------------------------------------------------------------------------

  const ADC_VREF := 2500
  const ADC_RANGE := 4096

  function Num(i: nat): int
    requires i < 8
  {
    [101, 101, 120, 1511, 250, 611, 315, 290][i]
  }

  function Denom(i: nat): (d: int)
    requires i < 8
    ensures d > 0
  {
    if i == 3 then 1000 else 100
  }

  /** The 16-bit count the master puts together from two received bytes. */
  function RawCount(raw: seq<int>, i: nat): int
    requires |raw| == 16 && i < 8
  {
    raw[2 * i + 1] * 256 + raw[2 * i]
  }

  /** Both ends agree on the byte order. */
  lemma WordsComeBack(ws: seq<int>, i: nat)
    requires ValidSample(ws) && i < 8
    ensures RawCount(Bytes(ws), i) == ws[i]
  {
    assert (2 * i + 1) % 2 == 1 && (2 * i + 1) / 2 == i;
  }

  /** Millivolts of channel i before the offsets of the two negative supplies. */
  function Scaled(count: int, i: nat): int
    requires i < 8 && 0 <= count
  {
    count * ADC_VREF / ADC_RANGE * Num(i) / Denom(i)
  }

  /** What `msp_transform` makes of the eight conversion results. */
  function Voltage(ws: seq<int>, i: nat): int
    requires ValidSample(ws) && i < 8
  {
    if i == 6 then Scaled(ws[6], 6) - Scaled(ws[5], 5) * 1500 / 1000
    else if i == 7 then Scaled(ws[7], 7) - 8250
    else Scaled(ws[i], i)
  }

  /** The two-step scaling stays within 32 bits and never reverses two readings. */
  lemma ScalingIsMonotone(a: int, b: int, i: nat)
    requires 0 <= a <= b < 0x1_0000 && i < 8
    ensures 0 <= Scaled(a, i) <= Scaled(b, i)
    ensures b * ADC_VREF < 0x8000_0000 && b * ADC_VREF / ADC_RANGE * Num(i) < 0x8000_0000
  {
    var x, y := a * ADC_VREF / ADC_RANGE, b * ADC_VREF / ADC_RANGE;
    assert 0 <= x <= y < 40000;
  }

  /** Each voltage depends on its own count alone, that of the negative supply with a divider between
      two supplies also on count 5. */
  lemma VoltageDependsOn(ws: seq<int>, us: seq<int>, i: nat)
    requires ValidSample(ws) && ValidSample(us) && i < 8
    requires ws[i] == us[i] && (i == 6 ==> ws[5] == us[5])
    ensures Voltage(ws, i) == Voltage(us, i)
  {
  }

  /** It grows with its own count, and that supply falls as count 5 rises. */
  lemma VoltageFollows(ws: seq<int>, us: seq<int>, i: nat)
    requires ValidSample(ws) && ValidSample(us) && i < 8
    requires ws[i] <= us[i] && (i == 6 ==> ws[5] >= us[5])
    ensures Voltage(ws, i) <= Voltage(us, i)
  {
    ScalingIsMonotone(ws[i], us[i], i);
    if i == 6 { ScalingIsMonotone(us[5], ws[5], 5); }
  }

  // ---- Supplies --------------------------------------------------------------------------

  /** Millivolts above ground of what channel i measures, for supplies of these millivolts: the
      dividers of the two negative supplies end at the supply of channel 5 and at 5.5 V. */
  function Lifted(supply: seq<int>, i: nat): int
    requires |supply| == 8 && i < 8
  {
    if i == 6 then supply[6] + supply[5] * 3 / 2
    else if i == 7 then supply[7] + 8250
    else supply[i]
  }

  /** The converter's full scale of 2.5 V, in tenths of a millivolt in front of the divider of
      channel i. */
  function FullScale(i: nat): (f: nat)
    requires i < 8
    ensures f > 0
  {
    [25250, 25250, 30000, 37775, 62500, 152750, 78750, 72500][i]
  }

  /** What the converter makes of the voltage behind the divider of channel i. */
  function Count(mv: int, i: nat): int
    requires i < 8 && mv >= 0
  {
    mv * 10 * 4096 / FullScale(i)
  }

  /** Rounding of a channel, in millivolts. */
  function Rounding(i: nat): nat
    requires i < 8
  {
    [2, 2, 2, 3, 5, 10, 6, 5][i]
  }

  /** The eight conversion results belong to these supplies. */
  predicate Measures(ws: seq<int>, supply: seq<int>) {
    && ValidSample(ws) && |supply| == 8
    && forall i {:trigger ws[i]} :: 0 <= i < 8 ==> Lifted(supply, i) >= 0 && ws[i] == Count(Lifted(supply, i), i)
  }

  /** Converting and scaling back loses at most the rounding of the channel. */
  lemma ScalesBack(mv: int, i: nat)
    requires i < 8 && mv >= 0
    ensures Count(mv, i) >= 0 && mv - Rounding(i) <= Scaled(Count(mv, i), i) <= mv
  {
    if i < 4 { ScalesBackLow(mv, i); } else { ScalesBackHigh(mv, i); }
  }

  lemma ScalesBackLow(mv: int, i: nat)
    requires i < 4 && mv >= 0
    ensures Count(mv, i) >= 0 && mv - Rounding(i) <= Scaled(Count(mv, i), i) <= mv
  {
  }

  lemma ScalesBackHigh(mv: int, i: nat)
    requires 4 <= i < 8 && mv >= 0
    ensures Count(mv, i) >= 0 && mv - Rounding(i) <= Scaled(Count(mv, i), i) <= mv
  {
  }

  /** All eight supplies are recovered, the two negative ones among them. */
  lemma SuppliesAreRecovered(ws: seq<int>, supply: seq<int>, i: nat)
    requires Measures(ws, supply) && i < 8
    ensures if i == 6 then supply[6] - Rounding(6) <= Voltage(ws, 6) <= supply[6] + 15
            else supply[i] - Rounding(i) <= Voltage(ws, i) <= supply[i]
  {
    var own, fifth := ws[i], ws[5];
    ScalesBack(Lifted(supply, i), i);
    ScalesBack(supply[5], 5);
  }

  method MspTransform(raw: array<int>, voltage: array<int>, ghost ws: seq<int>)
    requires raw.Length == 16 && voltage.Length == 8 && raw != voltage
    requires ValidSample(ws) && raw[..] == Bytes(ws)
    modifies voltage
    ensures forall i :: 0 <= i < 8 ==> voltage[i] == Voltage(ws, i)
  {
    var i := 0;
    while i < 8
      invariant 0 <= i <= 8 && raw[..] == Bytes(ws)
      invariant forall k :: 0 <= k < i ==> voltage[k] == Voltage(ws, k)
    {
      WordsComeBack(ws, i);
      assert raw[2 * i] == raw[..][2 * i] && raw[2 * i + 1] == raw[..][2 * i + 1];
      voltage[i] := raw[2 * i + 1] * 256 + raw[2 * i];
      voltage[i] := voltage[i] * ADC_VREF / ADC_RANGE;
      voltage[i] := voltage[i] * Num(i) / Denom(i);
      if i == 6 {
        voltage[i] := voltage[i] - voltage[5] * 1500 / 1000;
      } else if i == 7 {
        voltage[i] := voltage[i] - 5500 * 1500 / 1000;
      }
      i := i + 1;
    }
  }

  /** The end-to-end reading: eight voltages of one conversion. */
  method ReadVoltages(master: Master, slave: Slave, voltage: array<int>) returns (status: Status)
    requires slave.Valid() && !slave.phase.Woken? && master.buf.Length == PROTO_END
    requires master.buf != slave.byteData && voltage.Length == 8
    requires voltage != master.buf && voltage != slave.byteData
    modifies master, master.buf, slave, slave.byteData, voltage
    ensures status == Done && slave.Valid() && slave.conversions > 0
    ensures slave.conversions == old(slave.conversions) + (if old(slave.phase).Ready? then 0 else 1)
    ensures forall i :: 0 <= i < 8 ==> voltage[i] == Voltage(slave.adc(slave.conversions - 1), i)
  {
    status := master.Transfer(slave);
    MspTransform(master.buf, voltage, slave.adc(slave.conversions - 1));
  }

  // ---- The timing assumption -------------------------------------------------------------

  method RunUntilAsleep(slave: Slave)
    requires slave.Valid() && !slave.phase.Asleep? && !slave.Stable()
    modifies slave, slave.byteData
    ensures slave.Valid() && slave.phase.Asleep? && slave.conversions == old(slave.conversions) + 1
    ensures slave.byteData[..] == Bytes(slave.adc(slave.conversions - 1)) && slave.txBuf == old(slave.txBuf)
  {
    while !slave.phase.Asleep?
      invariant slave.Valid() && slave.txBuf == old(slave.txBuf)
      invariant slave.conversions == old(slave.conversions) + (if slave.Stable() then 1 else 0)
      decreases slave.StepsLeft()
    {
      slave.MainStep();
    }
  }

  /** One exchange in which the interrupt is served and the main loop stands still. */
  method ExchangeAlone(slave: Slave, tx: int) returns (rx: int)
    requires slave.Valid() && 0 <= tx < 256
    modifies slave`txBuf, slave`phase
    ensures slave.Valid() && rx == old(slave.txBuf)
    ensures slave.txBuf == Reply(slave.noData, slave.byteData[..], tx)
    ensures slave.phase == if old(slave.phase).Asleep? && tx == CONV_START then Woken else old(slave.phase)
  {
    rx := slave.txBuf;
    slave.RxIsr(tx);
  }

  /** By when the woken main loop must have run: `late` exchanges come between the start and its first
      step.  With none, the answer to the second poll makes the master poll on, as it should.  With
      one, polling ends but the check fails.  With two or more the check passes, and the first byte of
      data is none, or the old one. */
  method WakeLate(slave: Slave, late: nat) returns (eoc: int, check: int)
    requires slave.Valid() && slave.phase.Asleep?
    modifies slave, slave.byteData
    ensures slave.Valid()
    ensures eoc == (if late == 0 then CONV_IN_PROGRESS else CONV_TEST + 1)
    ensures check == (if late <= 1 then CONV_IN_PROGRESS else CONV_TEST + 1)
    ensures late >= 2 ==> slave.txBuf == if late == 2 then CONV_IN_PROGRESS else old(slave.byteData[0])
  {
    var _ := ExchangeAlone(slave, CONV_START);
    if late == 0 { slave.MainStep(); }
    var _ := ExchangeAlone(slave, CONV_TEST);
    if late == 1 { slave.MainStep(); }
    eoc := ExchangeAlone(slave, CONV_TEST);
    if late == 2 { slave.MainStep(); }
    check := ExchangeAlone(slave, 0);
    assert slave.byteData[0] == slave.byteData[..][0];
  }

  /** The exchanges of the master up to its check, while the woken main loop stands still: the
      first poll is answered with the byte loaded at the start, the second one ends the polling, the
      check passes, and the old data is offered as if it were new. */
  method PollWithoutMainLoop(slave: Slave) returns (poll: int, eoc: int, check: int)
    requires slave.Valid() && slave.phase.Asleep?
    modifies slave`txBuf, slave`phase
    ensures slave.Valid() && slave.phase.Woken? && !slave.Stable() && slave.txBuf == slave.byteData[0]
    ensures poll == CONV_IN_PROGRESS && eoc == CONV_TEST + 1 && check == CONV_TEST + 1
  {
    var _ := ExchangeAlone(slave, CONV_START);
    poll := ExchangeAlone(slave, CONV_TEST);
    eoc := ExchangeAlone(slave, CONV_TEST);
    check := ExchangeAlone(slave, 0);
    assert slave.byteData[0] == slave.byteData[..][0];
  }

  /** Were the woken main loop not to run before the next exchange, a read that passes the check
      could mix two conversions: the first byte received is of the old one, the second of the new
      one. */
  method TornRead(slave: Slave) returns (check: int, first: int, second: int)
    requires slave.Valid() && slave.phase.Asleep?
    modifies slave, slave.byteData
    ensures slave.Valid() && slave.conversions == old(slave.conversions) + 1 >= 2
    ensures check == CONV_TEST + 1
    ensures first == Bytes(slave.adc(slave.conversions - 2))[0]
    ensures second == Bytes(slave.adc(slave.conversions - 1))[1]
  {
    assert slave.byteData[0] == slave.byteData[..][0];
    var poll, eoc;
    poll, eoc, check := PollWithoutMainLoop(slave);
    RunUntilAsleep(slave);
    first := ExchangeAlone(slave, 1);
    second := ExchangeAlone(slave, 2);
  }

  function ZerosThenOnes(n: nat): (ws: seq<int>)
    ensures ValidSample(ws)
  {
    seq(8, _ => if n == 0 then 0 else 0x0101)
  }

  /** With readings that change from one conversion to the next the bytes do not go together. */
  method TornWithoutPromptWake() returns (check: int, first: int, second: int)
    ensures check == CONV_TEST + 1 && first == 0 && second == 1
  {
    var slave := new Slave(ZerosThenOnes, n => 0);
    RunUntilAsleep(slave);
    check, first, second := TornRead(slave);
  }
}
