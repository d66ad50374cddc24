/**
 The JTAG hardware at the other end of the cable: the TAP controller of section 6.1 of
 IEEE Std 1149.1-2001, run in step by every device, and the instruction and data registers
 of the devices, which form one long shift register between TDI and TDO.
 */
module ScanChain {
  import opened BitWords

  datatype TapState =
    | TestLogicReset | RunTestIdle
    | SelectDr | CaptureDr | ShiftDr | Exit1Dr | PauseDr | Exit2Dr | UpdateDr
    | SelectIr | CaptureIr | ShiftIr | Exit1Ir | PauseIr | Exit2Ir | UpdateIr

  function NextState(s: TapState, tms: bool): TapState {
    match s
    case TestLogicReset => if tms then TestLogicReset else RunTestIdle
    case RunTestIdle => if tms then SelectDr else RunTestIdle
    case SelectDr => if tms then SelectIr else CaptureDr
    case CaptureDr => if tms then Exit1Dr else ShiftDr
    case ShiftDr => if tms then Exit1Dr else ShiftDr
    case Exit1Dr => if tms then UpdateDr else PauseDr
    case PauseDr => if tms then Exit2Dr else PauseDr
    case Exit2Dr => if tms then UpdateDr else ShiftDr
    case UpdateDr => if tms then SelectDr else RunTestIdle
    case SelectIr => if tms then TestLogicReset else CaptureIr
    case CaptureIr => if tms then Exit1Ir else ShiftIr
    case ShiftIr => if tms then Exit1Ir else ShiftIr
    case Exit1Ir => if tms then UpdateIr else PauseIr
    case PauseIr => if tms then Exit2Ir else PauseIr
    case Exit2Ir => if tms then UpdateIr else ShiftIr
    case UpdateIr => if tms then SelectDr else RunTestIdle
  }

  /** What is fixed about a device: what its registers load on capture, and its instruction after reset. */
  datatype Device = Device(irCapture: Bits, resetIr: Bits, dataRegisters: map<Bits, Bits>) {
    ghost predicate Valid() {
      |resetIr| == |irCapture| && Ones(|irCapture|) !in dataRegisters
    }

    /** What the data register selected by instruction `ir` captures; any unknown instruction is BYPASS. */
    function Captured(ir: Bits): Bits {
      if ir in dataRegisters then dataRegisters[ir] else [false]
    }
  }

  /**
   The whole chain. Device 0 is the one nearest TDO, the cable's data input; the last device is
   nearest TDI. Bit 0 of a register is the next to leave it. `latched` remembers, for each device,
   the last value Update-DR moved into the data register of each instruction.
   */
  datatype Chain = Chain(
    tap: TapState,
    devices: seq<Device>,
    ir: seq<Bits>,
    irStage: seq<Bits>,
    drStage: seq<Bits>,
    latched: seq<map<Bits, Bits>>)
  {
    ghost predicate Valid() {
      && |devices| == |ir| == |irStage| == |drStage| == |latched|
      && (forall i :: 0 <= i < |devices| ==> devices[i].Valid())
      && (forall i :: 0 <= i < |devices| ==> |ir[i]| == |irStage[i]| == |devices[i].irCapture|)
    }
  }

  // ---------- Shift registers in series ----------

  /** One clock: every register passes its bit 0 towards TDO, all at once. */
  function ShiftOnce(stages: seq<Bits>, tdi: bool): (r: (seq<Bits>, bool))
    ensures |r.0| == |stages|
  {
    if stages == [] then ([], tdi)
    else
      var (rest, fromTdi) := ShiftOnce(stages[1..], tdi);
      var grown := stages[0] + [fromTdi];
      ([grown[1..]] + rest, grown[0])
  }

  lemma {:induction false} ShiftOnceIsFlat(stages: seq<Bits>, tdi: bool)
    ensures var (next, tdo) := ShiftOnce(stages, tdi);
            && [tdo] + Flat(next) == Flat(stages) + [tdi]
            && SameLengths(next, stages)
  {
    if stages != [] {
      var tail := stages[1..];
      ShiftOnceIsFlat(tail, tdi);
      var (rest, mid) := ShiftOnce(tail, tdi);
      var (next, tdo) := ShiftOnce(stages, tdi);
      assert next[1..] == rest;
      var grown := stages[0] + [mid];
      assert [grown[0]] + grown[1..] == grown;
      assert [tdo] + Flat(next) == grown + Flat(rest) == stages[0] + ([mid] + Flat(rest));
      assert Flat(stages) + [tdi] == stages[0] + (Flat(tail) + [tdi]);
    }
  }

  /** Where register `i` starts in the series. */
  function Offset(stages: seq<Bits>, i: nat): nat
    requires i <= |stages|
  {
    |Flat(stages[..i])|
  }

  lemma FirstOffset(stages: seq<Bits>)
    ensures Offset(stages, 0) == 0
  {
    assert stages[..0] == [];
  }

  lemma FlatCons(first: Bits, rest: seq<Bits>)
    ensures Flat([first] + rest) == first + Flat(rest)
  {
    assert ([first] + rest)[1..] == rest;
  }

  lemma MiddlePart(a: Bits, b: Bits, c: Bits)
    ensures a + (b + c) == a + b + c && (a + b + c)[|a|..|a + b|] == b
  {
  }

  lemma FlatAround(stages: seq<Bits>, i: nat)
    requires i < |stages|
    ensures Flat(stages) == Flat(stages[..i]) + stages[i] + Flat(stages[i + 1..])
    ensures Offset(stages, i + 1) == Offset(stages, i) + |stages[i]| <= |Flat(stages)|
    ensures Flat(stages)[Offset(stages, i)..Offset(stages, i + 1)] == stages[i]
  {
    hide Flat;
    var before, one, after := stages[..i], stages[i], stages[i + 1..];
    assert stages == before + ([one] + after);
    FlatAppend(before, [one] + after);
    FlatCons(one, after);
    assert stages[..i + 1] == before + ([one] + []);
    FlatAppend(before, [one] + []);
    FlatCons(one, []);
    FlatNone();
    assert one + [] == one;
    MiddlePart(Flat(before), one, Flat(after));
  }

  lemma FlatNone()
    ensures Flat([]) == []
  {
  }

  lemma {:induction false} SameLengthsSameOffsets(a: seq<Bits>, b: seq<Bits>, i: nat)
    requires SameLengths(a, b) && i <= |a|
    ensures Offset(a, i) == Offset(b, i)
    decreases i
  {
    if i > 0 {
      SameLengthsSameOffsets(a, b, i - 1);
      FlatAround(a, i - 1);
      FlatAround(b, i - 1);
    }
  }

  /** Many clocks of shifting. */
  function ShiftMany(stages: seq<Bits>, tdi: Bits): (r: (seq<Bits>, Bits))
    ensures |r.0| == |stages| && |r.1| == |tdi|
    decreases |tdi|
  {
    if tdi == [] then (stages, [])
    else
      var (next, tdo) := ShiftOnce(stages, tdi[0]);
      var (last, tdos) := ShiftMany(next, tdi[1..]);
      (last, [tdo] + tdos)
  }

  /** After any number of clocks the old bits, then the new ones, have moved towards TDO by that many places. */
  lemma {:induction false} ShiftManyIsFlat(stages: seq<Bits>, tdi: Bits)
    ensures var (last, tdo) := ShiftMany(stages, tdi);
            && tdo + Flat(last) == Flat(stages) + tdi
            && SameLengths(last, stages)
    decreases |tdi|
  {
    if tdi != [] {
      ShiftOnceIsFlat(stages, tdi[0]);
      var (next, tdo) := ShiftOnce(stages, tdi[0]);
      ShiftManyIsFlat(next, tdi[1..]);
      var (last, tdos) := ShiftMany(next, tdi[1..]);
      assert [tdo] + tdos + Flat(last) == [tdo] + (tdos + Flat(last));
      assert [tdo] + (Flat(next) + tdi[1..]) == ([tdo] + Flat(next)) + tdi[1..];
      assert Flat(stages) + [tdi[0]] + tdi[1..] == Flat(stages) + tdi;
    }
  }

  // ---------- The clocked hardware ----------

  /** The levels on TMS and TDI at one rising edge of TCK. */
  datatype Pins = Pins(tms: bool, tdi: bool)

  function CaptureAll(devices: seq<Device>, ir: seq<Bits>): (stages: seq<Bits>)
    requires |devices| == |ir|
    ensures |stages| == |devices|
  {
    seq(|devices|, i requires 0 <= i < |devices| => devices[i].Captured(ir[i]))
  }

  function LatchAll(latched: seq<map<Bits, Bits>>, ir: seq<Bits>, stages: seq<Bits>): (r: seq<map<Bits, Bits>>)
    requires |latched| == |ir| == |stages|
    ensures |r| == |latched|
  {
    seq(|latched|, i requires 0 <= i < |latched| => latched[i][ir[i] := stages[i]])
  }

  /** The rising edge acts in the present state; an update or reset follows on the falling edge. */
  function OnRise(c: Chain, tdi: bool): (r: Chain)
    requires c.Valid()
    ensures r.Valid()
  {
    match c.tap
    case CaptureIr => c.(irStage := seq(|c.devices|, i requires 0 <= i < |c.devices| => c.devices[i].irCapture))
    case CaptureDr => c.(drStage := CaptureAll(c.devices, c.ir))
    case ShiftIr => ShiftOnceIsFlat(c.irStage, tdi); c.(irStage := ShiftOnce(c.irStage, tdi).0)
    case ShiftDr => c.(drStage := ShiftOnce(c.drStage, tdi).0)
    case _ => c
  }

  function OnFall(c: Chain): (r: Chain)
    requires c.Valid()
    ensures r.Valid()
  {
    match c.tap
    case UpdateIr => c.(ir := c.irStage)
    case UpdateDr => c.(latched := LatchAll(c.latched, c.ir, c.drStage))
    case TestLogicReset => c.(ir := seq(|c.devices|, i requires 0 <= i < |c.devices| => c.devices[i].resetIr))
    case _ => c
  }

  function Clock(c: Chain, pins: Pins): (r: Chain)
    requires c.Valid()
    ensures r.Valid() && r.tap == NextState(c.tap, pins.tms) && r.devices == c.devices
  {
    OnFall(OnRise(c, pins.tdi).(tap := NextState(c.tap, pins.tms)))
  }

  /** What the cable samples on TDO at this edge; outside the shift states TDO is not driven. */
  function Tdo(c: Chain, pins: Pins): bool
    requires c.Valid()
  {
    match c.tap
    case ShiftIr => ShiftOnce(c.irStage, pins.tdi).1
    case ShiftDr => ShiftOnce(c.drStage, pins.tdi).1
    case _ => false
  }

  /** Many clocks. */
  function Run(c: Chain, pins: seq<Pins>): (r: Chain)
    requires c.Valid()
    ensures r.Valid() && r.devices == c.devices
    decreases |pins|
  {
    if pins == [] then c else Run(Clock(c, pins[0]), pins[1..])
  }

  lemma {:induction false} RunAppend(c: Chain, a: seq<Pins>, b: seq<Pins>)
    requires c.Valid()
    ensures Run(c, a + b) == Run(Run(c, a), b)
    decreases |a|
  {
    if a == [] {
      assert a + b == b;
    } else {
      assert (a + b)[1..] == a[1..] + b;
      RunAppend(Clock(c, a[0]), a[1..], b);
    }
  }
}
