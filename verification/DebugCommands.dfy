/**
 The commands to the debug unit, scanned through the chain of which it is one device, with the cache of
 the last selections that saves the bridge redundant scans.
 */
module DebugCommands {
  import opened BitWords
  import opened ScanChain
  import opened ChainCommands
  import opened Bridge
  import opened ChainSetup
  import opened AdvDebug

  // ---------- The debug unit as a device of the chain ----------

  /** The chain when the data register that instruction `key` selects in a device captures `bits`. */
  function WithRegister(c: Chain, i: nat, key: Bits, bits: Bits): Chain
    requires i < |c.devices|
  {
    var d := c.devices[i];
    c.(devices := c.devices[i := d.(dataRegisters := d.dataRegisters[key := bits])])
  }

  /** Only the target has left BYPASS, for the instruction `key`. */
  ghost predicate Attached(c: Chain, target: nat, key: Bits) {
    && target < |c.ir| && |key| == |c.ir[target]|
    && c.ir == Selected(c.ir, target, key)
  }

  lemma WithRegisterStays(c: Chain, target: nat, key: Bits, bits: Bits)
    requires c.Valid() && Attached(c, target, key) && key != Ones(|key|)
    ensures var r := WithRegister(c, target, key, bits);
            r.Valid() && Attached(r, target, key) && r.devices[target].Captured(key) == bits
  {
    var r := WithRegister(c, target, key, bits);
    forall i | 0 <= i < |r.devices| ensures r.devices[i].Valid() {
      assert c.devices[i].Valid();
    }
  }

  /** The command register is the part of the unit's data register nearest to TDI; the rest is what it gives out. */
  function CommandPart(c: Chain, target: nat): Bits
    requires target < |c.drStage| && |c.drStage[target]| >= COMMAND_LEN
  {
    Top(COMMAND_LEN, c.drStage[target])
  }

  /**
   A padded scan of a chain delivers to the command register what the unit is specified to see: its old
   bits, a zero from each BYPASS register before it, and the bits sent.
   */
  lemma ScanDelivers(stages: seq<Bits>, target: nat, output: Bits, u: Unit, bits: Bits)
    requires u.Valid() && OthersBypassed(stages, target) && stages[target] == output + u.shiftReg
    requires u.pad == |stages| - target - 1 && forall i :: target < i < |stages| ==> stages[i] == [false]
    ensures var last := ShiftMany(stages, bits + Zeros(u.pad)).0[target];
            |last| >= COMMAND_LEN && Top(COMMAND_LEN, last) == Shifted(u, bits)
  {
    hide ShiftMany, Flat, OthersBypassed;
    ShiftManyIsFlat(stages, bits + Zeros(u.pad));
    WriteLands(stages, target, bits);
    ZeroStages(stages[target + 1..]);
    var all := stages[target] + Zeros(u.pad) + bits;
    assert all == output + (u.shiftReg + Zeros(u.pad) + bits);
    TopOfTop(all, |stages[target]|, COMMAND_LEN);
    TopOfSum(output, u.shiftReg + Zeros(u.pad) + bits, COMMAND_LEN);
  }

  lemma TopOfTop(bits: Bits, m: nat, n: nat)
    requires n <= m <= |bits|
    ensures Top(n, Last(m, bits)) == Top(n, bits)
  {
  }

  lemma TopOfSum(a: Bits, b: Bits, n: nat)
    requires n <= |b|
    ensures Top(n, a + b) == Top(n, b)
  {
  }

  /** A whole scan, on an attached chain: the command register receives it, and the chain returns to Run-Test/Idle. */
  lemma ScanReaches(c: Chain, target: nat, key: Bits, output: Bits, u: Unit, bits: Bits)
    requires c.Valid() && c.tap == RunTestIdle && Attached(c, target, key) && u.Valid() && bits != []
    requires c.devices[target].Captured(key) == output + u.shiftReg && u.pad == |c.devices| - target - 1
    ensures var done := Run(Run(Run(c, GO_SHIFT_DR), WritePins(bits, u.pad, true)), EXIT_TO_IDLE);
            && done.tap == RunTestIdle && done.ir == c.ir && done.devices == c.devices
            && |done.drStage| == |c.devices| && |done.drStage[target]| >= COMMAND_LEN
            && CommandPart(done, target) == Shifted(u, bits)
  {
    hide Run, ShiftMany, Flat, Shifted;
    GoShiftDr(c);
    var stages := CaptureAll(c.devices, c.ir);
    CapturedLayout(c, target, key);
    BypassesCaptureZero(c, target, key);
    ScanDelivers(stages, target, output, u, bits);
    DataInShiftDr(Run(c, GO_SHIFT_DR), bits + Zeros(u.pad), true);
    ExitToIdle(Run(Run(c, GO_SHIFT_DR), WritePins(bits, u.pad, true)));
  }

  lemma BypassesCaptureZero(c: Chain, target: nat, key: Bits)
    requires c.Valid() && Attached(c, target, key)
    ensures forall i :: 0 <= i < |c.devices| && i != target ==> CaptureAll(c.devices, c.ir)[i] == [false]
  {
    forall i | 0 <= i < |c.devices| && i != target ensures CaptureAll(c.devices, c.ir)[i] == [false] {
      assert c.devices[i].Valid() && c.ir[i] == Ones(|c.ir[i]|);
    }
  }

  // ---------- The commands ----------

  datatype Error = None | IllegalChain

  /** The bridge and, at the far end of its chain, the debug unit. */
  class Debugger {
    const b: JtagBridge
    /** Where on the chain the unit is. */
    const target: nat
    var unit: Unit
    /** What the internal registers of the unit's modules hold. */
    var registers: (nat, bool) -> Bits
    var desiredChain: int

    /** The instruction that selects the unit. */
    function DebugKey(): Bits
      requires b.irSize <= 32
      reads b`irSize, b`irPostfix, b`virtualJtag, b`cmdVdr, b`debugCmd
    {
      SentOpcode(if b.virtualJtag then b.cmdVdr else b.debugCmd, b.irSize, b.irPostfix)
    }

    /** The bridge is configured for a chain in Run-Test/Idle that has the unit as its target. */
    ghost predicate ReadyOn(c: Chain)
      reads this, b
    {
      && c.Valid() && c.tap == RunTestIdle && b.PadsFor(c, target) && DebugKey() != Ones(b.irSize)
      && unit.Valid() && unit.pad == b.drPrefix
    }

    ghost predicate Ready()
      reads this, b
    {
      ReadyOn(b.chain)
    }

    /** The unit is selected on the chain, and every other device is in BYPASS. */
    ghost predicate LinkedOn(c: Chain)
      reads this, b
    {
      ReadyOn(c) && Attached(c, target, DebugKey())
    }

    ghost predicate Linked()
      reads this, b
    {
      LinkedOn(b.chain)
    }

    /** Whatever the cache holds is what the hardware has selected. */
    ghost predicate CacheRight()
      requires unit.Valid()
      reads this, b
    {
      && !unit.bursting && |b.currentRegIdx| == MAX_MODULES && b.currentRegIdx[JSP] == -1
      && -1 <= b.currentChain < MAX_MODULES
      && (b.currentChain != -1 ==> b.currentChain == unit.moduleId && b.currentChain == desiredChain)
      && forall m :: 0 <= m < JSP ==>
        b.currentRegIdx[m] == -1 || b.currentRegIdx[m] == if unit.regIdx[m] then 1 else 0
    }

    ghost predicate Valid()
      reads this, b
    {
      Linked() && CacheRight()
    }

    /** What the unit gives out at the next capture. */
    function Output(): Bits
      requires unit.Valid()
      reads this
    {
      if unit.moduleId < JSP then registers(unit.moduleId, unit.regIdx[unit.moduleId]) else []
    }

    constructor (b: JtagBridge, target: nat, unit: Unit, registers: (nat, bool) -> Bits)
      ensures this.b == b && this.target == target && this.unit == unit && desiredChain == -1
    {
      this.b, this.target, this.unit, this.registers, desiredChain := b, target, unit, registers, -1;
    }

    // ---------- Scans ----------

    /** The hardware's part before Capture-DR: the selected register is what the unit will give out. */
    method Present()
      requires Linked()
      modifies b`chain
      ensures Linked() && b.chain.devices[target].Captured(DebugKey()) == Output() + unit.shiftReg
    {
      WithRegisterStays(b.chain, target, DebugKey(), Output() + unit.shiftReg);
      b.chain := WithRegister(b.chain, target, DebugKey(), Output() + unit.shiftReg);
    }

    /**
     The hardware's part at Update-DR: the unit acts on what a scan of the chain, from the walk to
     Shift-DR to the walk out of it, has left in its command register.
     */
    method Act(ghost c: Chain, ghost bits: Bits)
      requires LinkedOn(c) && c.devices[target].Captured(DebugKey()) == Output() + unit.shiftReg && bits != []
      requires b.chain == Run(Run(Run(c, GO_SHIFT_DR), WritePins(bits, b.drPrefix, true)), EXIT_TO_IDLE)
      modifies this`unit
      ensures Linked() && unit == OnScan(old(unit), bits)
    {
      hide Run, WritePins, SentOpcode, Shifted, Decode;
      ScanReaches(c, target, DebugKey(), Output(), unit, bits);
      unit := AtUpdate(unit.(shiftReg := CommandPart(b.chain, target)));
    }

    /** One stream, from Run-Test/Idle and back. */
    method Scan(words: seq<Word>, len: nat)
      requires Linked() && 0 < len <= 32 * |words|
      modifies b`chain, this`unit
      ensures Linked() && unit == OnScan(old(unit), StreamBits(words, len))
    {
      hide Run, WritePins, SentOpcode, Shifted, AtUpdate, Attached, DataPins, Zeros, OnScan;
      hide Debugger.DebugKey, JtagBridge.PadsFor, Chain.Valid;
      Present();
      ghost var c := b.chain;
      b.TapSetShiftDr();
      b.JtagWriteStream(words, len, true);
      b.TapExitToIdle();
      Act(c, StreamBits(words, len));
    }

    /** Two streams in one scan. */
    method ScanTwo(first: seq<Word>, len1: nat, second: seq<Word>, len2: nat)
      requires Linked() && 0 < len1 <= 32 * |first| && 0 < len2 <= 32 * |second|
      modifies b`chain, this`unit
      ensures Linked() && unit == OnScan(old(unit), StreamBits(first, len1) + StreamBits(second, len2))
    {
      hide Run, SentOpcode, Shifted, AtUpdate, Attached, DataPins, Zeros, OnScan;
      hide Debugger.DebugKey, JtagBridge.PadsFor, Chain.Valid;
      Present();
      ghost var c, bits1, bits2 := b.chain, StreamBits(first, len1), StreamBits(second, len2);
      TwoInOne(c, bits1, bits2, b.drPrefix);
      b.TapSetShiftDr();
      b.JtagWriteStream(first, len1, false);
      b.JtagWriteStream(second, len2, true);
      b.TapExitToIdle();
      Act(c, bits1 + bits2);
    }

    /** Reads what the unit gives out, past the devices after it, and ends with a stream that it takes in. */
    method ScanRead(words: seq<Word>, len: nat, second: seq<Word>, len2: nat) returns (data: seq<Word>)
      requires Linked() && 0 < len <= 32 * |words| && 0 < len2 <= 32 * |second|
      modifies b`chain, this`unit
      ensures Linked()
      ensures var sent := Zeros(b.drPostfix) + StreamBits(words, len) + StreamBits(second, len2);
              unit == OnScan(old(unit), sent)
      ensures len <= |old(Output())| ==> Sampled(data, old(Output())[..len])
    {
      hide Run, TdoRun, SentOpcode, Shifted, AtUpdate, Attached, DataPins, Zeros, Sampled, OnScan;
      hide Debugger.DebugKey, Chain.Valid;
      Present();
      ghost var c, bits1, bits2 := b.chain, StreamBits(words, len), StreamBits(second, len2);
      ReadOutput(c, target, DebugKey(), Output(), unit.shiftReg, bits1);
      RunAppend(Run(c, GO_SHIFT_DR), DataPins(Zeros(b.drPostfix), false), DataPins(bits1, false));
      TwoStreamScan(c, b.drPostfix, bits1, bits2, b.drPrefix);
      b.TapSetShiftDr();
      data := b.JtagReadWriteStream(words, len, true, false);
      b.JtagWriteStream(second, len2, true);
      b.TapExitToIdle();
      Act(c, Zeros(b.drPostfix) + bits1 + bits2);
    }

    // ---------- Resets and instructions ----------

    /** Forgets every selection; whether the unit is reset depends on its wiring. */
    method TapReset(clears: bool)
      requires Ready() && !unit.bursting
      modifies b`chain, b`currentChain, b`currentRegIdx, this`unit
      ensures Ready() && CacheRight() && b.currentChain == -1
      ensures unit == OnReset(old(unit), clears)
    {
      hide Run, Clock, OnFall, Chain.Valid;
      ghost var before := b.chain;
      b.TapReset();
      SameWidths(before, b.chain, target);
      unit := OnReset(unit, clears);
    }

    /** Selects the unit on the chain; the module selection is forgotten. */
    method EnableDebug()
      requires Ready() && CacheRight()
      modifies b`chain, b`currentChain
      ensures Valid() && b.currentChain == -1
    {
      EnableDebugModule(b, target);
    }

    // ---------- Selections ----------

    method SelectModule(chain: nat)
      requires Valid() && chain < MAX_MODULES
      modifies b`chain, b`currentChain, this`unit, this`desiredChain
      ensures Valid() && b.currentChain == desiredChain == chain
      ensures unit == old(unit).(moduleId := chain, shiftReg := unit.shiftReg)
    {
      if b.currentChain == chain {
        return;
      }
      b.currentChain := -1;
      desiredChain := chain;
      SelectScan(unit, chain);
      Scan([SelectWord(chain)], MODULE_SELECT_SIZE + 1);
      b.currentChain := chain;
    }

    method SelectCtrlReg(regidx: nat) returns (err: Error)
      requires Valid() && 0 <= desiredChain < MAX_MODULES && regidx < 2
      modifies b`chain, b`currentChain, b`currentRegIdx, this`unit, this`desiredChain
      ensures Valid() && b.currentChain == desiredChain == old(desiredChain)
      ensures err == None <==> desiredChain != JSP
      ensures unit == old(unit).(moduleId := desiredChain, shiftReg := unit.shiftReg,
                                 regIdx := if err == None then old(unit).regIdx[desiredChain := regidx == 1]
                                           else old(unit).regIdx)
    {
      hide OnScan, SentOpcode, Attached, JtagBridge.PadsFor, Debugger.DebugKey, Chain.Valid;
      SelectModule(desiredChain);
      if b.currentRegIdx[b.currentChain] == regidx {
        return None;
      }
      if b.currentChain == JSP {
        return IllegalChain;
      }
      RegisterScan(unit, [], CMD_IREG_SEL, regidx);
      assert [] + RegisterBits(CMD_IREG_SEL, regidx) == RegisterBits(CMD_IREG_SEL, regidx);
      Scan([RegisterWord(CMD_IREG_SEL, regidx)], 5 + REG_SEL_LEN);
      b.currentRegIdx := b.currentRegIdx[b.currentChain := regidx];
      err := None;
    }

    /** Writes to an internal register, which this also selects. */
    method CtrlWrite(regidx: nat, data: seq<Word>, lengthBits: nat) returns (err: Error)
      requires Valid() && 0 <= desiredChain < MAX_MODULES && regidx < 2 && 0 < lengthBits <= 32 * |data|
      modifies b`chain, b`currentChain, b`currentRegIdx, this`unit, this`desiredChain
      ensures Valid() && b.currentChain == desiredChain == old(desiredChain)
      ensures err == None <==> desiredChain != JSP
      ensures (err == None ==>
                 exists written: Bits ::
                   && |written| == (if desiredChain == WISHBONE then 1 else 2)
                   && (lengthBits >= |written| ==> written == Top(|written|, StreamBits(data, lengthBits)))
                   && unit == old(unit).(moduleId := desiredChain, shiftReg := unit.shiftReg,
                                         regIdx := old(unit).regIdx[desiredChain := regidx == 1],
                                         effects := old(unit).effects + [Wrote(desiredChain, regidx == 1, written)]))
      ensures err != None ==> unit == old(unit).(moduleId := desiredChain, shiftReg := unit.shiftReg)
    {
      hide OnScan, Operand, SentOpcode, Attached, JtagBridge.PadsFor, Debugger.DebugKey, Chain.Valid;
      SelectModule(desiredChain);
      if b.currentChain == JSP {
        return IllegalChain;
      }
      ghost var bits := StreamBits(data, lengthBits);
      ghost var written := Operand(unit, bits);
      RegisterScan(unit, bits, CMD_IREG_WR, regidx);
      if lengthBits >= |written| { WideOperand(unit, bits); }
      ScanTwo(data, lengthBits, [RegisterWord(CMD_IREG_WR, regidx)], 5 + REG_SEL_LEN);
      b.currentRegIdx := b.currentRegIdx[b.currentChain := regidx];
      err := None;
    }

    /** Reads an internal register: selects it, then captures it while sending a NOP. */
    method CtrlRead(regidx: nat, databits: nat) returns (err: Error, data: seq<Word>)
      requires Valid() && 0 <= desiredChain < MAX_MODULES && regidx < 2 && 0 < databits <= 128
      modifies b`chain, b`currentChain, b`currentRegIdx, this`unit, this`desiredChain
      ensures Valid() && b.currentChain == desiredChain == old(desiredChain)
      ensures err == None <==> desiredChain != JSP
      ensures (err == None && databits <= |registers(desiredChain, regidx == 1)|
               ==> Sampled(data, registers(desiredChain, regidx == 1)[..databits]))
      ensures unit == old(unit).(moduleId := desiredChain, shiftReg := unit.shiftReg,
                                 regIdx := if err == None then old(unit).regIdx[desiredChain := regidx == 1]
                                           else old(unit).regIdx)
    {
      hide OnScan, SentOpcode, Attached, JtagBridge.PadsFor, Debugger.DebugKey, Chain.Valid, Sampled, Shifted;
      data := [];
      SelectModule(desiredChain);
      err := SelectCtrlReg(regidx);
      if err != None {
        return;
      }
      var outdata := [NopWord(), ZERO, ZERO, ZERO];
      NopScan(unit, Zeros(b.drPostfix) + StreamBits(outdata, databits));
      assert StreamBits(outdata, OPCODE_LEN + 1) == NopBits();
      data := ScanRead(outdata, databits, outdata, OPCODE_LEN + 1);
    }

    /** Sends a burst command, then the scan with its data, whatever the bits are. */
    method BurstTransfer(opcode: nat, address: Word, count: Word, data: seq<Word>, len: nat)
      requires Valid() && 0 <= desiredChain < JSP && 0 < len <= 32 * |data|
      requires opcode < 16 && IsBurst(Nibble(opcode)) && count[16..] == Zeros(16) && count != ZERO
      modifies b`chain, b`currentChain, this`unit, this`desiredChain
      ensures Valid() && b.currentChain == desiredChain == old(desiredChain)
      ensures unit == old(unit).(moduleId := desiredChain, shiftReg := unit.shiftReg,
                effects := old(unit).effects + [Burst(desiredChain, Nibble(opcode), address, count[..16])])
    {
      hide SentOpcode, Attached, JtagBridge.PadsFor, Debugger.DebugKey, Chain.Valid, Shifted, Decode, IsBurst;
      SelectModule(desiredChain);
      BurstScan(unit, opcode, address, count);
      Scan(BurstWords(opcode, address, count), COMMAND_LEN);
      Scan(data, len);
    }

    // ---------- Runs ----------

    method ServeOne(request: Request) returns (reply: Reply)
      requires Valid() && request.Legal()
      modifies this, b`chain, b`currentChain, b`currentRegIdx
      ensures Valid() && unit.effects == old(unit.effects) + request.Effects()
      ensures SelectionOf(unit) == ScanRequest(SelectionOf(old(unit)), request)
      ensures request.AnsweredBy(reply)
    {
      hide Run, Sampled, IsBurst, Top, SentOpcode, StreamBits, Attached;
      hide JtagBridge.PadsFor, Debugger.DebugKey, Chain.Valid;
      reply := Reply(None, []);
      match request
      case Reset(clears) =>
        TapReset(clears);
        EnableDebug();
      case EnableDebug => EnableDebug();
      case Select(m) => SelectModule(m);
      case WriteReg(m, index, data, len) =>
        SelectModule(m);
        var err := CtrlWrite(index, data, len);
        reply := Reply(err, []);
      case ReadReg(m, index, databits, held) =>
        Hold(m, index == 1, held);
        SelectModule(m);
        var err, data := CtrlRead(index, databits);
        reply := Reply(err, data);
      case Transfer(m, opcode, address, count, data, len) =>
        SelectModule(m);
        BurstTransfer(opcode, address, count, data, len);
    }

    /** The hardware's part: what a register holds at some time. */
    method Hold(m: nat, index: bool, held: Bits)
      modifies this`registers
      ensures registers(m, index) == held
    {
      var before := registers;
      registers := (n: nat, i: bool) => if n == m && i == index then held else before(n, i);
    }

    /**
     Serves any sequence of requests: the unit does what each of them asks, in order, and nothing else,
     and what is read is what the register holds at that time.
     */
    method Serve(requests: seq<Request>) returns (replies: seq<Reply>)
      requires Valid() && forall r :: r in requests ==> r.Legal()
      modifies this, b`chain, b`currentChain, b`currentRegIdx
      ensures Valid() && unit.effects == old(unit.effects) + Asked(requests)
      ensures SelectionOf(unit) == AlwaysScanning(SelectionOf(old(unit)), requests)
      ensures |replies| == |requests| && forall i :: 0 <= i < |requests| ==> requests[i].AnsweredBy(replies[i])
    {
      hide Debugger.Valid, Request.AnsweredBy, Request.Legal;
      replies := [];
      for i := 0 to |requests|
        invariant Valid() && unit.effects == old(unit.effects) + Asked(requests[..i])
        invariant SelectionOf(unit) == AlwaysScanning(SelectionOf(old(unit)), requests[..i])
        invariant |replies| == i && forall j :: 0 <= j < i ==> requests[j].AnsweredBy(replies[j])
      {
        var reply := ServeOne(requests[i]);
        replies := replies + [reply];
        assert requests[..i + 1] == requests[..i] + [requests[i]];
        AskedAppend(requests[..i], requests[i]);
        AlwaysScanningAppend(SelectionOf(old(unit)), requests[..i], requests[i]);
      }
      assert requests[..|requests|] == requests;
    }
  }

  /** A scan of two streams, with nothing skipped before them, is one scan of both. */
  lemma TwoInOne(c: Chain, first: Bits, second: Bits, prefix: nat)
    requires c.Valid() && c.tap == RunTestIdle && second != []
    ensures var shifting := Run(c, GO_SHIFT_DR);
            (Run(Run(shifting, DataPins(first, false)), WritePins(second, prefix, true))
             == Run(shifting, WritePins(first + second, prefix, true)))
  {
    hide Run, WritePins;
    TwoStreamScan(c, 0, first, second, prefix);
    NoSkip(Run(c, GO_SHIFT_DR));
    assert Zeros(0) + first + second == first + second;
  }

  /** Past the BYPASS registers after it, what the unit gives out comes first. */
  lemma ReadOutput(c: Chain, target: nat, key: Bits, output: Bits, older: Bits, bits: Bits)
    requires c.Valid() && c.tap == RunTestIdle && Attached(c, target, key)
    requires c.devices[target].Captured(key) == output + older
    ensures var skipped := Run(Run(c, GO_SHIFT_DR), DataPins(Zeros(target), false));
            |bits| <= |output| ==> TdoRun(skipped, DataPins(bits, false)) == output[..|bits|]
  {
    hide Run, TdoRun, ShiftMany, Flat;
    GoShiftDr(c);
    CapturedLayout(c, target, key);
    var shifting := Run(c, GO_SHIFT_DR);
    DataInShiftDr(shifting, Zeros(target), false);
    var skipped := Run(shifting, DataPins(Zeros(target), false));
    DataInShiftDr(skipped, bits, false);
    if |bits| <= |output| {
      ReadExact(shifting.drStage, target, bits);
    }
  }

  /** Chains of the same devices have instruction registers of the same widths. */
  lemma SameWidths(c: Chain, d: Chain, target: nat)
    requires c.Valid() && d.Valid() && c.devices == d.devices && target < |c.devices|
    ensures |d.ir| == |c.ir| && |d.ir[target]| == |c.ir[target]|
    ensures |Flat(d.ir[..target])| == |Flat(c.ir[..target])| && |Flat(d.ir[target + 1..])| == |Flat(c.ir[target + 1..])|
  {
    SameLengthsSameTotal(d.ir[..target], c.ir[..target]);
    SameLengthsSameTotal(d.ir[target + 1..], c.ir[target + 1..]);
  }

  // ---------- Requests ----------

  /**
   What the layers above the commands can ask for; each register or burst request names its module.
   `held` is what the register holds when it is read.
   */
  datatype Request =
    | Reset(clears: bool)
    | EnableDebug
    | Select(m: nat)
    | WriteReg(m: nat, index: nat, data: seq<Word>, len: nat)
    | ReadReg(m: nat, index: nat, databits: nat, held: Bits)
    | Transfer(m: nat, opcode: nat, address: Word, count: Word, data: seq<Word>, len: nat)
  {
    predicate Legal() {
      match this
      case Reset(_) => true
      case EnableDebug => true
      case Select(m) => m < MAX_MODULES
      case WriteReg(m, index, data, len) => m < MAX_MODULES && index < 2 && Width(m) <= len <= 32 * |data|
      case ReadReg(m, index, databits, _) => m < MAX_MODULES && index < 2 && 0 < databits <= 128
      case Transfer(m, opcode, _, count, data, len) =>
        && m < JSP && opcode < 16 && IsBurst(Nibble(opcode)) && count[16..] == Zeros(16) && count != ZERO
        && 0 < len <= 32 * |data|
    }

    /** What the request asks the unit to do. The serial port has no internal registers. */
    function Effects(): seq<Effect>
      requires Legal()
    {
      match this
      case WriteReg(m, index, data, len) =>
        if m == JSP then [] else [Wrote(m, index == 1, Top(Width(m), StreamBits(data, len)))]
      case Transfer(m, opcode, address, count, _, _) => [Burst(m, Nibble(opcode), address, count[..16])]
      case _ => []
    }

    ghost predicate AnsweredBy(reply: Reply) {
      match this
      case WriteReg(m, _, _, _) => reply.err == None <==> m != JSP
      case ReadReg(m, _, databits, held) =>
        && (reply.err == None <==> m != JSP)
        && (m != JSP && databits <= |held| ==> Sampled(reply.data, held[..databits]))
      case _ => reply.err == None
    }
  }

  datatype Reply = Reply(err: Error, data: seq<Word>)

  function Asked(requests: seq<Request>): seq<Effect>
    requires forall r :: r in requests ==> r.Legal()
  {
    if requests == [] then [] else requests[0].Effects() + Asked(requests[1..])
  }

  lemma {:induction false} AskedAppend(requests: seq<Request>, last: Request)
    requires last.Legal() && forall r :: r in requests ==> r.Legal()
    ensures Asked(requests + [last]) == Asked(requests) + last.Effects()
  {
    if requests == [] {
      assert [last][1..] == [];
    } else {
      assert (requests + [last])[1..] == requests[1..] + [last];
      AskedAppend(requests[1..], last);
    }
  }

  /** What is selected: a module, and a register in each module. */
  datatype Selection = Selection(moduleId: nat, regIdx: seq<bool>)

  function SelectionOf(u: Unit): Selection {
    Selection(u.moduleId, u.regIdx)
  }

  /** The selection after a request when every selection is scanned out again, with no cache. */
  function ScanRequest(s: Selection, r: Request): Selection {
    match r
    case Reset(clears) => if clears then Selection(0, [false, false, false]) else s
    case EnableDebug => s
    case Select(m) => s.(moduleId := m)
    case WriteReg(m, index, _, _) => ScanRegister(s, m, index)
    case ReadReg(m, index, _, _) => ScanRegister(s, m, index)
    case Transfer(m, _, _, _, _, _) => s.(moduleId := m)
  }

  function ScanRegister(s: Selection, m: nat, index: nat): Selection {
    Selection(m, if m < |s.regIdx| then s.regIdx[m := index == 1] else s.regIdx)
  }

  function AlwaysScanning(s: Selection, requests: seq<Request>): Selection
    decreases |requests|
  {
    if requests == [] then s else AlwaysScanning(ScanRequest(s, requests[0]), requests[1..])
  }

  lemma {:induction false} AlwaysScanningAppend(s: Selection, requests: seq<Request>, last: Request)
    ensures AlwaysScanning(s, requests + [last]) == ScanRequest(AlwaysScanning(s, requests), last)
    decreases |requests|
  {
    if requests == [] {
      assert [last][1..] == [];
    } else {
      assert (requests + [last])[1..] == requests[1..] + [last];
      AlwaysScanningAppend(ScanRequest(s, requests[0]), requests[1..], last);
    }
  }
}
