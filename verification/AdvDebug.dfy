/** The advanced debug unit, and the bit strings that select its modules and registers and start its bursts. */
module AdvDebug {
  import opened BitWords

  /** The modules: 0 is the WISHBONE bus, 1 and 2 are the CPUs, 3 is the serial port. */
  const WISHBONE := 0
  const JSP := 3

  const MODULE_SELECT_SIZE := 2
  const OPCODE_LEN := 4
  const REG_SEL_LEN := 1
  const COMMAND_LEN := 53

  const CMD_IREG_WR := 0x9
  const CMD_IREG_SEL := 0xd

  /** A small C constant as a word. */
  function Small(n: nat): Word {
    Nibble(n) + Zeros(28)
  }

  function Number2(low: bool, high: bool): (n: nat)
    ensures n < 4
  {
    (if low then 1 else 0) + (if high then 2 else 0)
  }

  // ---------- The hardware ----------

  /** What the debug unit is seen to do. */
  datatype Effect =
    | Wrote(m: nat, index: bool, data: Bits)
    | Burst(m: nat, opcode: Bits, address: Bits, count: Bits)

  /**
   The debug unit: its command register, which keeps its contents between scans; the selected module
   and, in each module, the selected register; whether the next scan carries burst data; and what it
   has done so far. `pad` is the number of BYPASS devices before it on the chain.
   */
  datatype Unit = Unit(
    pad: nat, shiftReg: Bits, moduleId: nat, regIdx: seq<bool>, bursting: bool, effects: seq<Effect>)
  {
    ghost predicate Valid() {
      |shiftReg| == COMMAND_LEN && moduleId < 4 && |regIdx| == 3
    }
  }

  /** The opcodes of register commands, as the modules decode them: 1101 selects, and 1001 writes. */
  const UNIT_IREG_SEL: Bits := [true, false, true, true]
  const UNIT_IREG_WR: Bits := [true, false, false, true]

  /** The width of the internal register of a module. */
  function Width(m: nat): nat {
    if m == WISHBONE then 1 else 2
  }

  predicate IsBurst(opcode: Bits)
    requires |opcode| == OPCODE_LEN
  {
    !opcode[3] && (opcode[0] || opcode[1])
  }

  /** Update-DR with a command in the register. */
  function Decode(u: Unit): (r: Unit)
    requires u.Valid()
    ensures r.Valid() && r.pad == u.pad
  {
    var reg := u.shiftReg;
    var opcode := reg[48..52];
    if reg[52] then
      u.(moduleId := Number2(reg[50], reg[51]))
    else if u.moduleId == JSP then
      u
    else if opcode == UNIT_IREG_SEL then
      u.(regIdx := u.regIdx[u.moduleId := reg[47]])
    else if opcode == UNIT_IREG_WR then
      u.(regIdx := u.regIdx[u.moduleId := reg[47]],
         effects := u.effects + [Wrote(u.moduleId, reg[47], reg[47 - Width(u.moduleId)..47])])
    else if IsBurst(opcode) && reg[..16] != Zeros(16) then
      u.(bursting := true, effects := u.effects + [Burst(u.moduleId, opcode, reg[16..48], reg[..16])])
    else
      u
  }

  /** A command changes either the module selected, or one register selection in it, and does at most one thing. */
  lemma DecodeIsLocal(u: Unit)
    requires u.Valid()
    ensures var r := Decode(u);
            && r.shiftReg == u.shiftReg && r.pad == u.pad
            && (u.shiftReg[52] ==> r == u.(moduleId := r.moduleId))
            && (!u.shiftReg[52] ==> r.moduleId == u.moduleId)
            && (forall m :: 0 <= m < 3 && (u.shiftReg[52] || m != u.moduleId) ==> r.regIdx[m] == u.regIdx[m])
            && (u.moduleId == JSP && !u.shiftReg[52] ==> r == u)
            && u.effects <= r.effects && |r.effects| <= |u.effects| + 1
            && (r.bursting && !u.bursting ==> |r.effects| == |u.effects| + 1)
  {
  }

  /** Update-DR, the end of any scan: of a command, or of the data of a burst. */
  function AtUpdate(u: Unit): (r: Unit)
    requires u.Valid()
    ensures r.Valid() && r.pad == u.pad
  {
    if u.bursting then u.(bursting := false) else Decode(u)
  }

  /** The command register after a scan: its last old bits, a zero from each BYPASS register, and the bits sent. */
  function Shifted(u: Unit, bits: Bits): (r: Bits)
    requires u.Valid()
    ensures |r| == COMMAND_LEN
  {
    var seen := u.shiftReg + Zeros(u.pad) + bits;
    seen[|seen| - COMMAND_LEN..]
  }

  /** A data scan. */
  function OnScan(u: Unit, bits: Bits): (r: Unit)
    requires u.Valid()
    ensures r.Valid() && r.pad == u.pad
  {
    AtUpdate(u.(shiftReg := Shifted(u, bits)))
  }

  /** A TAP reset may or may not be wired to the reset of the unit. */
  function OnReset(u: Unit, clears: bool): (r: Unit)
    requires u.Valid()
    ensures r.Valid() && r.pad == u.pad
  {
    if clears then u.(shiftReg := Zeros(COMMAND_LEN), moduleId := 0, regIdx := [false, false, false], bursting := false)
    else u
  }

  // ---------- The commands as bit strings ----------

  function SelectWord(m: nat): Word {
    Or(Small(m), Shl(Small(1), MODULE_SELECT_SIZE))
  }

  function RegisterWord(opcode: nat, index: nat): Word {
    Or(Shl(And(Small(opcode), Not(Shl(Small(1), OPCODE_LEN))), REG_SEL_LEN), Small(index))
  }

  function NopWord(): Word {
    And(Small(0), Not(Shl(Small(1), OPCODE_LEN)))
  }

  function SelectBits(m: nat): Bits {
    StreamBits([SelectWord(m)], MODULE_SELECT_SIZE + 1)
  }

  function RegisterBits(opcode: nat, index: nat): Bits {
    StreamBits([RegisterWord(opcode, index)], 5 + REG_SEL_LEN)
  }

  function NopBits(): Bits {
    StreamBits([NopWord()], OPCODE_LEN + 1)
  }

  /** The two words of a burst command. */
  function BurstWords(opcode: nat, address: Word, count: Word): (w: seq<Word>)
    ensures |w| == 2
  {
    [Or(count, Shl(address, 16)),
     And(Or(Shr(address, 16), Shl(And(Small(opcode), Small(0xf)), 16)), Not(Shl(Small(1), 20)))]
  }

  lemma SelectBitsAre(m: nat)
    requires m < 4
    ensures SelectBits(m) == [m % 2 == 1, m / 2 == 1, true] && Number2(m % 2 == 1, m / 2 == 1) == m
  {
  }

  lemma RegisterBitsAre(opcode: nat, index: nat)
    requires opcode < 16 && index < 2
    ensures RegisterBits(opcode, index) == [index == 1] + Nibble(opcode) + [false]
  {
  }

  /** The hardware decodes what the bridge meant exactly when the count fits its 16-bit field. */
  lemma BurstCommandDecodes(opcode: nat, address: Word, count: Word)
    requires opcode < 16
    ensures var bits := StreamBits(BurstWords(opcode, address, count), COMMAND_LEN);
            && bits[48..52] == Nibble(opcode) && !bits[52] && bits[..16] == count[..16]
            && (bits[16..48] == address && bits[..16] + Zeros(16) == count <==> count[16..] == Zeros(16))
  {
    var words := BurstWords(opcode, address, count);
    var bits := StreamBits(words, COMMAND_LEN);
    HighCommandWord(opcode, address, count);
    assert forall i :: 0 <= i < 32 ==> bits[i] == words[0][i];
    assert forall i :: 32 <= i < 53 ==> bits[i] == words[1][i - 32];
    assert bits[..16] == count[..16];
    assert bits[48..52] == Nibble(opcode);
    if count[16..] == Zeros(16) {
      assert forall i :: 16 <= i < 32 ==> count[i] == count[16..][i - 16];
      assert bits[16..48] == address;
      assert count == count[..16] + count[16..];
    }
    if bits[..16] + Zeros(16) == count {
      assert count[16..] == Zeros(16);
    }
  }

  lemma HighCommandWord(opcode: nat, address: Word, count: Word)
    ensures var w := BurstWords(opcode, address, count)[1];
            && (forall i :: 0 <= i < 16 ==> w[i] == address[i + 16])
            && (forall i :: 0 <= i < 4 ==> w[i + 16] == Nibble(opcode)[i])
            && !w[20]
  {
    assert Small(0xf)[..4] == Ones(4);
    var shifted := Shl(And(Small(opcode), Small(0xf)), 16);
    assert forall i :: 0 <= i < 4 ==> shifted[i + 16] == Nibble(opcode)[i];
  }

  // ---------- What a command does to an idle unit ----------

  lemma SelectScan(u: Unit, m: nat)
    requires u.Valid() && !u.bursting && m < 4
    ensures OnScan(u, SelectBits(m)) == u.(moduleId := m, shiftReg := Shifted(u, SelectBits(m)))
  {
    SelectBitsAre(m);
    var reg := Shifted(u, SelectBits(m));
    assert reg[50] == SelectBits(m)[0] && reg[51] == SelectBits(m)[1] && reg[52] == SelectBits(m)[2];
  }

  /** The last bits of a string. */
  function Top(n: nat, bits: Bits): (r: Bits)
    requires n <= |bits|
    ensures |r| == n
  {
    bits[|bits| - n..]
  }

  /** What a register write with an operand of any length leaves in the register. */
  function Operand(u: Unit, operand: Bits): (r: Bits)
    requires u.Valid()
    ensures |r| == Width(u.moduleId)
  {
    Top(Width(u.moduleId), u.shiftReg + Zeros(u.pad) + operand)
  }

  /** An operand at least as wide as the register decides alone what is written: its last bits. */
  lemma WideOperand(u: Unit, operand: Bits)
    requires u.Valid() && |operand| >= Width(u.moduleId)
    ensures Operand(u, operand) == Top(Width(u.moduleId), operand)
  {
  }

  lemma RegisterScan(u: Unit, operand: Bits, opcode: nat, index: nat)
    requires u.Valid() && !u.bursting && u.moduleId < JSP && index < 2
    requires opcode == CMD_IREG_SEL || opcode == CMD_IREG_WR
    ensures var after := OnScan(u, operand + RegisterBits(opcode, index));
            after == u.(shiftReg := after.shiftReg, regIdx := u.regIdx[u.moduleId := index == 1],
              effects := if opcode == CMD_IREG_WR
                         then u.effects + [Wrote(u.moduleId, index == 1, Operand(u, operand))] else u.effects)
  {
    hide Shifted, Operand, RegisterBits, Nibble, Top;
    RegisterFields(u, operand, opcode, index);
    OpcodesDecode();
  }

  /** The bridge's opcodes are the ones the modules decode. */
  lemma OpcodesDecode()
    ensures Nibble(CMD_IREG_SEL) == UNIT_IREG_SEL && Nibble(CMD_IREG_WR) == UNIT_IREG_WR
    ensures UNIT_IREG_SEL != UNIT_IREG_WR
  {
    assert UNIT_IREG_SEL[2] && !UNIT_IREG_WR[2];
  }

  lemma RegisterFields(u: Unit, operand: Bits, opcode: nat, index: nat)
    requires u.Valid() && opcode < 16 && index < 2
    ensures var reg := Shifted(u, operand + RegisterBits(opcode, index));
            && !reg[52] && reg[48..52] == Nibble(opcode) && reg[47] == (index == 1)
            && reg[47 - Width(u.moduleId)..47] == Operand(u, operand)
  {
    hide RegisterBits, Nibble;
    RegisterBitsAre(opcode, index);
    var older, command := u.shiftReg + Zeros(u.pad), RegisterBits(opcode, index);
    TopFields(older, operand, command, Width(u.moduleId));
    assert older + (operand + command) == older + operand + command;
    CommandFields(Shifted(u, operand + command), command);
  }

  lemma CommandFields(reg: Bits, command: Bits)
    requires |reg| == COMMAND_LEN && |command| == 6 && reg[47..] == command
    ensures reg[48..52] == command[1..5] && reg[52] == command[5] && reg[47] == command[0]
  {
    assert reg[48..52] == reg[47..][1..5];
    assert reg[52] == reg[47..][5] && reg[47] == reg[47..][0];
  }

  lemma TopFields(older: Bits, operand: Bits, command: Bits, w: nat)
    requires |older| >= COMMAND_LEN && |command| == 6 && w <= 47
    ensures var reg := Top(COMMAND_LEN, older + operand + command);
            reg[47..] == command && reg[47 - w..47] == Top(w, older + operand)
  {
  }

  lemma NopScan(u: Unit, before: Bits)
    requires u.Valid() && !u.bursting
    ensures OnScan(u, before + NopBits()) == u.(shiftReg := Shifted(u, before + NopBits()))
  {
    assert NopBits() == Zeros(5);
    var bits := before + NopBits();
    var seen := u.shiftReg + Zeros(u.pad) + bits;
    var reg := Shifted(u, bits);
    assert forall k :: 48 <= k < 53 ==> reg[k] == NopBits()[k - 48];
    assert reg[48..52] == Zeros(4) && !reg[52];
    assert Nibble(CMD_IREG_SEL)[0] && Nibble(CMD_IREG_WR)[0];
  }

  lemma BurstScan(u: Unit, opcode: nat, address: Word, count: Word)
    requires u.Valid() && !u.bursting && u.moduleId < JSP
    requires opcode < 16 && IsBurst(Nibble(opcode)) && count[16..] == Zeros(16) && count != ZERO
    ensures var after := OnScan(u, StreamBits(BurstWords(opcode, address, count), COMMAND_LEN));
            after == u.(shiftReg := after.shiftReg, bursting := true,
                        effects := u.effects + [Burst(u.moduleId, Nibble(opcode), address, count[..16])])
  {
    var bits := StreamBits(BurstWords(opcode, address, count), COMMAND_LEN);
    BurstCommandDecodes(opcode, address, count);
    assert Shifted(u, bits) == bits;
    assert Nibble(CMD_IREG_SEL)[3] && Nibble(CMD_IREG_WR)[3];
    assert count == count[..16] + count[16..];
    assert count[..16] == Zeros(16) ==> count == ZERO;
  }
}
