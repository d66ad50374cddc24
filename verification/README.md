# Verified model of the JTAG bridge and the DRAM measurement firmware

This project models, in Dafny 4.11, the logic of the advanced JTAG bridge
(`ddr2/cores/adv_debug_sys/Software/adv_jtag_bridge`), with the hardware it talks to, and of two
DRAM measurement programs (`uController`), and proves what they are for. `dafny verify dfyconfig.toml`
checks all of it.

The files, from the wires upwards:

- `BitWords.dfy`, `Sequences.dfy`: 32-bit words as bit strings, least significant bit first; concatenation.
- `Crc32.dfy`: the CRC of the debug protocol. Main result: every error within 32 consecutive bits is
  detected (`BurstDetected`), and the bound is tight; and the bridge computes what the unit's register
  computes (`FeedIsClocks`).
- `ScanChain.dfy`: the hardware side of a JTAG chain of any number of devices with registers of any
  length, one TCK at a time: the TAP controller of section 6.1 of IEEE Std 1149.1-2001, instruction
  registers, and data registers with BYPASS (section 10) and identification codes (section 12).
- `ChainCommands.dfy`: what streams of clocks do to such a chain.
- `Bridge.dfy`, `ChainSetup.dfy`: the scan functions of the bridge, as methods that clock the chain.
  Main results: enumeration (`EnumerateChain`), instruction selection (`SetIrSelects` with the exact
  condition `OpcodeArrives`), aligned reads and writes (`AdjustedReadWrite`, `PaddedWrite`), and the walk of
  every data scan through the controller's states (`TwoStreamScan`).
- `AdvDebug.dfy`, `DebugCommands.dfy`: the debug unit, the bit strings of its commands, and the commands
  themselves, clocked through the chain of which the unit is one device, with the bridge's cache of selected
  modules and registers. Main results: what a scan delivers to the unit (`ScanReaches`), and over any
  sequence of requests the cache never lies (`Debugger.Serve`).
- `BurstRead.dfy`, `BurstScan.dfy`: burst reads with restarts after bus errors, over a line that may
  corrupt what it carries, and their data half clocked through the chain. Main results: `Read`, `ReadBurst`.
- `RspPackets.dfy`: framing, escaping and acknowledgement of the GDB remote serial protocol. Main results:
  `RoundTrip` and its counterpart for arbitrary input, `OnlyFramesAccepted`.
- `MatchpointTable.dfy`: the hash table of matchpoints, 1021 linked chains that represent one finite map.
- `MemoryBreakpoints.dfy`, `Watchpoints.dfy`, `MatchpointServer.dfy`: software breakpoints are transparent,
  hardware watchpoints are conserved, and the packet handlers keep both (`Server.Serve`).
- `StallMonitor.dfy`: the thread that stalls, restarts and polls the CPU for up to five servers. Main
  result: `ReachableAgrees`.
- `SerialPort.dfy`: the two ring buffers of the JTAG serial port server. Main result: `Port.Serve`.
- `Ft2232.dfy`: the USB cable driver, down to the command bytes and their meaning to the chip. Main
  results: it clocks and samples what bit-banging would (`CableWriteStream`, `CableReadWriteStream`).
- `DramArray.dfy`, `DelayMap.dfy`, `DelaySearch.dfy`: the heat map of first failures in write-once
  flash, and the binary search for a delay.

What the model takes as given: the cable, sockets, pipes, USB transfers and DRAM cells give values that
are parameters, so the theorems hold for all of them. A line that corrupts a burst changes bits within 32
consecutive ones per burst. `unsigned int` shifts use their count modulo 32, as on the x86 hosts of
the bridge, where C leaves them undefined (`chain_commands.c:206` for the opcode masks,
`cable_ft2232.c:734` for a sample, and `cable_common.c:230`, `:264` and `:266` for the last bit of a stream).
`unsigned long` may be 32 or 64 bits wide. The FT2232 chip drives TMS low during data
commands, as its driver relies on; the chip's data sheet is not part of this model.

Where the model found the code to fall short, it has the exact condition and, where that is not evident, a
concrete case:

- `OpcodeArrives`: the instruction scan needs (postfix mod 32) + size below 32, or ones.
- `BurstCommandDecodes`: a burst count must fit 16 bits, which the function does not check.
- `Read`, `RestartsWithin`, `HarmlessIff` and `OldErrorElsewhere`: a read does not clear an error latched
  before it. It then skips words, or computes an index outside the buffer. The function itself leaves an
  error latched when it gives up after 11 bus errors.
- `DelayedTimesOut`: 100 devices after the unit make every burst time out, because their bits count as waiting.
- `NextScanLost`: a read that times out leaves the chain in Shift-DR, and the scan after it is lost.
- `UnalignedLosesWord`: breakpoints at two addresses of one word.
- `InsertConserves`: inserting a hardware matchpoint again loses a watchpoint.
- `ClientConserves`: the watchpoint client can free a watchpoint that is held, or one that is absent, or
  spoil the registers of one that is held.
- `CoreFiresAsWanted` and `CoreEnablesTheOneBefore`: with the OR1200 core in `ddr2/cores/or1200`, built with its
  hardware breakpoints, a watchpoint for loads or stores fires on both, and the enable bits lie one higher.
- `ObeyedSafe`, `UnstallRuns`, `LeavingLosesNothing`: a stall write that fails, an unstall of a CPU whose
  halt went unnoticed, and commands lost by unregistering.
- `Monitor.Register`: it reports failure with 0, and its callers look for a negative number
  (`rsp-server.c:689`, `hwp_server.c:243`, `jsp_server.c:185`).
- `HardwareTransact`, `Port.Serve`: the inbound ring has no check for room.
- `FindsExactlyTheReached` and `TwoIsMissed`: the delay search can only find the delays that halving reaches.
- `SamplesInPlace`, `OnePacketArrives`: the branch at `cable_ft2232.c:734` shifts by a negative count and
  loses the sample; reading a stream never takes it.

Where code and comments disagree the model follows the code. `adv_dbg_commands.c:334-337` says that only
the last burst of a restarted read is checked by its CRC; in the code every burst is checked before its error
register is read, so all words kept from earlier bursts are protected too. The comment before
`tap_reset` describes a different order of TRST and TMS clocks from the one in the code.

## Model

| member | source | states |
|---|---|---|
| Crc32.ComputeCrc | ddr2/cores/adv_debug_sys/Software/adv_jtag_bridge/adv_dbg_commands.c:61-75 | the loop over one data word does what as many clocks of the debug unit's own CRC register do, for any start value and length |
| Crc32.PolynomialTaps | ddr2/cores/adv_debug_sys/Software/adv_jtag_bridge/adv_dbg_commands.h:20 | the polynomial has its bits exactly at the taps of the unit's register |
| Crc32.FeedIsClocks | ddr2/cores/adv_debug_sys/Hardware/adv_dbg_if/rtl/verilog/adbg_crc32.v:67-105 | the bridge computes over any bits what the unit's register, clocked bit by bit, computes over them |
| Crc32.ShiftedOutBits | ddr2/cores/adv_debug_sys/Hardware/adv_dbg_if/rtl/verilog/adbg_crc32.v:99-110 | shifted out, that register gives its bits from the lowest on, so the bridge reads back the CRC itself |
| Crc32.FeedConcat | ddr2/cores/adv_debug_sys/Software/adv_jtag_bridge/adv_dbg_commands.c:61-75 | a CRC can be continued: feeding a concatenation is feeding the second part from the result of the first |
| Crc32.FeedLinear | ddr2/cores/adv_debug_sys/Software/adv_jtag_bridge/adv_dbg_commands.c:61-75 | the CRC is linear: the XOR of two runs is the run of the XORs, for any start values and data |
| Crc32.ZerosKeepDifference | ddr2/cores/adv_debug_sys/Software/adv_jtag_bridge/adv_dbg_commands.c:61-75 | the zero-input step is injective, so a difference never dies out by itself |
| Crc32.OwnBitsCancel | ddr2/cores/adv_debug_sys/Software/adv_jtag_bridge/adv_dbg_commands.c:61-75 | feeding the register its own value leaves zero |
| Crc32.AcceptsIffErrorVanishes | ddr2/cores/adv_debug_sys/Software/adv_jtag_bridge/adv_dbg_commands.c:520-527 | a corrupted transfer passes the comparison of computed and read CRC if and only if its error pattern alone feeds to zero |
| Crc32.BurstDetected | ddr2/cores/adv_debug_sys/Software/adv_jtag_bridge/adv_dbg_commands.c:61-75 | for data of any length, an error whose differing bits lie within 32 consecutive positions of data followed by CRC, the boundary included, is detected: the comparison succeeds if and only if nothing changed |
| Crc32.LongerBurstMissed | ddr2/cores/adv_debug_sys/Software/adv_jtag_bridge/adv_dbg_commands.c:61-75 | the bound of 32 is tight: flipping the last data bit and the right CRC bits after it always goes undetected |
| ScanChain.ShiftOnceIsFlat | ddr2/cores/adv_debug_sys/Hardware/jtag/tap/rtl/verilog/tap_top.v:362-446 | clocking registers in series, bit by bit, is one shift of their concatenation, whatever their lengths |
| ScanChain.ShiftManyIsFlat | ddr2/cores/adv_debug_sys/Hardware/jtag/tap/rtl/verilog/tap_top.v:362-446 | after any number of clocks, what came out followed by what is in the registers is what was there followed by what went in |
| ScanChain.Clock | ddr2/cores/adv_debug_sys/Hardware/jtag/tap/rtl/verilog/tap_top.v:201-342 | one TCK keeps the chain well formed and moves every device's controller to the successor state of the TAP diagram |
| ChainCommands.DataInShiftDr | ddr2/cores/adv_debug_sys/Software/adv_jtag_bridge/chain_commands.c:276-295 | data clocked in Shift-DR moves through the data registers, returns what they shift out, changes nothing else, and leaves the state only with the clock that raises TMS |
| ChainCommands.DataInShiftIr | ddr2/cores/adv_debug_sys/Software/adv_jtag_bridge/chain_commands.c:220-223 | the same in Shift-IR for the instruction registers |
| ChainCommands.IrScanRun | ddr2/cores/adv_debug_sys/Software/adv_jtag_bridge/chain_commands.c:212-226 | the whole instruction scan, clock by clock, from Run-Test/Idle: shift, update, back to Run-Test/Idle |
| ChainCommands.IrScanLoads | ddr2/cores/adv_debug_sys/Software/adv_jtag_bridge/chain_commands.c:212-226 | a stream as long as all instruction registers together ends with each register holding its own part of the stream |
| ChainCommands.WriteLands | ddr2/cores/adv_debug_sys/Software/adv_jtag_bridge/chain_commands.c:276-295 | where a padded write ends up, for any register and data length: the last bits sent, preceded by BYPASS and register bits if they do not fill the target |
| ChainCommands.WriteExact | ddr2/cores/adv_debug_sys/Software/adv_jtag_bridge/chain_commands.c:276-295 | data that fill the target's register end up in it exactly, for any number of BYPASS devices on either side |
| ChainCommands.ReadAligned | ddr2/cores/adv_debug_sys/Software/adv_jtag_bridge/chain_commands.c:300-330 | discarding one bit per device after the target makes the first bit read the target's bit 0 |
| ChainCommands.ReadExact | ddr2/cores/adv_debug_sys/Software/adv_jtag_bridge/chain_commands.c:300-330 | up to its length, the bits read are exactly the target's captured bits |
| Bridge.JtagBridge.CableWriteStream | ddr2/cores/adv_debug_sys/Software/adv_jtag_bridge/cable_common.h:48-59 | clocks the first len bits of the words, least significant first, TMS high on the last one only if asked |
| Bridge.JtagBridge.CableReadWriteStream | ddr2/cores/adv_debug_sys/Software/adv_jtag_bridge/cable_common.h:48-59 | the same, returning the samples of TDO packed in words with zeros above them |
| Bridge.JtagBridge.WriteTrst | ddr2/cores/adv_debug_sys/Software/adv_jtag_bridge/chain_commands.c:122-144 | with the wire, every controller is reset and every device has its reset instruction, from any state, the shift registers as they were; without it, a chain that is reset already moves to Run-Test/Idle |
| Bridge.JtagBridge.TapReset | ddr2/cores/adv_debug_sys/Software/adv_jtag_bridge/chain_commands.c:122-144 | from any of the 16 states, with or without a TRST wire, makes exactly the clocks of the reset (one with TMS low, eight with TMS high, TRST or without the wire a clock with TMS low, and one more with TMS low), and ends in Run-Test/Idle with reset instructions everywhere, and forgets both selection caches |
| Bridge.HighResets | ddr2/cores/adv_debug_sys/Software/adv_jtag_bridge/chain_commands.c:122-144 | from any state, clocks with TMS high lead to Test-Logic-Reset if and only if there are at least as many of them as the state's distance, which is never more than five |
| Bridge.JtagBridge.TapSetShiftDr | ddr2/cores/adv_debug_sys/Software/adv_jtag_bridge/chain_commands.c:233-242 | the three clocks from Run-Test/Idle to Shift-DR |
| Bridge.JtagBridge.TapExitToIdle | ddr2/cores/adv_debug_sys/Software/adv_jtag_bridge/chain_commands.c:246-254 | the two clocks from Exit1 to Run-Test/Idle |
| Bridge.JtagBridge.TapSetIr | ddr2/cores/adv_debug_sys/Software/adv_jtag_bridge/chain_commands.c:181-229 | the words built with masks and shifts, shifted out, are the stream of ones around the opcode; the module cache is forgotten |
| Bridge.IrChainBits | ddr2/cores/adv_debug_sys/Software/adv_jtag_bridge/chain_commands.c:189-210 | the words built for an instruction scan, including an opcode that spills into the next word, read as that stream of bits |
| Bridge.JtagBridge.JtagWriteStream | ddr2/cores/adv_debug_sys/Software/adv_jtag_bridge/chain_commands.c:276-295 | clocks the data and, with set_TMS, one zero per device before the target, TMS high on the very last clock |
| Bridge.JtagBridge.JtagReadWriteStream | ddr2/cores/adv_debug_sys/Software/adv_jtag_bridge/chain_commands.c:300-330 | the same after skipping one bit per device behind the target when adjusting; returns exactly the samples taken during the data bits |
| ChainSetup.EnumerateChain | ddr2/cores/adv_debug_sys/Software/adv_jtag_bridge/chain_commands.c:343-428 | for any chain whose devices capture a 0 or a 32-bit code with a leading 1, returns the codes in order from the data-out end, all ones for BYPASS, up to the first reserved code or 1024 devices, and ends in Run-Test/Idle |
| ChainSetup.EnumerateOne | ddr2/cores/adv_debug_sys/Software/adv_jtag_bridge/chain_commands.c:372-414 | one turn of the loop: tells a device from the returning 0x7f marker and reassembles its code from three fields |
| ChainSetup.EnumerationComplete | ddr2/cores/adv_debug_sys/Software/adv_jtag_bridge/chain_commands.c:343-428 | every device is found if and only if there are at most 1024 and none has the reserved manufacturer code |
| ChainSetup.ConfigureChain | ddr2/cores/adv_debug_sys/Software/adv_jtag_bridge/adv_jtag_bridge.c:190-212 | the accumulated sizes are the instruction bits before and after the target, and the BYPASS counts the devices before and after it |
| ChainSetup.SetIrSelects | ddr2/cores/adv_debug_sys/Software/adv_jtag_bridge/chain_commands.c:181-229 | after the scan the target's instruction register holds what was sent for it and every other one holds all ones |
| ChainSetup.OpcodeArrives | ddr2/cores/adv_debug_sys/Software/adv_jtag_bridge/chain_commands.c:201-210 | what was sent is the requested opcode if and only if (postfix mod 32) + size is below 32 or the opcode's bits in that word are all ones anyway; beyond, the mask shift is undefined in C and wraps on the bridge's hosts |
| ChainSetup.PaddedWrite | ddr2/cores/adv_debug_sys/Software/adv_jtag_bridge/chain_commands.c:276-295 | on the hardware: a padded write ends in Exit1-DR with the data in the target's register |
| ChainSetup.AdjustedReadWrite | ddr2/cores/adv_debug_sys/Software/adv_jtag_bridge/chain_commands.c:300-330 | on the hardware: an adjusted read returns the target's captured bits while the padded write lands in the target |
| ChainSetup.BypassLooksNotReady | ddr2/cores/adv_debug_sys/Software/adv_jtag_bridge/adv_dbg_commands.c:421-425 | in a burst, which does not skip the devices after the target, their BYPASS bits come first and read as zeros, that is as a unit that is not ready; then the target's bits follow |
| ChainSetup.ClockedInShiftDr | ddr2/cores/adv_debug_sys/Software/adv_jtag_bridge/chain_commands.c:276-330 | every clock of a data stream of any length, the one that raises TMS included, is made in Shift-DR |
| ChainSetup.TwoStreamScan | ddr2/cores/adv_debug_sys/Software/adv_jtag_bridge/adv_dbg_commands.c:221-227 | a scan of two streams, as register writes, register reads and bursts make it, for any number of skipped bits, any lengths and any padding: it shifts only in Shift-DR, is one scan of all the bits, and ends in Run-Test/Idle |
| ChainSetup.BurstEndsIdle | ddr2/cores/adv_debug_sys/Software/adv_jtag_bridge/adv_dbg_commands.c:421-518 | its instance for a burst: however many status bits and words are read, the CRC read at the end leads back to Run-Test/Idle |
| ChainSetup.ReadRegister | ddr2/cores/adv_debug_sys/Software/adv_jtag_bridge/chain_commands.c:432-452 | a whole reading data scan of any length returns the target's register, aligned, and ends in Run-Test/Idle |
| ChainSetup.WriteRegister | ddr2/cores/adv_debug_sys/Software/adv_jtag_bridge/chain_commands.c:155-166 | a whole writing data scan of any length latches the bits into the target's register and ends in Run-Test/Idle |
| ChainSetup.GetIdcode | ddr2/cores/adv_debug_sys/Software/adv_jtag_bridge/chain_commands.c:432-452 | selects the instruction in the target alone and returns its 32-bit register; the virtual-JTAG setting is restored |
| ChainSetup.EnableDebugModule | ddr2/cores/adv_debug_sys/Software/adv_jtag_bridge/chain_commands.c:147-174 | selects the debug instruction, directly or through the virtual instruction register, leaves every other device in BYPASS, and forgets the module cache |
| AdvDebug.DecodeIsLocal | ddr2/cores/adv_debug_sys/Hardware/adv_dbg_if/rtl/verilog/adbg_top.v:241-272 | a command changes either the module selected or one register selection in that module, does at most one thing, and does nothing to the serial port |
| AdvDebug.SelectScan | ddr2/cores/adv_debug_sys/Software/adv_jtag_bridge/adv_dbg_commands.c:94-104 | the three bits sent select exactly the module meant and do nothing else |
| AdvDebug.OpcodesDecode | ddr2/cores/adv_debug_sys/Hardware/adv_dbg_if/rtl/verilog/adbg_wb_defines.v:91-92 | the bridge's register opcodes are the ones the modules decode |
| AdvDebug.RegisterScan | ddr2/cores/adv_debug_sys/Software/adv_jtag_bridge/adv_dbg_commands.c:154-217 | a register command selects, and for a write also writes, exactly the register meant, in the selected module only, for an operand of any length |
| AdvDebug.WideOperand | ddr2/cores/adv_debug_sys/Software/adv_jtag_bridge/adv_dbg_commands.c:187-217 | an operand at least as wide as the register decides alone what is written: its last bits |
| AdvDebug.NopScan | ddr2/cores/adv_debug_sys/Software/adv_jtag_bridge/adv_dbg_commands.c:276-287 | the NOP that follows a register read changes nothing, whatever is in the rest of the command register |
| AdvDebug.BurstCommandDecodes | ddr2/cores/adv_debug_sys/Software/adv_jtag_bridge/adv_dbg_commands.c:314-316 | the unit decodes the address and count that were meant if and only if the count fits its 16-bit field |
| AdvDebug.BurstScan | ddr2/cores/adv_debug_sys/Software/adv_jtag_bridge/adv_dbg_commands.c:305-332 | a burst command with a count that fits starts that burst in the selected module |
| DebugCommands.ScanDelivers | ddr2/cores/adv_debug_sys/Software/adv_jtag_bridge/chain_commands.c:276-295 | a padded scan of a chain of any devices delivers to the unit's command register exactly what the unit is specified to see: the last of its old bits, a zero per BYPASS register before it, and the bits sent |
| DebugCommands.ScanReaches | ddr2/cores/adv_debug_sys/Software/adv_jtag_bridge/chain_commands.c:276-295 | the same for a whole scan, clock by clock, from Run-Test/Idle and back, with every other device in BYPASS |
| DebugCommands.ReadOutput | ddr2/cores/adv_debug_sys/Software/adv_jtag_bridge/chain_commands.c:300-330 | past the BYPASS registers after the unit, the bits sampled are what it gives out |
| DebugCommands.Debugger.Scan | ddr2/cores/adv_debug_sys/Software/adv_jtag_bridge/adv_dbg_commands.c:98-104 | on the clocks of the chain, one stream has on the unit the effect of its bits, and leaves the chain in Run-Test/Idle with only the unit selected |
| DebugCommands.Debugger.ScanTwo | ddr2/cores/adv_debug_sys/Software/adv_jtag_bridge/adv_dbg_commands.c:221-227 | the same for a scan of two streams, TMS rising in the second only |
| DebugCommands.Debugger.ScanRead | ddr2/cores/adv_debug_sys/Software/adv_jtag_bridge/adv_dbg_commands.c:278-287 | the same for a read: the samples are the first bits of what the unit gives out, although the scan ends with another stream |
| DebugCommands.Debugger.TapReset | ddr2/cores/adv_debug_sys/Software/adv_jtag_bridge/chain_commands.c:122-144 | forgets all selections; the cache stays right whether or not the reset reaches the unit |
| DebugCommands.Debugger.EnableDebug | ddr2/cores/adv_debug_sys/Software/adv_jtag_bridge/chain_commands.c:147-174 | selects the unit on the chain and forgets the module selection only |
| DebugCommands.Debugger.SelectModule | ddr2/cores/adv_debug_sys/Software/adv_jtag_bridge/adv_dbg_commands.c:82-112 | with or without the scan, the module is the selected one afterwards |
| DebugCommands.Debugger.SelectCtrlReg | ddr2/cores/adv_debug_sys/Software/adv_jtag_bridge/adv_dbg_commands.c:119-175 | the register is the selected one in its module afterwards; an illegal module is reported and selects no register |
| DebugCommands.Debugger.CtrlWrite | ddr2/cores/adv_debug_sys/Software/adv_jtag_bridge/adv_dbg_commands.c:187-237 | writes to the given register, which is then the selected one; data of any length at least the register's width decide what is written, shorter data are preceded by older bits; an illegal module is reported |
| DebugCommands.Debugger.CtrlRead | ddr2/cores/adv_debug_sys/Software/adv_jtag_bridge/adv_dbg_commands.c:243-296 | returns what the given register holds, up to 128 bits of it, and selects it; an illegal module is reported |
| DebugCommands.Debugger.BurstTransfer | ddr2/cores/adv_debug_sys/Software/adv_jtag_bridge/adv_dbg_commands.c:305-332 | starts exactly the burst meant in the selected module, and its data, whatever the bits, start nothing else |
| DebugCommands.Debugger.ServeOne | ddr2/cores/adv_debug_sys/Software/adv_jtag_bridge/adv_dbg_commands.c:82-332 | one request has the effect asked for and the selection a cacheless bridge would leave |
| DebugCommands.Debugger.Serve | ddr2/cores/adv_debug_sys/Software/adv_jtag_bridge/adv_dbg_commands.c:82-332 | over any sequence of requests, made by clocking the chain, the cache agrees with the hardware, the unit does what was asked and nothing else, every read returns what the register holds at that time, and the selection is the one that scanning every time would give |
| BurstRead.CrcProtects | ddr2/cores/adv_debug_sys/Software/adv_jtag_bridge/adv_dbg_commands.c:513-528 | against the CRC that the unit's own register computes over what it sent, the comparison of a burst succeeds if and only if neither words nor CRC were changed, when the changed bits lie within 32 consecutive ones |
| BurstRead.CommandDecodes | ddr2/cores/adv_debug_sys/Software/adv_jtag_bridge/adv_dbg_commands.c:305-332 | the module performs the burst that was meant: opcode, address and count come out of the 53 bits |
| BurstRead.AddressReassembled | ddr2/cores/adv_debug_sys/Software/adv_jtag_bridge/adv_dbg_commands.c:536-537 | the error address comes back intact from the two words of the 33-bit register |
| BurstRead.FirstErrorKept | ddr2/cores/adv_debug_sys/Hardware/adv_dbg_if/rtl/verilog/adbg_wb_module.v:294-316 | after any bursts the error register holds what it held before if that was an error, and otherwise the first bus error of the first burst that had one |
| BurstRead.RestartsWithin | ddr2/cores/adv_debug_sys/Software/adv_jtag_bridge/adv_dbg_commands.c:537-538 | the restart index, computed in the host's unsigned long of 32 or 64 bits, is one of the buffer if and only if the address is one of this read, and is then the word that holds it |
| BurstRead.WaitForStatus | ddr2/cores/adv_debug_sys/Software/adv_jtag_bridge/adv_dbg_commands.c:469-485 | gives up if and only if 100 zero status bits precede the word |
| BurstRead.ReceiveWords | ddr2/cores/adv_debug_sys/Software/adv_jtag_bridge/adv_dbg_commands.c:466-511 | each word lands at its index, cut to its size, and the CRC covers exactly the words received |
| BurstRead.TransferBurst | ddr2/cores/adv_debug_sys/Software/adv_jtag_bridge/adv_dbg_commands.c:402-528 | after one burst that passed its CRC, everything before its first bus error is right and the rest is what the unit delivered; a failure is never a false alarm |
| BurstRead.Read | ddr2/cores/adv_debug_sys/Software/adv_jtag_bridge/adv_dbg_commands.c:339-554 | success means every word equals memory, however many bus errors forced partial restarts over a corrupting line, in at most 11 bursts; if an old error is still latched, all words are right if and only if those the first burst delivered between its own first error and the old one, and those read after it at addresses not aligned to words, do no harm; and if that error is of an address outside this read, the index leaves the buffer as soon as a burst passes its CRC, and only then |
| BurstRead.HarmlessIff | ddr2/cores/adv_debug_sys/Software/adv_jtag_bridge/adv_dbg_commands.c:531-549 | an old error within the read is harmless, whatever the first burst delivers, if and only if it is in the first word and reading on from its address finds the same words |
| BurstRead.HarmlessAtStart | ddr2/cores/adv_debug_sys/Software/adv_jtag_bridge/adv_dbg_commands.c:531-549 | so an old error of the very address at which the read starts is always harmless |
| BurstRead.OldErrorMisleads | ddr2/cores/adv_debug_sys/Software/adv_jtag_bridge/adv_dbg_commands.c:531-549 | and for any old error behind the first word, any word size, count and start, some faithful line makes a read succeed with wrong words |
| BurstRead.OldErrorElsewhere | ddr2/cores/adv_debug_sys/Software/adv_jtag_bridge/adv_dbg_commands.c:537-549 | so is the other: the same read with an old error of address 0x1000 computes index 0x400 of a buffer of two words |
| BurstScan.BurstComes | ddr2/cores/adv_debug_sys/Software/adv_jtag_bridge/adv_dbg_commands.c:421-425 | after the walk to Shift-DR, any chain of devices in BYPASS gives the unit's burst with its first word delayed by one zero for each device after the unit |
| BurstScan.DelayedTimesOut | ddr2/cores/adv_debug_sys/Software/adv_jtag_bridge/adv_dbg_commands.c:469-485 | a burst that comes through the chain times out if and only if it would alone, or the unit's first wait and the devices after it together come to 100 |
| BurstScan.WaitOnChain | ddr2/cores/adv_debug_sys/Software/adv_jtag_bridge/adv_dbg_commands.c:469-485 | clocking single bits, gives up if and only if 100 zeros precede the one, and otherwise stops right behind it |
| BurstScan.ReadBurst | ddr2/cores/adv_debug_sys/Software/adv_jtag_bridge/adv_dbg_commands.c:421-520 | the data half of a burst, clock by clock on the chain: it completes if and only if the delayed transfer does not time out, with exactly its words, cut to their size, and its CRC, and then ends in Run-Test/Idle; a timeout leaves the chain in Shift-DR |
| BurstScan.NextScanLost | ddr2/cores/adv_debug_sys/Software/adv_jtag_bridge/adv_dbg_commands.c:476-485 | from there the next scan is lost: its bits reach no register, whatever they are, and Update-DR acts on what the burst left behind, before the chain is in Run-Test/Idle again |
| RspPackets.Connection.PutPacket | ddr2/cores/adv_debug_sys/Software/adv_jtag_bridge/rsp-server.c:1001-1051 | writes the escaped frame once per reply up to the first '+', and stops when the connection fails |
| RspPackets.Connection.PutOnce | ddr2/cores/adv_debug_sys/Software/adv_jtag_bridge/rsp-server.c:1009-1040 | one copy of the frame: start, escaped body, and the body's checksum in two hexadecimal digits |
| RspPackets.ChecksumOfOne | ddr2/cores/adv_debug_sys/Software/adv_jtag_bridge/rsp-server.c:1009-1032 | the checksum of nothing is 0, and that of one byte the byte |
| RspPackets.ChecksumAdds | ddr2/cores/adv_debug_sys/Software/adv_jtag_bridge/rsp-server.c:1009-1032 | the checksum of a concatenation is the sum of the checksums modulo 256, for any two parts |
| RspPackets.EscapedIsWireClean | ddr2/cores/adv_debug_sys/Software/adv_jtag_bridge/rsp-server.c:1020-1034 | a body as it is sent holds no start, end or run-length character, and every brace in it starts an escape of one of the four special characters |
| RspPackets.SpecialsOnTheWire | ddr2/cores/adv_debug_sys/Software/adv_jtag_bridge/rsp-server.c:1025-1030 | exactly the four special characters are escaped, each as a brace and itself with bit 5 flipped |
| RspPackets.OkOnTheWire | ddr2/cores/adv_debug_sys/Software/adv_jtag_bridge/rsp-server.c:1001-1051 | the reply "OK" goes out as "$OK#9a" |
| RspPackets.OkReceived | ddr2/cores/adv_debug_sys/Software/adv_jtag_bridge/rsp-server.c:1099-1214 | "$OK#9b" is answered with a minus and "$OK#9a" with a plus, and a sender repeats a packet after the one and not after the other |
| RspPackets.Connection.GetPacket | ddr2/cores/adv_debug_sys/Software/adv_jtag_bridge/rsp-server.c:1099-1214 | the loops over the input compute the receiver's specification: packet, input left over and acknowledgements |
| RspPackets.RspUnescape | ddr2/cores/adv_debug_sys/Software/adv_jtag_bridge/rsp-server.c:1326-1351 | unescapes in place, never writing past what it has read, and leaves the bytes behind the data alone |
| RspPackets.UnescapeEscape | ddr2/cores/adv_debug_sys/Software/adv_jtag_bridge/rsp-server.c:1326-1351 | unescaping what was escaped gives back the data, for any data |
| RspPackets.HexRoundTrip | ddr2/cores/adv_debug_sys/Software/adv_jtag_bridge/rsp-server.c:1511-1517 | two digits written for a byte read back as that byte |
| RspPackets.RoundTrip | ddr2/cores/adv_debug_sys/Software/adv_jtag_bridge/rsp-server.c:1001-1351 | for every payload whose escaped length fits, a frame with any '$'-free and break-free bytes in front is accepted with a '+', leaves the input behind it, and unescapes to the payload |
| RspPackets.FrameReceived | ddr2/cores/adv_debug_sys/Software/adv_jtag_bridge/rsp-server.c:1131-1205 | what becomes of any frame that fits is decided by its checksum alone: accepted, or refused with a '-' and skipped |
| RspPackets.Retransmission | ddr2/cores/adv_debug_sys/Software/adv_jtag_bridge/rsp-server.c:1099-1214 | a damaged frame is refused, and its retransmission accepted |
| RspPackets.OverlongDropped | ddr2/cores/adv_debug_sys/Software/adv_jtag_bridge/rsp-server.c:1131-1209 | the length limit is exact: a frame that fills the buffer is dropped without a reply |
| RspPackets.OnlyFramesAccepted | ddr2/cores/adv_debug_sys/Software/adv_jtag_bridge/rsp-server.c:1099-1214 | for any input at all, what is accepted was framed with a right checksum, fits the buffer and holds no delimiter, and was acknowledged; or it is a break |
| MatchpointTable.Chain.Find | ddr2/cores/adv_debug_sys/Software/adv_jtag_bridge/rsp-server.c:1468-1492 | finds the entry with a key if the chain has one, and the entry before it |
| MatchpointTable.Chain.Unlink | ddr2/cores/adv_debug_sys/Software/adv_jtag_bridge/rsp-server.c:1479-1488 | bypassing an entry leaves a null-terminated chain of the others in order, without duplicates |
| MatchpointTable.ContentsWithout | ddr2/cores/adv_debug_sys/Software/adv_jtag_bridge/rsp-server.c:1465-1497 | removing one entry removes exactly its key from the map the chain represents |
| MatchpointTable.Disjoint | ddr2/cores/adv_debug_sys/Software/adv_jtag_bridge/rsp-server.c:1361-1497 | no entry hangs from two of the 1021 chains |
| MatchpointTable.Table.Init | ddr2/cores/adv_debug_sys/Software/adv_jtag_bridge/rsp-server.c:1361-1369 | the table then represents the empty map |
| MatchpointTable.Table.Add | ddr2/cores/adv_debug_sys/Software/adv_jtag_bridge/rsp-server.c:1385-1411 | adds to the map; an entry that is already there keeps its value |
| MatchpointTable.Table.Lookup | ddr2/cores/adv_debug_sys/Software/adv_jtag_bridge/rsp-server.c:1425-1443 | returns the entry of the map, or null if and only if there is none |
| MatchpointTable.Table.Delete | ddr2/cores/adv_debug_sys/Software/adv_jtag_bridge/rsp-server.c:1465-1497 | removes exactly the entry and returns it, or null if and only if there is none |
| MemoryBreakpoints.InsertTransparent | ddr2/cores/adv_debug_sys/Software/adv_jtag_bridge/rsp-server.c:2809-2818 | inserting keeps breakpoints transparent if and only if it puts no second one into a word (or the word was a trap instruction) |
| MemoryBreakpoints.RemoveTransparent | ddr2/cores/adv_debug_sys/Software/adv_jtag_bridge/rsp-server.c:2709-2723 | removing keeps them transparent if and only if the word holds no other one (or was a trap instruction) |
| MemoryBreakpoints.RunTransparent | ddr2/cores/adv_debug_sys/Software/adv_jtag_bridge/rsp-server.c:2680-2820 | over any run of insertions and removals at aligned addresses, duplicates included, each breakpoint's word holds the trap and its entry the original, and all other memory is original |
| MemoryBreakpoints.AllRemoved | ddr2/cores/adv_debug_sys/Software/adv_jtag_bridge/rsp-server.c:2680-2820 | when the last breakpoint is gone memory is exactly what it was |
| MemoryBreakpoints.UnalignedLosesWord | ddr2/cores/adv_debug_sys/Software/adv_jtag_bridge/rsp-server.c:2680-2820 | without alignment it fails: two breakpoints in one word, removed in the order inserted, leave a trap behind |
| Watchpoints.WatchpointPool.constructor | ddr2/cores/adv_debug_sys/Software/adv_jtag_bridge/hwp_server.c:117-142 | a watchpoint starts out taken if and only if its control register cannot be read or lacks the present bit |
| Watchpoints.WatchpointPool.SetInUse | ddr2/cores/adv_debug_sys/Software/adv_jtag_bridge/hwp_server.c:1001-1010 | marks one watchpoint and no other; an index out of range changes nothing |
| Watchpoints.WatchpointPool.GetAvailable | ddr2/cores/adv_debug_sys/Software/adv_jtag_bridge/hwp_server.c:1018-1035 | takes the lowest free watchpoint, or returns -1 and changes nothing if there is none |
| Watchpoints.WatchpointPool.Return | ddr2/cores/adv_debug_sys/Software/adv_jtag_bridge/hwp_server.c:1041-1057 | frees that watchpoint and no other |
| Watchpoints.CodeFires | ddr2/cores/adv_debug_sys/Software/adv_jtag_bridge/rsp-server.c:2836-2935 | the control register written for each type of matchpoint fires, by its fields in the architecture's definition, exactly on the accesses of that type at the address: fetches, stores, loads, or loads and stores |
| Watchpoints.DisabledNeverFires | ddr2/cores/adv_debug_sys/Software/adv_jtag_bridge/rsp-server.c:2744-2746 | a removed one never fires, and still looks present |
| Watchpoints.ComparingFires | ddr2/cores/adv_debug_sys/Software/adv_jtag_bridge/hwp_server.c:807-817 | the client's value is taken to use the watchpoint if and only if it can make it fire on anything, unless it lacks the present bit or has the reserved condition |
| Watchpoints.CoreFiresAsWanted | ddr2/cores/or1200/or1200_du.v:1036-1084 | on the OR1200 core of this repository, whose watchpoints do not tell loads from stores, a matchpoint fires exactly as wanted if and only if it is for fetches or for both loads and stores; one for stores or loads alone fires on both |
| Watchpoints.CoreEnablesTheOneBefore | ddr2/cores/or1200/or1200_du.v:1622 | on that core the enable bits lie one higher, so the bit the server sets enables the watchpoint before the one it has programmed, and no other |
| Watchpoints.InsertConserves | ddr2/cores/adv_debug_sys/Software/adv_jtag_bridge/rsp-server.c:2822-2945 | inserting conserves watchpoints if and only if the (type, address) pair is new or none is free; inserting it again loses one |
| Watchpoints.RemoveConserves | ddr2/cores/adv_debug_sys/Software/adv_jtag_bridge/rsp-server.c:2725-2760 | removing always conserves them |
| Watchpoints.RemoveClearsOneBit | ddr2/cores/adv_debug_sys/Software/adv_jtag_bridge/rsp-server.c:2738-2742 | removing clears its own DMR2 enable bit and no other |
| Watchpoints.ClientConserves | ddr2/cores/adv_debug_sys/Software/adv_jtag_bridge/hwp_server.c:780-818 | a write by the watchpoint client to any watchpoint register conserves them if and only if it is harmless: a control register of one that is not held, without freeing an absent one; a value register of one not held, or the same value; chain bits clear and enable bits set of those held |
| Watchpoints.RemoveUndoesInsert | ddr2/cores/adv_debug_sys/Software/adv_jtag_bridge/rsp-server.c:2680-2957 | removing what was inserted restores the held ones and the pool |
| Watchpoints.RunConserves | ddr2/cores/adv_debug_sys/Software/adv_jtag_bridge/rsp-server.c:2680-2957 | over any run of allowed steps, the client's writes to all watchpoint registers among them, each watchpoint is in use exactly when it is absent, the client's, or held by one matchpoint, on whose accesses it then fires, and on no others, enabled and not chained |
| Watchpoints.NoneHeld | ddr2/cores/adv_debug_sys/Software/adv_jtag_bridge/rsp-server.c:2680-2957 | when no matchpoint is left, exactly the absent watchpoints and the client's are in use |
| MatchpointServer.Server.InsertMemory | ddr2/cores/adv_debug_sys/Software/adv_jtag_bridge/rsp-server.c:2809-2818 | one packet on table and memory, which then holds the trap instruction 0x21000001 in the word addressed; the hardware side is untouched |
| MatchpointServer.Server.InsertHardware | ddr2/cores/adv_debug_sys/Software/adv_jtag_bridge/rsp-server.c:2822-2945 | one packet on table, pool and registers, after which the lowest free watchpoint fires exactly on the accesses asked for, or an empty reply if and only if no watchpoint is free; memory breakpoints are untouched |
| MatchpointServer.Server.RemoveMemory | ddr2/cores/adv_debug_sys/Software/adv_jtag_bridge/rsp-server.c:2709-2723 | puts the original word back if the breakpoint exists, and always answers OK |
| MatchpointServer.Server.RemoveHardware | ddr2/cores/adv_debug_sys/Software/adv_jtag_bridge/rsp-server.c:2725-2760 | disables and frees the watchpoint if the matchpoint exists, and always answers OK |
| MatchpointServer.Server.Insert | ddr2/cores/adv_debug_sys/Software/adv_jtag_bridge/rsp-server.c:2783-2957 | an insertion packet of any type: if and only if which condition on the state before it, breakpoints stay transparent and watchpoints stay conserved |
| MatchpointServer.Server.Remove | ddr2/cores/adv_debug_sys/Software/adv_jtag_bridge/rsp-server.c:2680-2768 | a removal packet of any type: watchpoints stay conserved, and breakpoints stay transparent if and only if the word holds no other one |
| MatchpointServer.Server.Serve | ddr2/cores/adv_debug_sys/Software/adv_jtag_bridge/rsp-server.c:2680-2957 | over any sequence of insertion and removal packets, the linked table, memory, pool and registers go through exactly the two runs above; so word-aligned breakpoints stay transparent, and watchpoints are conserved when every insertion is allowed |
| MatchpointServer.Server.constructor | ddr2/cores/adv_debug_sys/Software/adv_jtag_bridge/hwp_server.c:117-142 | starts with the watchpoints accounted for that were not found present, and with no matchpoint |
| StallMonitor.ObeyedKeeps | ddr2/cores/adv_debug_sys/Software/adv_jtag_bridge/hardware_monitor.c:234-243 | a command, its write succeeding or not, tells every server the same and keeps their view consistent |
| StallMonitor.ObeyedSafe | ddr2/cores/adv_debug_sys/Software/adv_jtag_bridge/hardware_monitor.c:296-309 | a command leaves 'not running' meaning 'stalled' unless, exactly, a stall did not get through to a running CPU |
| StallMonitor.ServedFromKeeps | ddr2/cores/adv_debug_sys/Software/adv_jtag_bridge/hardware_monitor.c:223-254 | a pass over all ready connections, in which any of the control writes may fail, keeps consistency and, if none fails from there on, safety |
| StallMonitor.DroppedExact | ddr2/cores/adv_debug_sys/Software/adv_jtag_bridge/hardware_monitor.c:138-147 | moving the last connection into the vacated place drops exactly the one named |
| StallMonitor.UnregisteredKeeps | ddr2/cores/adv_debug_sys/Software/adv_jtag_bridge/hardware_monitor.c:115-158 | unregistering removes exactly the connection with those descriptors and keeps all others' histories |
| StallMonitor.RunKeeps | ddr2/cores/adv_debug_sys/Software/adv_jtag_bridge/hardware_monitor.c:172-289 | over any run of registrations, unregistrations, commands, polls, halts and reads, every server has been told exactly what was broadcast since it registered, in order, and the last broadcast agrees with target_is_running |
| StallMonitor.ReachableAgrees | ddr2/cores/adv_debug_sys/Software/adv_jtag_bridge/hardware_monitor.c:220-281 | in every reachable state, with control writes succeeding, a target taken to be stopped is stopped; and a server that has read something and has nothing left to read agrees with the monitor |
| StallMonitor.UnstallRuns | ddr2/cores/adv_debug_sys/Software/adv_jtag_bridge/hardware_monitor.c:239-243 | in any state, one after a failed write included, an unstall starts the CPU unless, exactly, it was taken to be running while it was stalled |
| StallMonitor.PollNotices | ddr2/cores/adv_debug_sys/Software/adv_jtag_bridge/hardware_monitor.c:264-281 | a CPU that halts by itself is noticed by the next poll, and every server is told once |
| StallMonitor.LeavingLosesNothing | ddr2/cores/adv_debug_sys/Software/adv_jtag_bridge/rsp-server.c:961-980 | unregistering a connection with commands in its pipe leaves the CPU as obeying them first would, if and only if there is no stall or unstall among them, or the last one asks for the state the CPU is in, or they are unstalls that would have had no effect |
| StallMonitor.LeavingLosesUnstall | ddr2/cores/adv_debug_sys/Software/adv_jtag_bridge/rsp-server.c:961-980 | a run of five steps where it does not: a client that stalls and restarts the CPU while closing leaves it stalled |
| StallMonitor.Monitor.Register | ddr2/cores/adv_debug_sys/Software/adv_jtag_bridge/hardware_monitor.c:82-113 | appends the new pipes, or returns 0 and changes nothing if and only if the monitor thread is not running or five servers are registered; it never returns a negative number |
| StallMonitor.Monitor.Unregister | ddr2/cores/adv_debug_sys/Software/adv_jtag_bridge/hardware_monitor.c:115-158 | the search and the reshuffling in the array do what the specification says; descriptors are invalidated only if found |
| StallMonitor.Monitor.NotifyListeners | ddr2/cores/adv_debug_sys/Software/adv_jtag_bridge/hardware_monitor.c:312-327 | the message reaches every registered server and the log |
| StallMonitor.Monitor.StallTarget | ddr2/cores/adv_debug_sys/Software/adv_jtag_bridge/hardware_monitor.c:296-309 | afterwards, 'not running' means 'stalled' if and only if the write succeeded, or it was an unstall, or the CPU was stalled already |
| StallMonitor.Monitor.ServeReady | ddr2/cores/adv_debug_sys/Software/adv_jtag_bridge/hardware_monitor.c:223-254 | the loop over the connections serves one command from each ready one, in order, whichever of their control writes fail |
| StallMonitor.Monitor.PollTarget | ddr2/cores/adv_debug_sys/Software/adv_jtag_bridge/hardware_monitor.c:264-281 | polls only a target taken to be running, and reports a halt |
| StallMonitor.ReceivedKeeps | ddr2/cores/adv_debug_sys/Software/adv_jtag_bridge/rsp-server.c:483-534 | reading a message, which sets the server's running flag, keeps the server's history and flag consistent with the broadcasts |
| SerialPort.Extended | ddr2/cores/adv_debug_sys/Software/adv_jtag_bridge/jsp_server.c:413-429 | a linear piece written where the queue ends appends to it, wherever the ring wraps |
| SerialPort.Ring.ReceiveAll | ddr2/cores/adv_debug_sys/Software/adv_jtag_bridge/jsp_server.c:406-453 | appends what two receive calls deliver, exactly as many bytes as they deliver and fit: all that has arrived or all there is room for when they deliver what they can, and at least one when the first delivers any |
| SerialPort.Ring.SendAll | ddr2/cores/adv_debug_sys/Software/adv_jtag_bridge/jsp_server.c:455-501 | takes from the front what two send calls accept, also from a ring that has overflowed, and empties one that has not when they accept everything |
| SerialPort.Ring.Peek | ddr2/cores/adv_debug_sys/Software/adv_jtag_bridge/jsp_server.c:519-524 | collects the oldest bytes, across the wrap |
| SerialPort.Ring.Queue | ddr2/cores/adv_debug_sys/Software/adv_jtag_bridge/jsp_server.c:541-546 | appends a byte while there is room; otherwise it replaces exactly the queued bytes that share its place, modulo 256 |
| SerialPort.Port.QueueDataFromClient | ddr2/cores/adv_debug_sys/Software/adv_jtag_bridge/jsp_server.c:406-453 | takes exactly as many bytes as the calls deliver and fit, so everything that has arrived up to the room there is, and accepted bytes followed by queued bytes remain the bytes received from the client, in order, whatever the inbound ring holds |
| SerialPort.Port.SendDataToClient | ddr2/cores/adv_debug_sys/Software/adv_jtag_bridge/jsp_server.c:455-501 | sent bytes followed by queued bytes remain the bytes received from the hardware, and everything is sent when the client accepts it; after an overflow, each byte sent is the last that was put in its place |
| SerialPort.Port.HardwareTransact | ddr2/cores/adv_debug_sys/Software/adv_jtag_bridge/jsp_server.c:504-550 | offers the oldest bytes, up to eight; in any state the outbound order survives and the indices stay consistent, and an intact inbound direction stays intact if and only if what arrives fits |
| SerialPort.Port.Accept | ddr2/cores/adv_debug_sys/Software/adv_jtag_bridge/jsp_server.c:256-262 | a new client finds both rings empty, which ends an overflow |
| SerialPort.Port.IntactIff | ddr2/cores/adv_debug_sys/Software/adv_jtag_bridge/jsp_server.c:455-550 | whatever has overflowed before, the inbound direction is in order if and only if the ring has room and the client was sent no wrong byte |
| SerialPort.Port.Healed | ddr2/cores/adv_debug_sys/Software/adv_jtag_bridge/jsp_server.c:455-550 | as soon as at most 256 bytes are queued again, every queued byte is right: an overflow spoils only what is sent during it |
| SerialPort.Port.Serve | ddr2/cores/adv_debug_sys/Software/adv_jtag_bridge/jsp_server.c:247-353 | over any interleaving of receiving, sending, exchanging and new clients, with any failures: exactly the bytes that the calls deliver and the rings have room for are taken in, the outbound order always survives, as many inbound bytes are sent or queued as arrived, and the inbound order survives as long as no exchange since the last new client goes beyond 256 queued bytes, and is broken by the first that does |
| Ft2232.OpcodesUnderstood | ddr2/cores/adv_debug_sys/Software/adv_jtag_bridge/cable_ft2232.c:581-650 | the opcodes combined from the driver's flags are the chip's 0x19, 0x1b and 0x4b, with the bit for reading on request |
| Ft2232.ParseAppend | ddr2/cores/adv_debug_sys/Software/adv_jtag_bridge/cable_ft2232.c:372-383 | whole commands in the send buffer are understood one after the other |
| Ft2232.BytesUnderstood | ddr2/cores/adv_debug_sys/Software/adv_jtag_bridge/cable_ft2232.c:583-606 | the chip understands a byte command with its 16-bit length as clocking exactly its bits, least significant first, with TMS low |
| Ft2232.BitsUnderstood | ddr2/cores/adv_debug_sys/Software/adv_jtag_bridge/cable_ft2232.c:639-672 | the same for a bit command of up to eight bits |
| Ft2232.TmsUnderstood | ddr2/cores/adv_debug_sys/Software/adv_jtag_bridge/cable_ft2232.c:643-676 | a TMS command clocks one bit with TMS high |
| Ft2232.Cable.Flush | ddr2/cores/adv_debug_sys/Software/adv_jtag_bridge/cable_ft2232.c:263-311 | sends what is buffered and reads as many octets as were scheduled, which is as many as the chip returns; what is to come does not change |
| Ft2232.Cable.Write | ddr2/cores/adv_debug_sys/Software/adv_jtag_bridge/cable_ft2232.c:352-397 | buffers a command, flushing first if a limit is reached, so that commands and replies stay in order |
| Ft2232.Cable.WriteBytes | ddr2/cores/adv_debug_sys/Software/adv_jtag_bridge/cable_ft2232.c:566-621 | chunks of at most 65536 bytes clock the same bits, and return the same octets, as one stream |
| Ft2232.Cable.WriteBits | ddr2/cores/adv_debug_sys/Software/adv_jtag_bridge/cable_ft2232.c:623-692 | chunks of eight bits, or single bits with TMS high, clock the same bits as one stream |
| Ft2232.Cable.WriteStream | ddr2/cores/adv_debug_sys/Software/adv_jtag_bridge/cable_ft2232.c:751-775 | bytes, leftover bits and the last bit together clock exactly the first len bits in order, TMS high on the last one only if asked |
| Ft2232.Cable.Read | ddr2/cores/adv_debug_sys/Software/adv_jtag_bridge/cable_ft2232.c:313-350 | returns the oldest octets that have come back, in order, after sending what is buffered; asked for more than are coming, the driver is left waiting, if and only if so, with all of them taken |
| Ft2232.Cable.ReadPackedBits | ddr2/cores/adv_debug_sys/Software/adv_jtag_bridge/cable_ft2232.c:694-749 | for any packets and any offset: puts the samples that arrive at that bit of the buffer, whole octets in the octet it is in, and preserves every other bit; refuses more than eight samples an octet after reading them |
| Ft2232.SamplesInPlace | ddr2/cores/adv_debug_sys/Software/adv_jtag_bridge/cable_ft2232.c:722-735 | the buffer then holds every sample if and only if no sample that is set would have to move to a lower bit of an octet, for which the code shifts by a negative count |
| Ft2232.OnePacketArrives | ddr2/cores/adv_debug_sys/Software/adv_jtag_bridge/cable_ft2232.c:722-735 | for one packet that is so for any samples if and only if they stay within one octet; reading a stream always satisfies that |
| Ft2232.Cable.ReadStream | ddr2/cores/adv_debug_sys/Software/adv_jtag_bridge/cable_ft2232.c:777-798 | given the replies to a stream, writes exactly its samples to bits 0 to len-1 of the buffer, preserves the rest, and consumes exactly those octets |
| Ft2232.Cable.CableWriteStream | ddr2/cores/adv_debug_sys/Software/adv_jtag_bridge/cable_ft2232.c:750-775 | the driver meets the contract of the bit-banging write: same clocks, same words, same last bit |
| Ft2232.Cable.CableReadWriteStream | ddr2/cores/adv_debug_sys/Software/adv_jtag_bridge/cable_ft2232.c:751-798 | the driver clocks the same bits and returns the same samples as bit-banging, in the low len bits of the buffer |
| Ft2232.Cable.WriteBit | ddr2/cores/adv_debug_sys/Software/adv_jtag_bridge/cable_ft2232.c:751-775 | one clock with the given levels on TMS and TDI |
| DramArray.Pass.NextBlock | uController/dram_heatmap/overlappedBits.c:78-91 | each block writes the next word, row by row, until all are written, with zeros in odd rows and ones in even ones |
| DramArray.Pass.NextRead | uController/dram_heatmap/overlappedBits.c:144-149 | the reading cursor follows the words in the same order |
| DramArray.Pass.Spacing | uController/dram_heatmap/overlappedBits.c:51-91 | each word is read start - 1 blocks after it is written, and between start - 256 and start - 1 blocks after the last write to any word of its row |
| DelayMap.StartBlock | uController/dram_heatmap/overlappedBits.c:50-54 | the delay in seconds, in whole blocks of 850 microseconds, rounded down, and a row of blocks more; the 32-bit arithmetic does not overflow |
| DelayMap.TestWord | uController/dram_heatmap/overlappedBits.c:108-133 | the combined mask, written to flash, changes exactly the bytes of bits that failed and had no result, to half the delay |
| DelayMap.Sweep | uController/dram_heatmap/overlappedBits.c:56-152 | one sweep reads every word when its row has been left alone for the delay, at most a block too short and less than 256 blocks too long, tests it once, and updates the results of every word that has room in flash, and no others |
| DelayMap.RecordedIsFirst | uController/dram_heatmap/overlappedBits.c:117-137 | what remains recorded for a bit is the first delay at which it failed |
| DelayMap.FirstFailure | uController/dram_heatmap/overlappedBits.c:50-153 | a byte of the finished map is all ones if and only if the bit never failed, and half of a delay if and only if that is the first delay at which it failed |
| DelayMap.MeasureAll | uController/dram_heatmap/overlappedBits.c:50-153 | from erased flash and for any values read in any sweep, the flash at the end is that map, although flash bits can only be cleared; the 225 sweeps wait 2, 4, up to 450 seconds |
| DelaySearch.MiddleInside | uController/dram_bst/main.cpp:71-71 | each round's delay is strictly between the bounds, and narrowing to it leaves at most half the gap and one |
| DelaySearch.SixteenAtMost | uController/dram_bst/main.cpp:62-168 | for any counts, at most sixteen measurements are made |
| DelaySearch.SearchIsHonest | uController/dram_bst/main.cpp:143-148 | a delay is reported if and only if the last measurement was within the margin; no earlier one was |
| DelaySearch.BoundsAreMeasured | uController/dram_bst/main.cpp:150-167 | a bound that has moved was measured, on its own side of the target and outside the margin; a failed search leaves a gap of at most two |
| DelaySearch.TargetStaysBracketed | uController/dram_bst/main.cpp:150-167 | a target between the counts at the first bounds stays between the counts at the last ones |
| DelaySearch.FindsExactlyTheReached | uController/dram_bst/main.cpp:62-168 | when bits only decay, a delay is found if and only if some delay within the margin is one that halving from the first bounds can reach, which depends on that delay alone |
| DelaySearch.TwoIsMissed | uController/dram_bst/main.cpp:162-167 | delay 2 cannot be reached: decaying counts for which the search fails although a delay is within the margin |
| DelaySearch.StartBlock | uController/dram_bst/main.cpp:72 | the delay in hundredths of a second, in whole blocks of 700 microseconds, rounded down, and a row of blocks more, in 32 bits |
| DelaySearch.NearIsShare | uController/dram_bst/main.cpp:20-24 | a count is within the margin if and only if the share of unflipped bits is 99%, up to a hundredth of a per cent, but for the one count of 259548 |
| DelaySearch.Measure | uController/dram_bst/main.cpp:64-136 | one pass reads every word when its row has been left alone for the delay, at most a block too short and less than 256 blocks too long, and counts exactly the bits that still read as written, in every word once |
| DelaySearch.FindDelay | uController/dram_bst/main.cpp:57-168 | the firmware's loop, in its 16-bit arithmetic, which never wraps, is that search on the memory's counts; flash holds each measurement, and the last one twice |

## Left out

- Communication errors inside a scan: the scan functions are modelled on a cable that delivers, and errors reported by the cable appear only in burst reads, where they end the read.
- Soft retries: `NUM_SOFT_RETRIES` is 0, so `retry_do` always gives up and `retry_ok` resets a counter that is never raised.
- Xilinx BSCAN handling, `ADBG_OPT_HISPEED`, bursts of the CPU modules, and burst writes.
- BurstRead.Read: what happens once the index is outside the buffer; the model's read ends there, with the status `Astray`. Word counts are below 65536, the range of the burst command's field, and the words within the 32-bit address space. Word sizes are 1, 2 and 4, the others being reported and treated as 4 in part of the function only.
- DebugCommands.Debugger.SelectCtrlReg: register indices that fit the 1-bit field; larger ones would spill into the opcode. The same goes for CtrlWrite and CtrlRead.
- DebugCommands.Debugger.CtrlRead: at most 128 bits, the size of the array the source fills.
- DebugCommands.Debugger.BurstTransfer: counts from 1 to 65535, the range in which `BurstCommandDecodes` holds.
- DebugCommands.Debugger.TapReset: from Run-Test/Idle; from some other states the walk to Test-Logic-Reset passes Update-DR, where the unit obeys whatever is in its command register.
- Streams of no bits at all, for which the cable functions still clock a last bit.
- The welcome text of the serial port server, which does not go through the rings.
- The serial port module of the debug unit: its commands are not decoded, and an exchange with it is one step.
- BSDL files: the instruction register sizes and opcodes are parameters.
- Growth of the enumeration result by reallocation, and all allocation failures.
- The parsing of matchpoint packets, whose malformed forms are answered with E01 without any change.
- Breakpoint writes and reads that fail on the bus, which the code ignores; other programs that write memory.
- Concurrent access outside the monitor's mutex, and a read that blocks because a new pipe got the descriptor number of an old one.
- Failure of `pipe`, after which the code returns with the mutex held.
- Signals, exceptions and single steps reported to GDB after a halt.
- USB reads that deliver some but not all octets asked for, and the initialisation of the FT2232.
- Timer behaviour of the measurement programs: one block is one step, of the nominal 850 or 700 microseconds, although the programs wait until the counter exceeds that. The analogue behaviour of memory is any function of delay and word.
- Flash addresses of the search's log, and results for memory beyond the flash segment.
