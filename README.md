# SPC700 sound CPU and SMP memory router, modelled in Dafny

This project models the core of `snes_spc`, an emulator of the SNES sound
module. The core is the SPC700 CPU interpreter and the SMP side around it, in
`snes_spc/SNES_SPC.cpp`, plus the byte-order helpers of `snes_spc/spc_common.h`.

The model covers these parts:

- **Timers.** The three SMP timers, with their prescaler, 8-bit divider and
  4-bit output counter, are caught up lazily to a relative time.
- **Memory router.** A CPU read or write at any address goes to one of:
  - RAM;
  - the SMP registers $F0-$FF (control, DSP address and data, the four I/O
    ports, timer targets and outputs);
  - the 64-byte IPL ROM that can be shown over $FFC0-$FFFF;
  - the page-0 copy of an address that ran past $FFFF.

  The DSP is not modelled. It is seen as a log of the calls made to it: run
  for so many clocks, read a register, write a register.
- **Registers.** The CPU registers are loaded and saved with the status word
  packed and unpacked (`GET_PSW`, `SET_PSW`). The stack lives in page 1 and
  wraps within it.
- **Opcodes.** All 256 opcodes of the interpreter loop are modelled, grouped
  as in the source:
  - 8-bit moves;
  - ALU operations, compares, shifts, INC and DEC;
  - 16-bit word operations, MUL, DIV, DAA and DAS;
  - branches, calls, returns and stack operations;
  - one-bit operations and flag operations;
  - STOP and SLEEP.
- **Main loop.** `run_until_` runs against a cycle table, and `end_frame`
  rebases time at the end of a frame.
- **Byte order.** The little- and big-endian 16- and 32-bit loads and stores
  of `spc_common.h`.

The code is pure where the source is pure and imperative where the source
changes state:

- The SMP state is a datatype (`Smp.State`), and each router operation is a
  function on it.
- The emulator object is a class (`Machine.Spc`) holding arrays for RAM, the
  registers, `hi_ram` and the timers. Each method of the class is proved to
  leave the object in the state that the matching `Smp` function computes.
- The instruction handlers are methods on that object. Each one is proved
  against the functions of the arithmetic modules, and those functions are in
  turn proved against independent definitions:
  - integer sums and differences;
  - decimal digits;
  - 16-bit words;
  - bit-by-bit meanings.

Integers are unbounded, so every C truncation (`uint8_t`, `uint16_t`, `& 0xFF`)
is written out. The `nz` flag cache (a plain `int`, not a byte: it may hold a
9-bit sum, a negative difference, or a 16-bit result with its low byte folded
into bits 0-6; N is its bit 7 or bit 11, Z a zero low byte), the `c` carry cache (C is its bit 8) and the `dp` direct-page offset are
kept as the source keeps them. The status word is
proved to be what they encode.

The emulator's fields map to the model as follows:

- `m.ram.ram` is the 64 KiB RAM plus the padding bytes the source keeps after
  it, so that an operand read near $FFFF stays in bounds.
- `REGS` and `REGS_IN` are the written and read views of $F0-$FF.
- `m.cycle_table` and the ROM image are given as parameters.
- The DSP's answers to reads are given as a function of the call log.

## Model

| member | source | states |
|---|---|---|
| Bytes.Byte | snes_spc/SNES_SPC.cpp:418 | the byte that C's `uint8_t` cast keeps: congruent to the input mod 256, and the input itself when it already fits |
| Bytes.GetLe16 | snes_spc/spc_common.h:6-10 | the 16-bit value whose low byte is `p[0]` and high byte is `p[1]` |
| Bytes.GetBe16 | snes_spc/spc_common.h:11-15 | the 16-bit value whose low byte is `p[1]` and high byte is `p[0]` |
| Bytes.GetLe32 | snes_spc/spc_common.h:16-22 | the 32-bit value whose bytes, from least significant, are `p[0]`..`p[3]` |
| Bytes.GetBe32 | snes_spc/spc_common.h:23-29 | the 32-bit value whose bytes, from least significant, are `p[3]`..`p[0]` |
| Bytes.BeIsSwappedLe | snes_spc/spc_common.h:6-15 | a big-endian read is the little-endian read with its two bytes swapped, both ways round |
| Bytes.SetLe16 | snes_spc/spc_common.h:30-34 | stores the high byte at `p[1]` first, then the low byte at `p[0]`, changes nothing else, and `GetLe16` reads back the value mod 2^16 |
| Bytes.SetBe16 | snes_spc/spc_common.h:35-39 | stores the high byte, then the low byte, changes nothing else, and `GetBe16` reads back the value mod 2^16 |
| Bytes.SetLe32 | snes_spc/spc_common.h:40-46 | stores four bytes from least significant, changes nothing else, and `GetLe32` reads the value back |
| Bytes.SetBe32 | snes_spc/spc_common.h:47-53 | stores the four bytes from the least significant at `p[3]` down to the most significant at `p[0]`, changes nothing else, and `GetBe32` reads the value back |
| Timers.IfZeroThen256 | snes_spc/SNES_SPC.cpp:27 | a period of 1..256 congruent to the byte, where 0 means 256 |
| Timers.Ticks | snes_spc/SNES_SPC.cpp:50-69 | the reference: one prescaled tick at a time, the divider counts up and wraps to 0 on reaching the period, and the counter counts those wraps mod 16 |
| Timers.Remain | snes_spc/SNES_SPC.cpp:58 | the ticks (1..256) until the divider next reaches the period, with a divider past the period wrapping through 255 |
| Timers.RemainIsFirst | snes_spc/SNES_SPC.cpp:58 | no tick before `Remain` reaches the period |
| Timers.BatchedMatchesTicks | snes_spc/SNES_SPC.cpp:58-66 | the batched arithmetic of `run_timer_` equals stepping the reference tick by tick |
| Timers.WrapMatchesTicks | snes_spc/SNES_SPC.cpp:58-66 | when the target is not reached the divider just advances mod 256 |
| Timers.Batched | snes_spc/SNES_SPC.cpp:56-66 | the divider and counter that `run_timer_` computes are those of `Ticks` |
| Timers.Elapsed | snes_spc/SNES_SPC.cpp:52-54 | the least number of prescaler periods that carries `next_time` past `time` |
| Timers.CatchUp | snes_spc/SNES_SPC.cpp:50-69 | `next_time` moves past `time` by whole periods; an enabled timer advances by `Ticks`, a disabled one keeps its divider and counter |
| Timers.RunTimer | snes_spc/SNES_SPC.cpp:71-76 | afterwards `next_time > time`; a timer not yet due is returned unchanged |
| Timers.SecondReadIsZero | snes_spc/SNES_SPC.cpp:481-489 | after a read clears the counter, catching up to the same time again leaves it 0 |
| Psw.GetPsw | snes_spc/SNES_SPC.cpp:693-700 | N from `nz` bit 7 or bit 11, Z from a zero low byte, C from `c` bit 8, P from `dp`, and V, B, H, I kept from `psw` |
| Psw.NzFor | snes_spc/SNES_SPC.cpp:702-708 | an `nz` value that shows exactly the given N and Z |
| Psw.SetPsw | snes_spc/SNES_SPC.cpp:702-708 | the caches read back the status byte: C from bit 0, `dp` from bit 5, N and Z from bits 7 and 1 |
| Psw.PswRoundTrip | snes_spc/SNES_SPC.cpp:693-708 | packing after unpacking gives back the status byte |
| Psw.RepackStable | snes_spc/SNES_SPC.cpp:693-708 | unpacking a packed status and packing again is the same status |
| Stack.GetSp | snes_spc/SNES_SPC.cpp:626-627 | a pointer is a valid stack pointer exactly when the SP it stands for is a byte |
| Stack.SetSp | snes_spc/SNES_SPC.cpp:626-627 | the cached pointer reads back the stack byte |
| Stack.Push | snes_spc/SNES_SPC.cpp:650-655 | the byte lands at $100+SP, SP decreases with page-1 wrap, and every other byte is kept |
| Stack.Pop | snes_spc/SNES_SPC.cpp:657-665 | SP increases with wrap and the byte at the new $100+SP is returned |
| Stack.PushThenPop | snes_spc/SNES_SPC.cpp:650-665 | a pop after a push returns the byte and the pointer |
| Stack.PushAllFrame | snes_spc/SNES_SPC.cpp:635-655 | pushing n bytes lowers SP by n mod 256 and leaves the bytes above the old SP alone |
| Stack.PushAllThenPopAll | snes_spc/SNES_SPC.cpp:635-665 | popping n bytes after pushing them returns them in reverse order |
| Stack.Push16 | snes_spc/SNES_SPC.cpp:635-648 | a word pushed high byte first, with wrap |
| Stack.Pop16 | snes_spc/SNES_SPC.cpp:657-665 | two pops, low byte first, forming a word |
| Stack.Push16ThenPop16 | snes_spc/SNES_SPC.cpp:635-665 | popping a word after pushing it returns it mod 2^16 |
| Stack.PushByte | snes_spc/SNES_SPC.cpp:650-655 | the RAM array after a push is the stack `Push` gives |
| Stack.PopByte | snes_spc/SNES_SPC.cpp:657-665 | the byte and pointer are those of `Pop` |
| Stack.PushWord | snes_spc/SNES_SPC.cpp:635-648 | the RAM array after a word push is the stack `Push16` gives |
| Stack.PopWord | snes_spc/SNES_SPC.cpp:657-665 | the word and pointer are those of `Pop16` |
| Stack.ReturnFromInterrupt | snes_spc/SNES_SPC.cpp:1547-1551 | pops the status and then a word, with page-1 wrap (corrected) |
| Stack.BreakThenReturn | snes_spc/SNES_SPC.cpp:1502-1512 | a return from interrupt after pushing a word and a status gives both back, with the pointer restored |
| Stack.ReturnFromInterruptOn | snes_spc/SNES_SPC.cpp:1547-1551 | the array form returns what `ReturnFromInterrupt` does |
| Stack.ReturnFromInterruptAsWritten | snes_spc/SNES_SPC.cpp:1547-1551 | as written: SP moves up by 3 without the page wrap |
| Stack.BreakFromBottomWraps | snes_spc/SNES_SPC.cpp:1502-1512 | BRK with SP = 0 leaves SP = $FD |
| Stack.ReturnAsWrittenLeavesPage | snes_spc/SNES_SPC.cpp:1547-1551 | from SP = $FD the corrected return gives SP = 0, while the code as written gives offset $201, outside page 1 |
| Smp.Visible | snes_spc/SNES_SPC.cpp:81-91 | the 64 bytes that the ROM area shows |
| Smp.Overlay | snes_spc/SNES_SPC.cpp:88 | RAM with the block copied over $FFC0-$FFFF and everything else kept |
| Smp.EnableRom | snes_spc/SNES_SPC.cpp:81-91 | no change when the setting is kept; showing saves the RAM under the ROM to `hi_ram` and shows the ROM; hiding shows `hi_ram`; RAM outside the area, the registers, the timers and the DSP are kept |
| Smp.EnableThenDisableRom | snes_spc/SNES_SPC.cpp:81-91 | showing then hiding the ROM gives back the same RAM |
| Smp.RunTimerAt | snes_spc/SNES_SPC.cpp:71-76 | only timer i changes, to `Timers.RunTimer` |
| Smp.RunDsp | snes_spc/SNES_SPC.cpp:129-138 | the DSP is run for the clocks since `dsp_time`, and `dsp_time` becomes the time |
| Smp.DspWrite | snes_spc/SNES_SPC.cpp:154-180 | after the run call, one register write is logged when $F2 is at most $7F; nothing else changes |
| Smp.DspRead | snes_spc/SNES_SPC.cpp:141-152 | runs the DSP, then reads register `$F2 & $7F`; only the DSP side changes |
| Smp.Unsigned | snes_spc/SNES_SPC.cpp:581-601 | the `(unsigned)` view of a 32-bit int |
| Smp.WriteTarget | snes_spc/SNES_SPC.cpp:290-328 | only the timers change; the timer's period becomes the data (0 meaning 256); a new period first runs the timer up to the write time (`Timers.RunTimer`), an unchanged one changes nothing |
| Smp.WriteOut | snes_spc/SNES_SPC.cpp:330-338 | only the timers change; a read-before-write runs the timer up to one cycle before the write (`Timers.RunTimer`) and clears its counter; a write without it changes nothing |
| Smp.ControlTimer | snes_spc/SNES_SPC.cpp:366-379 | the timer ends up enabled exactly when asked; unchanged when already so; otherwise it is first run up to the write time (`Timers.RunTimer`), and enabling then clears its divider and counter |
| Smp.ControlTimers | snes_spc/SNES_SPC.cpp:365-381 | three valid timers |
| Smp.WriteControl | snes_spc/SNES_SPC.cpp:351-383 | a valid state (meaning in `SmpLaws.ControlWrite`) |
| Smp.WriteSmpRegOther | snes_spc/SNES_SPC.cpp:286-385 | a valid state (meaning in the `SmpLaws` rows) |
| Smp.WriteSmpReg | snes_spc/SNES_SPC.cpp:387-393 | a valid state (meaning in the `SmpLaws` rows) |
| Smp.Write | snes_spc/SNES_SPC.cpp:413-448 | a valid state (meaning in the `SmpLaws` rows) |
| Smp.WriteHigh | snes_spc/SNES_SPC.cpp:395-409 | a valid state (meaning in `SmpLaws.WriteUnderRom` and `SmpLaws.WrappedWrite`) |
| Smp.ReadSmpReg | snes_spc/SNES_SPC.cpp:453-465 | a byte and a valid state |
| Smp.Read | snes_spc/SNES_SPC.cpp:467-504 | a byte and a valid state (meaning in the `SmpLaws` rows) |
| SmpLaws.SmpRegFrame | snes_spc/SNES_SPC.cpp:286-393 | the side effects of $F0-$FF keep `REGS` and the RAM below the ROM and past $FFFF |
| SmpLaws.WriteStoresByte | snes_spc/SNES_SPC.cpp:418-425 | a write below the ROM stores the byte in RAM, and for $F0-$FF in `REGS` too |
| SmpLaws.PlainRegisterWrite | snes_spc/SNES_SPC.cpp:418-438 | a write to $F2 or $F4-$F7 only stores the byte |
| SmpLaws.DspDataWrite | snes_spc/SNES_SPC.cpp:154-180 | a write to $F3 logs the DSP run and, when $F2 is at most $7F, the register write |
| SmpLaws.WriteUnderRom | snes_spc/SNES_SPC.cpp:397-402 | a write under the ROM goes to `hi_ram`; RAM shows it only while the ROM is hidden |
| SmpLaws.WrappedWrite | snes_spc/SNES_SPC.cpp:403-407 | a write past $FFFF puts the padding back and writes the page-0 address |
| SmpLaws.TargetWrite | snes_spc/SNES_SPC.cpp:290-328 | $FA-$FC set the timer period (0 meaning 256), after running the timer up to the write time when the period changes, and nothing changes when the period is kept |
| SmpLaws.OutWrite | snes_spc/SNES_SPC.cpp:330-338 | $FD-$FF run the timer up to one cycle before the write (`Timers.RunTimer`) and clear its counter, except a write without read-before-write, which changes nothing |
| SmpLaws.ControlTimersEach | snes_spc/SNES_SPC.cpp:365-381 | each timer is handled by its own control bit |
| SmpLaws.ControlWrite | snes_spc/SNES_SPC.cpp:351-383 | $F1 bits 4 and 5 clear the input ports; bit k enables timer k, first running a timer whose state changes up to the write time (`Timers.RunTimer`), and restarting it only from disabled; bit 7 sets the ROM |
| SmpLaws.ReadRam | snes_spc/SNES_SPC.cpp:467-504 | a read outside $F0-$FF and below $10000 returns the RAM byte and changes nothing |
| SmpLaws.ReadRegister | snes_spc/SNES_SPC.cpp:453-465 | $F2 reads `REGS`, and the other registers below the timers read `REGS_IN` |
| SmpLaws.ReadDspData | snes_spc/SNES_SPC.cpp:141-152 | $F3 returns the DSP's answer for register `$F2 & $7F` after the run |
| SmpLaws.TimerRead | snes_spc/SNES_SPC.cpp:481-489 | $FD-$FF return the caught-up 4-bit counter and clear it |
| SmpLaws.SecondTimerRead | snes_spc/SNES_SPC.cpp:481-489 | a second read at the same time gives 0 |
| SmpLaws.WrappedRead | snes_spc/SNES_SPC.cpp:494-498 | a read past $FFFF is the page-0 read |
| SmpLaws.ReadKeepsMemory | snes_spc/SNES_SPC.cpp:467-504 | no read changes RAM, `REGS`, `REGS_IN`, `hi_ram` or the ROM setting |
| SmpLaws.WriteThenReadRam | snes_spc/SNES_SPC.cpp:413-504 | plain RAM reads back what was written |
| SmpLaws.WriteThenReadPort | snes_spc/SNES_SPC.cpp:341-344 | $F8 and $F9 read back what was written |
| SmpLaws.WriteKeepsPadding | snes_spc/SNES_SPC.cpp:395-409 | the padding past $FFFF survives every write |
| Machine.Spc.constructor | snes_spc/SNES_SPC.cpp:413-504 | a valid emulator object with the given ROM, padding and DSP |
| Machine.Spc.SaveVisible | snes_spc/SNES_SPC.cpp:86-87 | `hi_ram` becomes the RAM under the ROM |
| Machine.Spc.Show | snes_spc/SNES_SPC.cpp:88 | the array becomes `Smp.Overlay` of the block |
| Machine.Spc.EnableRom | snes_spc/SNES_SPC.cpp:81-91 | the object becomes `Smp.EnableRom` of its old state |
| Machine.Spc.SaveCpu | snes_spc/SNES_SPC.cpp:1747-1761 | stores the CPU registers and `spc_time` and changes nothing else |
| Machine.Spc.RunTimer | snes_spc/SNES_SPC.cpp:71-76 | the object becomes `Smp.RunTimerAt` |
| Machine.Spc.RunDsp | snes_spc/SNES_SPC.cpp:129-138 | the object becomes `Smp.RunDsp` |
| Machine.Spc.Rebase | snes_spc/SNES_SPC.cpp:513-527 | moves every timer's `next_time` and `dsp_time` by the same amount and keeps memory |
| Machine.Spc.DspWrite | snes_spc/SNES_SPC.cpp:154-180 | the object becomes `Smp.DspWrite` |
| Machine.Spc.DspRead | snes_spc/SNES_SPC.cpp:141-152 | value and object are `Smp.DspRead` |
| Machine.Spc.ControlTimers | snes_spc/SNES_SPC.cpp:365-381 | the timers become `Smp.ControlTimers` |
| Machine.Spc.WriteControl | snes_spc/SNES_SPC.cpp:351-383 | the object becomes `Smp.WriteControl` |
| Machine.Spc.WriteSmpRegOther | snes_spc/SNES_SPC.cpp:286-385 | the object becomes `Smp.WriteSmpRegOther` |
| Machine.Spc.WriteSmpReg | snes_spc/SNES_SPC.cpp:387-393 | the object becomes `Smp.WriteSmpReg` |
| Machine.Spc.Write | snes_spc/SNES_SPC.cpp:413-448 | the object becomes `Smp.Write` |
| Machine.Spc.WriteHigh | snes_spc/SNES_SPC.cpp:395-409 | the object becomes `Smp.WriteHigh` |
| Machine.Spc.ReadSmpReg | snes_spc/SNES_SPC.cpp:453-465 | value and object are `Smp.ReadSmpReg` |
| Machine.Spc.Read | snes_spc/SNES_SPC.cpp:467-504 | value and object are `Smp.Read` |
| Cpu.Fetch | snes_spc/SNES_SPC.cpp:741 | the opcode byte, which is STOP ($FF) past the end of memory |
| Cpu.FetchOutsideMemory | snes_spc/SNES_SPC.cpp:741 | in the padding past $FFFF the fetched byte is STOP |
| Cpu.LoadRegs | snes_spc/SNES_SPC.cpp:712-727 | the working registers hold the saved ones, with the status unpacked |
| Cpu.SaveRegs | snes_spc/SNES_SPC.cpp:1747-1761 | pc mod 2^16, the stack byte, and the packed status |
| Cpu.SaveAfterLoad | snes_spc/SNES_SPC.cpp:712-727 | saving freshly loaded registers gives them back |
| Cpu.ReadProg16 | snes_spc/SNES_SPC.cpp:616 | the little-endian word at the address |
| Cpu.ModeOperand | snes_spc/SNES_SPC.cpp:878-910 | each addressing mode's address, within the direct page for the dp modes, and how far pc advances |
| Cpu.ReadTimer | snes_spc/SNES_SPC.cpp:581-601 | a byte and a valid state |
| Cpu.ReadTimerIsRead | snes_spc/SNES_SPC.cpp:581-601 | the timer shortcut equals the general read |
| Cpu.WriteDirect | snes_spc/SNES_SPC.cpp:830-847 | a valid state |
| Cpu.WriteDirectA | snes_spc/SNES_SPC.cpp:855-868 | a valid state |
| Cpu.WriteDirectIsWrite | snes_spc/SNES_SPC.cpp:830-847 | the direct-page shortcut equals the general write |
| Cpu.WriteDirectAIsWrite | snes_spc/SNES_SPC.cpp:855-868 | the MOV dp,A shortcut equals the general write |
| Cpu.WithBit | snes_spc/SNES_SPC.cpp:1684-1716 | bit k set to b, all other bits kept |
| BitOps.Wrap32 | snes_spc/SNES_SPC.cpp:437 | the 32-bit int congruent to the value |
| BitOps.RunsRegisterWrite | snes_spc/SNES_SPC.cpp:434-438 | the shifted-mask selector of `cpu_write` (no contract of its own; its meaning is `BitOps.SelectorPicksRegisters`) |
| BitOps.SelectorPicksRegisters | snes_spc/SNES_SPC.cpp:434-438 | the write selector runs `cpu_write_smp_reg` exactly for registers other than $F2 and $F4-$F7 |
| BitOps.BitAddress | snes_spc/SNES_SPC.cpp:669-676 | the low 13 bits of the operand |
| BitOps.BitNumber | snes_spc/SNES_SPC.cpp:669-676 | the top 3 bits, which together with the address rebuild the operand |
| BitOps.MemBit | snes_spc/SNES_SPC.cpp:669-676 | $100 exactly when the bit is set |
| BitOps.CarryLogic | snes_spc/SNES_SPC.cpp:1631-1654 | AND, OR and XOR of the caches act on C as the boolean operators |
| BitOps.SetClear1 | snes_spc/SNES_SPC.cpp:1592-1615 | SET1 sets and CLR1 clears bit `op >> 5` of the byte |
| BitOps.SetClear1Bits | snes_spc/SNES_SPC.cpp:1592-1615 | SET1 or CLR1 changes only bit `op >> 5` |
| BitOps.TestSet1 | snes_spc/SNES_SPC.cpp:1617-1629 | every bit of A is set (TSET1) or cleared (TCLR1) in the result |
| BitOps.TestSet1Bits | snes_spc/SNES_SPC.cpp:1617-1629 | the bits of A are set (TSET1) or cleared (TCLR1) and the others kept |
| BitOps.TestSet1Idempotent | snes_spc/SNES_SPC.cpp:1617-1629 | applying it twice is applying it once |
| BitOps.FlipBit | snes_spc/SNES_SPC.cpp:1656-1664 | NOT1 inverts the addressed bit |
| BitOps.FlipBitBits | snes_spc/SNES_SPC.cpp:1656-1664 | NOT1 flips exactly the one bit |
| BitOps.FlipBitTwice | snes_spc/SNES_SPC.cpp:1656-1664 | flipping twice restores the byte |
| BitOps.CarryValue | snes_spc/SNES_SPC.cpp:1666-1675 | C as 0 or 1 |
| BitOps.PutBit | snes_spc/SNES_SPC.cpp:1666-1675 | MOV1 mem.bit,C makes the addressed bit equal to C |
| BitOps.PutBitBits | snes_spc/SNES_SPC.cpp:1666-1675 | MOV1 mem.bit,C puts C in the bit and keeps the others |
| BitOps.PutBitThenMemBit | snes_spc/SNES_SPC.cpp:1666-1680 | reading the bit back gives C |
| BitOps.MemBitThenPutBit | snes_spc/SNES_SPC.cpp:1666-1680 | storing the bit just read leaves the byte unchanged |
| Adder.XorSum | snes_spc/SNES_SPC.cpp:1151-1153 | `x ^ y ^ sum` is the carry into each bit position |
| Adder.CarryBit | snes_spc/SNES_SPC.cpp:1151-1153 | bit k of the carries is whether the low k bits overflow |
| Adder.Signed8 | snes_spc/SNES_SPC.cpp:1157 | the signed byte congruent to the value |
| Adder.SignedOverflow | snes_spc/SNES_SPC.cpp:1157 | the carries into and out of bit 7 differ exactly when the signed sum overflows |
| Adder.HalfCarryFlag | snes_spc/SNES_SPC.cpp:1156 | bit 4 of `x ^ y ^ sum` is the carry out of the low nibble |
| Adder.CarryIntoSign | snes_spc/SNES_SPC.cpp:1157 | bit 7 of it is the carry into bit 7 |
| Adder.CarryOutOfSign | snes_spc/SNES_SPC.cpp:1157 | bit 8 of it is the carry out of bit 7 |
| Adder.OverflowFlag | snes_spc/SNES_SPC.cpp:1157 | the V formula is signed overflow |
| Alu.WithVH | snes_spc/SNES_SPC.cpp:1155-1157 | V and H set as given, all other status bits kept |
| Alu.AddWithCarry | snes_spc/SNES_SPC.cpp:1146-1166 | ADC: the sum with carry, C on an unsigned overflow, H on a nibble carry, V on a signed overflow |
| Alu.Complement | snes_spc/SNES_SPC.cpp:1148-1149 | `d ^ 0xFF` is 255 - d |
| Alu.SubtractWithBorrow | snes_spc/SNES_SPC.cpp:1146-1166 | SBC gives the difference minus the borrow mod 256, and C means no borrow |
| Alu.SubtractFlags | snes_spc/SNES_SPC.cpp:1146-1166 | SBC's H means no nibble borrow, and V means a signed overflow of the difference |
| Alu.Compare | snes_spc/SNES_SPC.cpp:1068-1117 | NZ from the difference mod 256; C when the register is at least the operand |
| Alu.RotateLeft | snes_spc/SNES_SPC.cpp:1213-1243 | shifted left with the carry in, and C the old bit 7 |
| Alu.RotateRight | snes_spc/SNES_SPC.cpp:1204-1211 | shifted right with the carry in at bit 7, and C the old bit 0 |
| Alu.RotateLeftRight | snes_spc/SNES_SPC.cpp:1204-1221 | ROR undoes ROL, value and carry |
| Alu.RotateRightLeft | snes_spc/SNES_SPC.cpp:1204-1221 | ROL undoes ROR, value and carry |
| Alu.ExchangeNibbles | snes_spc/SNES_SPC.cpp:1269-1271 | the nibbles swapped |
| Alu.ExchangeTwice | snes_spc/SNES_SPC.cpp:1269-1271 | swapping twice restores the byte |
| Alu.ShortDivision | snes_spc/SNES_SPC.cpp:1371-1375 | the quotient fits 9 bits, and a byte when YA < 256·X |
| Alu.LongDivision | snes_spc/SNES_SPC.cpp:1376-1380 | the fallback formula stays in range and gives the hardware's quotient and remainder |
| Alu.Divide | snes_spc/SNES_SPC.cpp:1359-1386 | DIV: V when Y ≥ X, H from the low nibbles, the true quotient and remainder when Y < X (the quotient mod 256 when Y < 2X), and A = 255 - Y with Y = A when X = 0 |
| Decimal.Bcd | snes_spc/SNES_SPC.cpp:1390-1418 | the BCD byte of 0..99 |
| Decimal.DecimalAdjustAdd | snes_spc/SNES_SPC.cpp:1390-1403 | DAA adds at most $66 and sets C when A > $99 or C was set |
| Decimal.DecimalAdjustSubtract | snes_spc/SNES_SPC.cpp:1405-1418 | DAS takes away at most $66 and keeps C only when A ≤ $99 and C was set |
| Decimal.AdjustAddDigits | snes_spc/SNES_SPC.cpp:1390-1403 | on the binary sum of two BCD bytes, DAA gives the BCD of the decimal sum mod 100 and C on a decimal carry |
| Decimal.AddThenAdjust | snes_spc/SNES_SPC.cpp:1146-1166 | ADC then DAA adds two BCD bytes in decimal |
| Decimal.AdjustSubtractDigits | snes_spc/SNES_SPC.cpp:1405-1418 | on a binary difference, DAS gives the BCD difference mod 100 and C when nothing was borrowed |
| Decimal.SubtractThenAdjust | snes_spc/SNES_SPC.cpp:1146-1166 | SBC then DAS subtracts two BCD bytes in decimal |
| Words.LowFold | snes_spc/SNES_SPC.cpp:1296 | the folded low byte is zero exactly when the low byte is |
| Words.WordNz | snes_spc/SNES_SPC.cpp:1296 | a byte |
| Words.WordNzShows | snes_spc/SNES_SPC.cpp:1296 | the `nz` of a 16-bit result shows Z for the whole word and N from bit 15 |
| Words.Word | snes_spc/SNES_SPC.cpp:1275-1280 | a 16-bit value |
| Words.LoadWordNz | snes_spc/SNES_SPC.cpp:1275-1280 | MOVW's flags show the word that was loaded |
| Words.Multiply | snes_spc/SNES_SPC.cpp:1350-1357 | MUL: YA is the full product |
| Words.MultiplyNz | snes_spc/SNES_SPC.cpp:1350-1357 | MUL's flags show the product |
| Words.StepWord | snes_spc/SNES_SPC.cpp:1289-1306 | INCW/DECW give the word plus or minus 1 mod 2^16 |
| Words.StepWordNz | snes_spc/SNES_SPC.cpp:1289-1306 | their flags show the new word |
| Words.StepWordInverse | snes_spc/SNES_SPC.cpp:1289-1306 | DECW undoes INCW and the other way round |
| Words.CompareWord | snes_spc/SNES_SPC.cpp:1337-1346 | CMPW: C when YA is at least the word |
| Words.CompareWordNz | snes_spc/SNES_SPC.cpp:1337-1346 | its flags show the difference mod 2^16 |
| Words.AddHalves | snes_spc/SNES_SPC.cpp:1308-1335 | ADDW: the low sum, with its carry added into the high sum |
| Words.AddWord | snes_spc/SNES_SPC.cpp:1308-1335 | ADDW: YA plus the word mod 2^16, and C on an unsigned overflow |
| Words.AddWordNz | snes_spc/SNES_SPC.cpp:1308-1335 | ADDW's flags show the 16-bit sum |
| Words.AddWordFlags | snes_spc/SNES_SPC.cpp:1308-1335 | ADDW's H is the carry out of bit 11, V is a signed 16-bit overflow, and the rest are kept |
| Words.SubtractWord | snes_spc/SNES_SPC.cpp:1308-1335 | SUBW: YA minus the word mod 2^16, and C when nothing was borrowed |
| Words.SubtractWordNz | snes_spc/SNES_SPC.cpp:1308-1335 | SUBW's flags show the difference |
| Words.SubtractWordFlags | snes_spc/SNES_SPC.cpp:1308-1335 | SUBW's H means no borrow out of bit 11, V is a signed 16-bit overflow, and the rest are kept |
| WordOps.HighAddress | snes_spc/SNES_SPC.cpp:1275-1280 | the high byte's address wraps within the direct page and differs from the low byte's |
| WordOps.ReadWordAt | snes_spc/SNES_SPC.cpp:1275-1280 | two bytes and a valid state |
| WordOps.ReadWord | snes_spc/SNES_SPC.cpp:1275-1280 | the bytes and object are `ReadWordAt` |
| WordOps.LoadWord | snes_spc/SNES_SPC.cpp:1275-1280 | MOVW YA,dp loads both bytes with their read times and sets the flags from the word |
| WordOps.StoreWord | snes_spc/SNES_SPC.cpp:1282-1285 | MOVW dp,YA writes A then Y |
| WordOps.StoreThenLoadWord | snes_spc/SNES_SPC.cpp:1275-1285 | a word stored to plain RAM loads back as YA |
| WordOps.StepWordMemory | snes_spc/SNES_SPC.cpp:1289-1306 | INCW/DECW on memory write back the word plus or minus 1 and set its flags |
| WordOps.StepLowAt | snes_spc/SNES_SPC.cpp:1289-1306 | the low byte and a valid state |
| WordOps.StepLow | snes_spc/SNES_SPC.cpp:1289-1306 | its result and object are `StepLowAt` |
| WordOps.WordDirection | snes_spc/SNES_SPC.cpp:1295 | the opcode arithmetic picks +1 for INCW and -1 for DECW |
| WordOps.AddSubtractWord | snes_spc/SNES_SPC.cpp:1308-1335 | ADDW/SUBW set YA and the flags from `Words.AddWord` or `Words.SubtractWord` |
| WordOps.CompareWordMemory | snes_spc/SNES_SPC.cpp:1337-1346 | CMPW sets C and NZ from `Words.CompareWord` and changes no register |
| WordOps.MultiplyYA | snes_spc/SNES_SPC.cpp:1350-1357 | MUL YA: YA becomes Y·A, with flags from the product |
| WordOps.DivideYA | snes_spc/SNES_SPC.cpp:1359-1386 | DIV YA,X: the results of `Alu.Divide` |
| WordOps.MultiplyThenDivide | snes_spc/SNES_SPC.cpp:1350-1386 | for any Y, MUL then DIV by X = A > 0 gives back Y in A with remainder 0 in Y |
| WordOps.AdjustA | snes_spc/SNES_SPC.cpp:1390-1418 | DAA/DAS on A, with their carries |
| WordOps.AddThenAdjustA | snes_spc/SNES_SPC.cpp:1390-1403 | ADC then DAA leaves A the BCD sum |
| WordOps.SubtractThenAdjustA | snes_spc/SNES_SPC.cpp:1405-1418 | SBC then DAS leaves A the BCD difference |
| Moves.LoadA | snes_spc/SNES_SPC.cpp:914-928 | MOV A with each addressing mode: A and the flags from the byte read at the mode's address |
| Moves.LoadADirect | snes_spc/SNES_SPC.cpp:814-818 | MOV A,dp: A and the flags from the timer-aware read |
| Moves.LoadAIncrement | snes_spc/SNES_SPC.cpp:918-923 | MOV A,(X)+: A from the byte at X, then X plus one |
| Moves.LoadImmediate | snes_spc/SNES_SPC.cpp:925-964 | MOV A, X or Y,#imm loads the byte into that register only |
| Moves.IndexLoadAddress | snes_spc/SNES_SPC.cpp:930-959 | where MOV X and MOV Y read |
| Moves.LoadIndex | snes_spc/SNES_SPC.cpp:930-959 | MOV X or Y from memory |
| Moves.StoreA | snes_spc/SNES_SPC.cpp:968-970 | MOV to memory writes A at the mode's address, without the read-before-write |
| Moves.StoreADirect | snes_spc/SNES_SPC.cpp:851-872 | MOV dp,A writes A at dp+data |
| Moves.DirectSource | snes_spc/SNES_SPC.cpp:820-849 | the byte that MOV dp,dp or MOV dp,#imm stores |
| Moves.StoreDirect | snes_spc/SNES_SPC.cpp:820-849 | the byte is written at the direct address |
| Moves.ReadSource | snes_spc/SNES_SPC.cpp:820-849 | the byte and object are `DirectSource` |
| Moves.StoreIndexAbsolute | snes_spc/SNES_SPC.cpp:972-983 | MOV abs,X/Y writes the register at the word address |
| Moves.StoreIndexDirect | snes_spc/SNES_SPC.cpp:985-995 | MOV dp,X/Y and the indexed forms write the register in the direct page |
| Moves.Transfer | snes_spc/SNES_SPC.cpp:999-1025 | each register transfer copies the register; all but MOV SP,X set the flags |
| Moves.StoreIncrementXAsWritten | snes_spc/SNES_SPC.cpp:1029-1032 | as written, X becomes X + 1 without a wrap |
| Moves.StoreIncrementOverflows | snes_spc/SNES_SPC.cpp:1029-1032 | from X = $FF, X becomes 256, and a following CMP X,#0 then clears C, where the wrapped X would set it |
| Moves.StoreAIncrement | snes_spc/SNES_SPC.cpp:1029-1032 | MOV (X)+,A writes A at X and X wraps to (X+1) mod 256 (corrected) |
| Arith.Logic | snes_spc/SNES_SPC.cpp:1036-1064 | OR, AND and EOR act bit by bit |
| Arith.AddSubtract | snes_spc/SNES_SPC.cpp:1119-1166 | ADC or SBC: the `Alu` results, with V and H set and the other bits kept |
| Arith.Operate | snes_spc/SNES_SPC.cpp:1036-1166 | the ALU rows: logic keeps C, CMP sets C on ≥, ADC/SBC set C, V and H |
| Arith.AccumulatorOp | snes_spc/SNES_SPC.cpp:1036-1166 | each ALU opcode on A with its mode's operand |
| Arith.Operands | snes_spc/SNES_SPC.cpp:1119-1135 | the source byte and direct-page destination of the memory-to-memory forms |
| Arith.ReadOperands | snes_spc/SNES_SPC.cpp:1119-1135 | the operands and object are `Operands` |
| Arith.MemoryOp | snes_spc/SNES_SPC.cpp:1119-1135 | the ALU on memory: the result written, except CMP, which writes nothing |
| Arith.CompareIndex | snes_spc/SNES_SPC.cpp:1091-1117 | CMP X and CMP Y set the flags as `Alu.Compare` |
| Arith.StepRegister | snes_spc/SNES_SPC.cpp:1172-1183 | INC/DEC on A, X or Y: plus or minus 1 mod 256, with flags |
| Arith.ModifyAddress | snes_spc/SNES_SPC.cpp:1185-1267 | the address and pc of the memory read-modify-write forms |
| Arith.StepDirection | snes_spc/SNES_SPC.cpp:1197 | the opcode arithmetic picks +1 for INC and -1 for DEC |
| Arith.StepMemory | snes_spc/SNES_SPC.cpp:1185-1200 | INC/DEC on memory write back the byte plus or minus 1 and set the flags |
| Arith.Shift | snes_spc/SNES_SPC.cpp:1204-1267 | ASL and LSR shift in 0; ROL and ROR shift in C |
| Arith.ShiftA | snes_spc/SNES_SPC.cpp:1204-1221 | the shift on A with flags |
| Arith.RotateARoundTrip | snes_spc/SNES_SPC.cpp:1204-1221 | ROL A then ROR A restores A and C |
| Arith.ShiftMemory | snes_spc/SNES_SPC.cpp:1223-1267 | the shift on memory: the byte written back and the flags set |
| Arith.ExchangeA | snes_spc/SNES_SPC.cpp:1269-1271 | XCN: A's nibbles swapped, with flags |
| Arith.ExchangeATwice | snes_spc/SNES_SPC.cpp:1269-1271 | XCN twice restores A |
| Flow.Taken | snes_spc/SNES_SPC.cpp:1426-1442 | the branch condition on the flag caches (no contract of its own; its meaning is `Flow.TakenReadsStatus`) |
| Flow.TakenReadsStatus | snes_spc/SNES_SPC.cpp:1426-1442 | each conditional branch tests its status bit in the packed status |
| Flow.Branch | snes_spc/SNES_SPC.cpp:770-785 | a taken branch adds the signed offset after the operand; otherwise pc passes the operand |
| Flow.BranchInReach | snes_spc/SNES_SPC.cpp:770-785 | the target stays within the fetchable range |
| Flow.DecrementBranch | snes_spc/SNES_SPC.cpp:1489-1491 | DBNZ Y: Y minus 1 mod 256, and a branch when it is not zero |
| Flow.CompareAddress | snes_spc/SNES_SPC.cpp:1444-1487 | where CBNE, DBNZ dp and BBS/BBC read |
| Flow.Compared | snes_spc/SNES_SPC.cpp:1444-1487 | a byte and a valid state |
| Flow.ReadCompared | snes_spc/SNES_SPC.cpp:1444-1487 | the byte and object are `Compared` |
| Flow.DecrementDirect | snes_spc/SNES_SPC.cpp:1483-1487 | DBNZ dp writes the byte minus 1 without the read-before-write |
| Flow.CompareTaken | snes_spc/SNES_SPC.cpp:1444-1487 | BBS/BBC test bit `op >> 5`, DBNZ the byte before decrementing, CBNE against A (no contract of its own; used by `Flow.CompareBranch`) |
| Flow.CompareBranch | snes_spc/SNES_SPC.cpp:1444-1487 | the compare-and-branch family branches past the operand exactly when its test holds |
| Flow.Jump | snes_spc/SNES_SPC.cpp:1493-1498 | JMP abs goes to the word; JMP [abs+X] goes to the word stored there |
| Flow.ReturnAddress | snes_spc/SNES_SPC.cpp:787-792 | the pushed address is the one after the whole instruction |
| Flow.CallTarget | snes_spc/SNES_SPC.cpp:1502-1541 | PCALL goes to $FF00+data, TCALL n to the vector at $FFDE-2n, and BRK to $FFDE |
| Flow.CallStack | snes_spc/SNES_SPC.cpp:787-792 | the stack after the return address is pushed |
| Flow.PushFrame | snes_spc/SNES_SPC.cpp:650-655 | a push keeps every other address |
| Flow.PushOn | snes_spc/SNES_SPC.cpp:650-655 | the RAM after a push is `Stack.Push` |
| Flow.PushWordOn | snes_spc/SNES_SPC.cpp:635-648 | the RAM after a word push is `Stack.Push16` |
| Flow.Call | snes_spc/SNES_SPC.cpp:787-792 | CALL, PCALL and TCALL push the return address and jump |
| Flow.Break | snes_spc/SNES_SPC.cpp:1502-1512 | BRK pushes the return address and the status, sets B, clears I, and jumps through $FFDE |
| Flow.BreakStatus | snes_spc/SNES_SPC.cpp:1502-1512 | B set, I clear, the rest kept |
| Flow.CallThenReturn | snes_spc/SNES_SPC.cpp:787-812 | RET after a call pops the return address |
| Flow.BreakThenReturnFromInterrupt | snes_spc/SNES_SPC.cpp:1502-1551 | RETI after BRK gives back the status and the return address |
| Flow.LoadStatus | snes_spc/SNES_SPC.cpp:702-708 | the caches are reloaded so the packed status equals the byte |
| Flow.Return | snes_spc/SNES_SPC.cpp:794-812 | RET: pc and SP are those of `Stack.Pop16` |
| Flow.ReturnFromInterruptOp | snes_spc/SNES_SPC.cpp:1547-1551 | RETI: status, pc and SP are those of `Stack.ReturnFromInterrupt` (corrected) |
| Flow.PushRegister | snes_spc/SNES_SPC.cpp:1559-1576 | PUSH PSW, A, X or Y pushes that value |
| Flow.PopRegister | snes_spc/SNES_SPC.cpp:1552-1588 | POP loads the popped byte, with POP PSW going through `set_psw` |
| Flow.PushThenPopRegister | snes_spc/SNES_SPC.cpp:1552-1588 | a pop after a push returns the byte with the pointer restored |
| Flow.FlagOp | snes_spc/SNES_SPC.cpp:1684-1716 | CLRC, SETC and NOTC change C; CLRV clears V and H; CLRP and SETP set `dp`; EI and DI set I; nothing else changes |
| Flow.FlagOpStatus | snes_spc/SNES_SPC.cpp:1684-1716 | in the packed status, exactly the named bit changes as the instruction says |
| BitExec.SetClearBit | snes_spc/SNES_SPC.cpp:1592-1615 | SET1/CLR1 dp.bit write back the byte with the bit changed |
| BitExec.Operand16 | snes_spc/SNES_SPC.cpp:616 | the operand word after the opcode |
| BitExec.TestFlags | snes_spc/SNES_SPC.cpp:1617-1629 | TSET1's flags are those of A minus the byte, so Z means equal |
| BitExec.TestSetBits | snes_spc/SNES_SPC.cpp:1617-1629 | TSET1/TCLR1 write back the byte with A's bits set or cleared |
| BitExec.CarryOp | snes_spc/SNES_SPC.cpp:1631-1680 | the new C is the boolean combination (`CarryMeaning`) of the old C and bit 8 of the `mem_bit` value |
| BitExec.MemBitTime | snes_spc/SNES_SPC.cpp:1631-1680 | AND1 and MOV1 C read the operand at the instruction's time, OR1 and EOR1 one cycle earlier (no contract of its own; used by `BitExec.CarryBit`) |
| BitExec.CarryOpMeaning | snes_spc/SNES_SPC.cpp:1631-1680 | AND1, AND1 /, OR1, OR1 /, EOR1 and MOV1 C act on C as the boolean operators |
| BitExec.CarryBit | snes_spc/SNES_SPC.cpp:1631-1680 | C becomes the boolean combination of C and the addressed bit, and memory is only read |
| BitExec.FlipMemoryBit | snes_spc/SNES_SPC.cpp:1656-1664 | NOT1 writes back the byte with the bit flipped |
| BitExec.StoreCarryBit | snes_spc/SNES_SPC.cpp:1666-1675 | MOV1 mem.bit,C writes back the byte with C at the bit |
| BitExec.StoreThenLoadCarry | snes_spc/SNES_SPC.cpp:1666-1680 | MOV1 mem.bit,C then MOV1 C,mem.bit gives back C |
| Interpreter.EveryOpcodeHandled | snes_spc/SNES_SPC.cpp:766-1743 | every opcode belongs to one of the groups, so none reaches the unhandled case |
| Interpreter.ExecuteMove | snes_spc/SNES_SPC.cpp:814-1032 | the move opcodes keep the object valid and the control state unchanged |
| Interpreter.ExecuteArith | snes_spc/SNES_SPC.cpp:1036-1271 | the same for the 8-bit ALU group |
| Interpreter.ExecuteWord | snes_spc/SNES_SPC.cpp:1275-1418 | the same for the 16-bit, MUL, DIV and decimal group |
| Interpreter.ExecuteConditional | snes_spc/SNES_SPC.cpp:770-785 | a branch moves pc as `Flow.Branch`, DBNZ Y as `Flow.DecrementBranch`; each gives back two cycles exactly when it is not taken (the flag test fails, Y reaches 0, or the compare-and-branch test on the operand read by `Flow.Compared` fails), and nothing else gives cycles back |
| Interpreter.ExecuteControl | snes_spc/SNES_SPC.cpp:787-812 | calls, jumps, returns, stack and flag opcodes keep the object valid |
| Interpreter.ExecuteOther | snes_spc/SNES_SPC.cpp:766-1743 | every family but STOP, SLEEP and the conditional branches keeps the object valid and the CPU control fields; it has no refund to return |
| Interpreter.ExecuteBitOp | snes_spc/SNES_SPC.cpp:1592-1680 | the one-bit group keeps the object valid |
| Interpreter.Execute | snes_spc/SNES_SPC.cpp:766-1743 | halts exactly on STOP and SLEEP, pointing pc back at the opcode and setting the CPU error; the refund is 2 exactly on an untaken branch, DBNZ or compare-and-branch, and 0 otherwise |
| Interpreter.WrapPc | snes_spc/SNES_SPC.cpp:1723-1733 | pc mod 2^16 |
| Interpreter.Step | snes_spc/SNES_SPC.cpp:732-766 | one instruction: it is out of time exactly when the opcode's table cost does not fit, and then nothing changes; a halt leaves pc on a STOP or SLEEP byte; otherwise the clock advances by the table cost, less 2 only on a refunding opcode, and for a conditional branch exactly when it is not taken |
| Interpreter.Finish | snes_spc/SNES_SPC.cpp:521-529 | undoes the time rebase of the prologue on the timers and DSP, and saves the registers as the `stop` label does |
| Interpreter.RunUntil | snes_spc/SNES_SPC.cpp:510-529 | stops at most 11 cycles before the end; a new CPU error leaves the time at the end and pc on STOP or SLEEP |
| Interpreter.EndFrame | snes_spc/SNES_SPC.cpp:533-561 | `spc_time` ends in [-11, 0], `extra_clocks` grows by the frame, every timer is due after 0, and the DSP has caught up |

## Left out

- The DSP (`SPC_DSP`) is not part of this model. Its run, read and write calls are logged. Each read's answer is a parameter: a function of the log so far and the register.
- `reset`, `init`, `load_spc`, `soft_reset`, `clear_echo` and the save-state code are not part of this model. A `Machine.Spc` is built valid from a ROM image, a padding byte and the DSP parameter.
- `save_extra` and the sample-buffer handling at the end of `end_frame` are output handling with no effect on the CPU or SMP state, so they are left out.
- The `SPC_MORE_ACCURACY` variant is left out, together with its `glitch_probs` / `rand()` path for writes to the timer registers. So are the `SPC_LESS_ACCURATE` variant and the `SPC_NO_SP_WRAPAROUND` variant. Only the default build is modelled.
- The debugging hooks are left out: `SPC_CPU_OPCODE_HOOK`, `dprintf`, `SUSPICIOUS_OPCODE`, `MEM_ACCESS` and `check_echo_access`.
- `m.cpu_error` is a boolean, not the message string.
- The cycle table is a parameter. `Interpreter.RunUntil` and `Interpreter.EndFrame` require every cost to be 1..12, at least 3 on every opcode that can give two cycles back (so each instruction moves the clock forward, which the termination of `RunUntil` relies on), and the padding past $FFFF to be STOP ($FF). These are the values the emulator installs.
- The `assert( count > 0 )` in `RUN_DSP` is not proved. A zero-clock run is logged like any other.
- The overloaded `GET_LE16`/`SET_LE16` wrappers of spc_common.h (lines 54-61) only convert pointer types, and are left out.
- Interpreter.RunUntil: states time bounds, validity, the error flag and where a halt leaves pc. It does not state the composition of the per-instruction effects over a whole burst.
- Interpreter.ExecuteMove, Interpreter.ExecuteArith, Interpreter.ExecuteWord, Interpreter.ExecuteControl, Interpreter.ExecuteBitOp and Interpreter.ExecuteOther: these dispatchers only promise validity. Each opcode's meaning is stated by the handler it calls (the `Moves`, `Arith`, `WordOps`, `Flow` and `BitExec` rows).
- Smp.Write, Smp.WriteHigh, Smp.WriteSmpReg, Smp.WriteSmpRegOther, Smp.WriteControl, Smp.Read and Smp.ReadSmpReg: their own contracts state only validity. Their behaviour is proved in the `SmpLaws` lemmas.
- Interpreter.Execute, Interpreter.Step, Interpreter.RunUntil and Interpreter.EndFrame dispatch $AF to `Moves.StoreAIncrement` and $7F to `Flow.ReturnFromInterruptOp`, the corrected handlers of the two Findings. They model the evidently intended program, not snes_spc/SNES_SPC.cpp:1029-1032 and 1547-1551 as written; those lines are modelled only by the as-written members.
- Interpreter.Step: the operand fetch at the very end of memory reads the padding byte, as the emulator does. Its out-of-range wrap is modelled only for STOP, as in the source.

## Findings

| source | as written | input that shows it | evidently intended | confidence | as-written member | corrected member |
|---|---|---|---|---|---|---|
| snes_spc/SNES_SPC.cpp:1547-1551 | RETI advances the cached stack pointer by 3 without the page-1 wrap that `POP` applies | BRK with SP = $00 leaves SP = $FD; RETI then moves the pointer to offset $201, outside page 1, instead of SP = $00 | SP wraps within page 1, as each of the three pops does | not executed | Stack.ReturnFromInterruptAsWritten, Stack.ReturnAsWrittenLeavesPage | Stack.ReturnFromInterrupt, Flow.ReturnFromInterruptOp |
| snes_spc/SNES_SPC.cpp:1029-1032 | MOV (X)+,A increments `x` without the `(uint8_t)` cast that MOV A,(X)+ applies | X = $FF gives X = 256; a following CMP X,#0 clears C where the 8-bit X (0) would set it | X wraps to (X+1) mod 256 | not executed | Moves.StoreIncrementXAsWritten, Moves.StoreIncrementOverflows | Moves.StoreAIncrement |
