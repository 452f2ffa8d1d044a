/** The SPC700 interpreter loop of snes_spc/SNES_SPC.cpp (`run_until_`, lines
    710-1762) as far as it is pure: the registers it caches in locals, how they
    are loaded from and saved to `m.cpu_regs`, how the loop fetches an opcode,
    the operand addresses of the addressing modes, the cycle table, and the
    two inline shortcuts it takes around `cpu_read` and `cpu_write`. */
module Cpu {
  import opened Bytes
  import opened Bits
  import opened Psw
  import opened BitOps
  import Timers
  import Stack
  import opened Smp
  import Machine

  /** The locals of the loop. `pc` and `sp` are offsets into RAM (the code keeps
      pointers): `sp` is `0x101 + SP`, and `pc` may stray a little below $0000
      or past $FFFF, into the padding on either side of RAM. */
  datatype Regs = Regs(pc: int, a: byte, x: byte, y: byte, sp: int,
                       psw: byte, c: int, nz: int, dp: int)

  /** How far a branch can carry `pc` outside $0000-$FFFF: 128 back from the
      first instruction, 130 forward from the last. */
  predicate InReach(pc: int)
  {
    -0x80 <= pc <= 0x1_0081
  }

  predicate ValidRegs(r: Regs)
  {
    Stack.ValidPointer(r.sp) && (r.dp == 0 || r.dp == 0x100) && InReach(r.pc)
  }

  /** STOP, and the byte the padding around RAM holds (`cpu_pad_fill`). */
  const StopOpcode: byte := 0xFF

  /** `*pc`: a byte of RAM, or of the padding in front of it, which holds STOP. */
  function Fetch(ram: seq<byte>, a: int): (r: byte)
    requires |ram| == RamSize && a < RamSize
    ensures a < 0 ==> r == StopOpcode
  {
    if a < 0 then StopOpcode else ram[a]
  }

  /** Outside $0000-$FFFF the loop can only fetch STOP, once the padding past
      $FFFF holds it too. */
  lemma FetchOutsideMemory(st: State, cfg: Config, a: int)
    requires Smp.Valid(st) && Padded(st, cfg) && cfg.padFill == StopOpcode
    requires InReach(a) && !(0 <= a < U16)
    ensures Fetch(st.ram, a) == StopOpcode
  {
  }

  /** `SET_PC`, `SET_SP` and `SET_PSW` at the top of `run_until_`. */
  function LoadRegs(cr: Machine.CpuRegs): (r: Regs)
    requires Machine.ValidCpuRegs(cr)
    ensures ValidRegs(r) && 0 <= r.pc < U16
    ensures Stack.GetSp(r.sp) == cr.sp && r.psw == cr.psw && r.a == cr.a && r.x == cr.x && r.y == cr.y
  {
    var f := SetPsw(cr.psw);
    Regs(cr.pc, cr.a, cr.x, cr.y, Stack.SetSp(cr.sp), f.psw, f.c, f.nz, f.dp)
  }

  /** The registers written back at `stop`: `pc` cast to 16 bits, SP, A, X, Y
      and `GET_PSW`. */
  function SaveRegs(r: Regs): (cr: Machine.CpuRegs)
    requires ValidRegs(r)
    ensures Machine.ValidCpuRegs(cr) && cr.pc == r.pc % U16 && cr.sp == Stack.GetSp(r.sp)
    ensures cr.psw == GetPsw(r.psw, r.c, r.dp, r.nz)
  {
    Machine.CpuRegs(r.pc % U16, r.a, r.x, r.y, GetPsw(r.psw, r.c, r.dp, r.nz), Stack.GetSp(r.sp))
  }

  /** A burst that executes nothing hands the registers back as it found them. */
  lemma SaveAfterLoad(cr: Machine.CpuRegs)
    requires Machine.ValidCpuRegs(cr)
    ensures SaveRegs(LoadRegs(cr)) == cr
  {
    PswRoundTrip(cr.psw);
  }

  /** `READ_PROG16` and `READ_PC16`: a little-endian word straight from RAM,
      with no register side effects. */
  function ReadProg16(ram: seq<byte>, a: int): (w: int)
    requires |ram| == RamSize && 0 <= a < RamSize - 1
    ensures 0 <= w < U16 && w == ram[a] as int + 256 * ram[a + 1] as int
  {
    GetLe16(ram[a..a + 2])
  }

  /** The opcode `op` has been fetched from `pc - 1` and `data`, the byte after
      it, from `pc`; the instruction lies in $0000-$FFFF. */
  predicate Decoded(ram: seq<byte>, r: Regs, data: byte)
  {
    |ram| == RamSize && ValidRegs(r) && 0 < r.pc <= U16 && data == ram[r.pc]
  }

  /** Where an operand lives and the `pc` after the instruction. */
  datatype Operand = Operand(addr: int, pc: int)

  /** The columns of the opcode map that `ADDR_MODES` decodes: dp, abs, (X),
      (dp+X), dp+X, abs+X, abs+Y and (dp)+Y. */
  predicate IsAddrMode(op: byte)
  {
    op % 0x20 in {0x04, 0x05, 0x06, 0x07, 0x14, 0x15, 0x16, 0x17}
  }

  /** `ADDR_MODES`, closed by the `pc++` of `inc_pc_loop`. The direct-page modes
      stay in the direct page, the unindexed modes in $0000-$FFFF; the indexed
      absolute modes may run past $FFFF into the padding, which is why RAM has
      a page of it. The instruction is one byte long for (X), three for the
      absolute modes and two for the rest. */
  function ModeOperand(ram: seq<byte>, r: Regs, op: byte, data: byte): (o: Operand)
    requires Decoded(ram, r, data) && IsAddrMode(op)
    ensures 0 <= o.addr < RamSize
    ensures o.pc == r.pc + (if op % 0x20 == 0x06 then 0 else if op % 0x20 in {0x05, 0x15, 0x16} then 2 else 1)
    ensures op % 0x20 in {0x04, 0x06, 0x14} ==> r.dp <= o.addr < r.dp + 0x100
    ensures op % 0x20 in {0x04, 0x05, 0x06, 0x07, 0x14} ==> o.addr < U16
    ensures op % 0x20 in {0x15, 0x16, 0x17} ==> o.addr < U16 + 0xFF
  {
    match op % 0x20
    case 0x06 => Operand(r.x + r.dp, r.pc)
    case 0x17 => Operand(ReadProg16(ram, data + r.dp) + r.y, r.pc + 1)
    case 0x07 => Operand(ReadProg16(ram, Byte(data + r.x) + r.dp), r.pc + 1)
    case 0x16 => Operand(data + r.y + 0x100 * ram[r.pc + 1] as int, r.pc + 2)
    case 0x15 => Operand(data + r.x + 0x100 * ram[r.pc + 1] as int, r.pc + 2)
    case 0x05 => Operand(data + 0x100 * ram[r.pc + 1] as int, r.pc + 2)
    case 0x14 => Operand(Byte(data + r.x) + r.dp, r.pc + 1)
    case 0x04 => Operand(data + r.dp, r.pc + 1)
  }

  /** The opcodes whose untaken branch gives two cycles back (`BRANCH` and
      `CBRANCH`). */
  predicate RefundsTwo(op: byte)
  {
    op in {0x10, 0x30, 0x50, 0x70, 0x90, 0xB0, 0xD0, 0xF0, 0xFE, 0x2E, 0x6E, 0xDE} || op % 0x10 == 3
  }

  /** `m.cycle_table`: a cost for each opcode, at most 12 (`cpu_lag_max` is one
      less), and more than the refund on the branches, so every instruction
      takes time. */
  predicate ValidCycles(t: seq<int>)
  {
    |t| == 256 && forall op :: 0 <= op < 256 ==> 1 <= t[op] <= 12 && (RefundsTwo(op) ==> t[op] >= 3)
  }

  /** `CPU_READ_TIMER`, the shortcut behind `READ_TIMER` and `READ_DP_TIMER`:
      a timer output is brought up to `time`, read and cleared on the spot;
      another SMP register goes to `cpu_read_smp_reg`; anything else is RAM. */
  function ReadTimer(st: State, addr: int, time: int, dsp: DspReader): (r: (int, State))
    requires Smp.Valid(st) && 0 <= addr < U16
    ensures Smp.Valid(r.1) && 0 <= r.0 < 256
  {
    var ti := addr - (RT0Out + 0xF0);
    if Unsigned(ti) < 3 then
      var t := Timers.RunTimer(st.timers[ti], time);
      (t.counter, st.(timers := st.timers[ti := t.(counter := 0)]))
    else if Unsigned(addr - 0xF0) < 0x10 then
      ReadSmpReg(st, addr - 0xF0, time, dsp)
    else
      (st.ram[addr] as int, st)
  }

  /** The shortcut reads what `cpu_read` reads, everywhere below $10000. */
  lemma ReadTimerIsRead(st: State, addr: int, time: int, dsp: DspReader)
    requires Smp.Valid(st) && 0 <= addr < U16
    ensures ReadTimer(st, addr, time, dsp) == Smp.Read(st, addr, time, dsp)
  {
  }

  /** The inline store of MOV dp,#imm and MOV dp,dp: RAM, then for $F0-$FF the
      register copy and, for the registers the selector picks, the register
      write. */
  function WriteDirect(st: State, cfg: Config, data: int, addr: int, time: int): (r: State)
    requires Smp.Valid(st) && ValidConfig(cfg) && 0 <= addr < 0x200
    ensures Smp.Valid(r)
  {
    var st1 := st.(ram := st.ram[addr := Byte(data)]);
    var i := addr - 0xF0;
    if Unsigned(i) < 0x10 then
      var st2 := st1.(regs := st1.regs[i := Byte(data)]);
      if RunsRegisterWrite(i) then WriteSmpReg(st2, cfg, data, time, i) else st2
    else
      st1
  }

  /** The inline store of MOV dp,A: RAM, then for $F0-$FF the register copy,
      $F3 to the DSP, and every register but $F2 and $F3 to
      `cpu_write_smp_reg_`. */
  function WriteDirectA(st: State, cfg: Config, a: byte, addr: int, time: int): (r: State)
    requires Smp.Valid(st) && ValidConfig(cfg) && 0 <= addr < 0x200
    ensures Smp.Valid(r)
  {
    var st1 := st.(ram := st.ram[addr := a]);
    var i := addr - 0xF0;
    if Unsigned(i) < 0x10 then
      var sel := Unsigned(i - 2);
      var st2 := st1.(regs := st1.regs[i := a]);
      if sel == 1 then DspWrite(st2, a, time)
      else if sel > 1 then WriteSmpRegOther(st2, cfg, a, time, i)
      else st2
    else
      st1
  }

  /** The store of MOV dp,#imm and MOV dp,dp is `cpu_write` on the direct page. */
  lemma WriteDirectIsWrite(st: State, cfg: Config, data: int, addr: int, time: int)
    requires Smp.Valid(st) && ValidConfig(cfg) && 0 <= addr < 0x200
    ensures WriteDirect(st, cfg, data, addr, time) == Smp.Write(st, cfg, data, addr, time)
  {
  }

  /** The store of MOV dp,A is `cpu_write` on the direct page: registers $F4-$F7,
      which it sends to `cpu_write_smp_reg_` and `cpu_write` does not, have no
      side effect there. */
  lemma WriteDirectAIsWrite(st: State, cfg: Config, a: byte, addr: int, time: int)
    requires Smp.Valid(st) && ValidConfig(cfg) && 0 <= addr < 0x200
    ensures WriteDirectA(st, cfg, a, addr, time) == Smp.Write(st, cfg, a, addr, time)
  {
    var i := addr - 0xF0;
    var st1 := st.(ram := st.ram[addr := a]);
    if 0 <= i < 16 {
      var st2 := st1.(regs := st1.regs[i := a]);
      SelectorPicksRegisters(i);
      assert Smp.Write(st, cfg, a, addr, time) ==
             if RunsRegisterWrite(i) then WriteSmpReg(st2, cfg, a, time, i) else st2;
      if i == 2 {
        assert WriteDirectA(st, cfg, a, addr, time) == st2;
      } else if i == 3 {
        assert WriteDirectA(st, cfg, a, addr, time) == DspWrite(st2, a, time);
      } else {
        assert WriteDirectA(st, cfg, a, addr, time) == WriteSmpRegOther(st2, cfg, a, time, i);
        if 4 <= i <= 7 {
          assert WriteSmpRegOther(st2, cfg, a, time, i) == st2;
        }
      }
    } else {
      assert Smp.Write(st, cfg, a, addr, time) == st1;
    }
  }

  /** `psw` with bit `k` set to `b` and the other bits kept (`psw |= i04`,
      `psw &= ~i04` and the like). */
  function WithBit(psw: byte, k: nat, b: bool): (r: byte)
    requires k < 8
    ensures Bit(r, k) == b
    ensures forall j :: 0 <= j < 8 && j != k ==> Bit(r, j) == Bit(psw, j)
  {
    ByteOfBits(seq(8, j requires 0 <= j < 8 => if j == k then b else Bit(psw, j)))
  }
}
