/** Control flow, the stack and the status flags in the interpreter loop
    (snes_spc/SNES_SPC.cpp, groups 12-14 and 16): the branches, jumps, calls
    and returns, PUSH and POP, and the instructions that set or clear one
    flag. The stack
    instructions touch page 1 of RAM directly, not through `cpu_write`. */
module Flow {
  import opened Bytes
  import opened Bits
  import opened Psw
  import opened Adder
  import opened Smp
  import opened Cpu
  import opened Stack
  import Alu
  import Machine

  /** The status byte the registers stand for, as `GET_PSW` packs it. */
  function Status(r: Regs): byte
  {
    GetPsw(r.psw, r.c, r.dp, r.nz)
  }

  /** The conditional branches of `BRANCH` (BEQ, BNE, BMI, BPL, BCS, BCC,
      BVS, BVC) and the unconditional BRA. */
  predicate IsBranch(op: byte)
  {
    op in {0xF0, 0xD0, 0x30, 0x10, 0xB0, 0x90, 0x70, 0x50, 0x2F}
  }

  /** Whether the branch is taken: Z for
      BEQ/BNE, N for BMI/BPL, C for BCS/BCC and V for BVS/BVC, as the flag
      variables hold them; BRA always. */
  predicate Taken(r: Regs, op: byte)
    requires IsBranch(op)
  {
    if op == 0xF0 then Zero(r.nz)
    else if op == 0xD0 then !Zero(r.nz)
    else if op == 0x30 then Negative(r.nz)
    else if op == 0x10 then !Negative(r.nz)
    else if op == 0xB0 then Carry(r.c)
    else if op == 0x90 then !Carry(r.c)
    else if op == 0x70 then Overflow(r.psw)
    else if op == 0x50 then !Overflow(r.psw)
    else true
  }

  /** A conditional branch is taken exactly when the flag it tests, read
      from the packed status byte, is set (BEQ, BMI, BCS, BVS) or clear (BNE,
      BPL, BCC, BVC). */
  lemma TakenReadsStatus(r: Regs, op: byte)
    requires IsBranch(op)
    ensures op in {0xF0, 0xD0} ==> Taken(r, op) == (Bit(Status(r), 1) == (op == 0xF0))
    ensures op in {0x30, 0x10} ==> Taken(r, op) == (Bit(Status(r), 7) == (op == 0x30))
    ensures op in {0xB0, 0x90} ==> Taken(r, op) == (Bit(Status(r), 0) == (op == 0xB0))
    ensures op in {0x70, 0x50} ==> Taken(r, op) == (Bit(Status(r), 6) == (op == 0x70))
  {
    var p := Status(r);
    assert Bit(p, 1) == Zero(r.nz) && Bit(p, 7) == Negative(r.nz);
    assert Bit(p, 0) == Carry(r.c) && Bit(p, 6) == Overflow(r.psw);
  }

  /** BRANCH and BRA: taken, `pc` moves by the signed offset from the end of
      the instruction; not taken, the loop gives two cycles back (see
      `RefundsTwo`). */
  function Branch(r: Regs, op: byte, data: byte): (r': Regs)
    requires IsBranch(op)
    ensures r' == r.(pc := r'.pc)
    ensures Taken(r, op) ==> r'.pc == r.pc + 1 + Signed8(data)
    ensures !Taken(r, op) ==> r'.pc == r.pc + 1
  {
    var pc := r.pc + 1 + Signed8(data);
    if Taken(r, op) then r.(pc := pc) else r.(pc := pc - Signed8(data))
  }

  /** A taken branch lands within 128 bytes of the end of the instruction, so
      from $0000-$FFFF it stays in the reach of `pc`. */
  lemma BranchInReach(r: Regs, op: byte, data: byte)
    requires IsBranch(op) && 0 < r.pc <= U16
    ensures InReach(Branch(r, op, data).pc)
  {
  }

  /** DBNZ Y,rel: Y steps down within the byte and the
      branch is taken while it is not zero. */
  function DecrementBranch(r: Regs, data: byte): (r': Regs)
    ensures r'.y == (r.y - 1) % 256 && r' == r.(y := r'.y, pc := r'.pc)
    ensures r'.pc == if r'.y != 0 then r.pc + 1 + Signed8(data) else r.pc + 1
  {
    var y := Byte(r.y - 1);
    var pc := r.pc + 1 + Signed8(data);
    if y != 0 then r.(y := y, pc := pc) else r.(y := y, pc := pc - Signed8(data))
  }

  /** The branches of `CBRANCH` that compare memory: BBS, BBC, CBNE and DBNZ
      on the direct page. */
  predicate IsCompareBranch(op: byte)
  {
    op % 0x10 == 3 || op in {0x2E, 0xDE, 0x6E}
  }

  /** The address a compare-and-branch reads: the direct-page byte, indexed
      by X (within the page) for CBNE dp+X. */
  function CompareAddress(r: Regs, op: byte, data: byte): (addr: int)
    requires ValidRegs(r)
    ensures 0 <= addr < 0x200
  {
    if op == 0xDE then Byte(data + r.x) + r.dp else data + r.dp
  }

  /** The operand of BBS, BBC, CBNE and DBNZ dp, read four cycles early (CBNE
      through the timer shortcut), and the state after it; DBNZ writes the
      byte less one back a cycle later. */
  function Compared(st: State, cfg: Config, r: Regs, op: byte, data: byte, time: int, dsp: DspReader): (c: (int, State))
    requires Smp.Valid(st) && ValidConfig(cfg) && ValidRegs(r) && IsCompareBranch(op)
    ensures Smp.Valid(c.1) && 0 <= c.0 < 256
  {
    var addr := CompareAddress(r, op, data);
    if op == 0xDE || op == 0x2E then ReadTimer(st, addr, time - 4, dsp)
    else
      var (v, st1) := Smp.Read(st, addr, time - 4, dsp);
      (v, if op == 0x6E then Smp.Write(st1, cfg, v + 0x1FFF, addr, time - 3) else st1)
  }

  /** When a compare-and-branch is taken, given its operand `v`: BBS when bit
      `op / 32` of it is set, BBC when it is clear, DBNZ unless it was 1 (so
      the decremented byte is not zero), CBNE when it differs from A. */
  predicate CompareTaken(op: byte, v: int, a: byte)
  {
    if op % 0x10 == 3 then Bit(v, op / 32) == (op / 0x10 % 2 == 0)
    else if op == 0x6E then v != 1
    else v != a
  }

  /** Read (and for DBNZ write) the operand as `Compared` says. */
  method ReadCompared(s: Machine.Spc, r: Regs, op: byte, data: byte, time: int) returns (v: int)
    requires s.Valid() && ValidRegs(r) && IsCompareBranch(op)
    modifies s.Repr
    ensures s.Valid() && s.Control() == old(s.Control())
    ensures (v, s.Abs()) == Compared(old(s.Abs()), s.cfg, r, op, data, time, s.dsp)
  {
    var addr := CompareAddress(r, op, data);
    if op == 0xDE || op == 0x2E {
      ReadTimerIsRead(s.Abs(), addr, time - 4, s.dsp);
      v := s.Read(addr, time - 4);
    } else {
      v := s.Read(addr, time - 4);
      if op == 0x6E {
        DecrementDirect(s, v, addr, time - 3);
      }
    }
  }

  /** The write-back of DBNZ dp: the unsigned `byte - 1` plus the flag that
      skips the read-before-write, whose 32-bit sum is `byte + 0x1FFF` also
      when the byte is zero. */
  method DecrementDirect(s: Machine.Spc, v: int, addr: int, time: int)
    requires s.Valid() && 0 <= v < 256 && 0 <= addr < 0x200
    modifies s.Repr
    ensures s.Valid() && s.Control() == old(s.Control())
    ensures s.Abs() == Smp.Write(old(s.Abs()), s.cfg, v + 0x1FFF, addr, time)
  {
    var temp := Unsigned(v - 1);
    assert (temp + NoReadBeforeWrite) % U32 == v + 0x1FFF;
    s.Write((temp + NoReadBeforeWrite) % U32, addr, time);
  }

  /** BBS/BBC dp.bit, CBNE dp / dp+X and DBNZ dp. The
      relative offset is the third byte of the instruction, read after any
      write; taken, `pc` moves by it from the end of the instruction, and
      not taken, two cycles are given back (see `RefundsTwo`). */
  method CompareBranch(s: Machine.Spc, r: Regs, op: byte, data: byte, time: int) returns (r': Regs, taken: bool)
    requires s.Valid() && Decoded(s.ram[..], r, data) && IsCompareBranch(op)
    modifies s.Repr
    ensures s.Valid() && ValidRegs(r') && s.Control() == old(s.Control())
    ensures var (v, st) := Compared(old(s.Abs()), s.cfg, r, op, data, time, s.dsp);
            s.Abs() == st && taken == CompareTaken(op, v, r.a)
    ensures r' == r.(pc := if taken then r.pc + 2 + Signed8(s.ram[r.pc + 1]) else r.pc + 2)
  {
    var v := ReadCompared(s, r, op, data, time);
    taken := CompareTaken(op, v, r.a);
    var pc := r.pc + 1;
    if taken {
      pc := pc + Signed8(s.ram[pc]);
    }
    r' := r.(pc := pc + 1);
  }

  /** JMP abs and JMP [abs+X]: `pc` becomes the word after
      the opcode, or the word stored at that address plus X (which may lie
      in the padding after $FFFF). */
  function Jump(ram: seq<byte>, r: Regs, op: byte, data: byte): (r': Regs)
    requires Decoded(ram, r, data) && op in {0x5F, 0x1F}
    ensures r' == r.(pc := r'.pc) && 0 <= r'.pc < U16
    ensures op == 0x5F ==> r'.pc == ram[r.pc] as int + 256 * ram[r.pc + 1] as int
    ensures op == 0x1F ==> var at := ReadProg16(ram, r.pc) + r.x;
                           r'.pc == ram[at] as int + 256 * ram[at + 1] as int
  {
    var target := ReadProg16(ram, r.pc);
    if op == 0x1F then r.(pc := ReadProg16(ram, target + r.x)) else r.(pc := target)
  }

  /** The subroutine calls: CALL, PCALL, TCALL n and BRK. */
  predicate IsCall(op: byte)
  {
    op in {0x3F, 0x4F, 0x0F} || op % 0x10 == 1
  }

  /** The length of a call instruction: three bytes for CALL, two for PCALL,
      one for TCALL and BRK. */
  function CallLength(op: byte): int
  {
    if op == 0x3F then 3 else if op == 0x4F then 2 else 1
  }

  /** The address a call pushes: the address of
      the next instruction. */
  function ReturnAddress(r: Regs, op: byte): (ret: int)
    requires IsCall(op)
    ensures ret == r.pc - 1 + CallLength(op)
  {
    if op == 0x3F then r.pc + 2 else if op == 0x4F then r.pc + 1 else r.pc
  }

  /** Where a call goes: the word after CALL, $FF00 plus the operand of
      PCALL, the vector at $FFDE - 2n for TCALL n and at $FFDE for BRK. */
  function CallTarget(ram: seq<byte>, r: Regs, op: byte, data: byte): (t: int)
    requires Decoded(ram, r, data) && IsCall(op)
    ensures 0 <= t < U16
    ensures op == 0x4F ==> t == 0xFF00 + data
    ensures op % 0x10 == 1 ==> t == ReadProg16(ram, 0xFFDE - 2 * (op / 0x10))
    ensures op == 0x0F ==> t == ReadProg16(ram, 0xFFDE)
  {
    if op == 0x3F then ReadProg16(ram, r.pc)
    else if op == 0x4F then 0xFF00 + data
    else if op == 0x0F then ReadProg16(ram, 0xFFDE)
    else ReadProg16(ram, 0xFFDE - op / 8)
  }

  /** The stack after a call: the return address, and for BRK then the
      status byte. */
  function CallStack(ram: seq<byte>, r: Regs, op: byte): (stk: Stk)
    requires |ram| == RamSize && ValidPointer(r.sp) && IsCall(op)
    ensures Fits(stk) && |stk.mem| == RamSize
  {
    var pushed := Push16(StackOf(ram, r.sp), ReturnAddress(r, op));
    if op == 0x0F then Push(pushed, Status(r)) else pushed
  }

  /** A push changes only page 1 of RAM. */
  lemma PushFrame(s: Stk, d: byte, a: int)
    requires Fits(s) && 0 <= a < |s.mem| && !(0x100 <= a < 0x200)
    ensures Push(s, d).mem[a] == s.mem[a]
  {
  }

  /** PUSH on the emulator's RAM: nothing outside page 1 changes. */
  method PushOn(s: Machine.Spc, sp: int, data: int) returns (sp': int)
    requires s.Valid() && ValidPointer(sp)
    modifies s.ram
    ensures s.Valid() && ValidPointer(sp')
    ensures StackOf(s.ram[..], sp') == Push(StackOf(old(s.ram[..]), sp), Byte(data))
    ensures s.Abs() == old(s.Abs()).(ram := s.ram[..])
  {
    ghost var before := StackOf(s.ram[..], sp);
    sp' := PushByte(s.ram, sp, data);
    forall a | 0x1_0000 <= a < RamSize
      ensures s.ram[a] == s.cfg.padFill
    {
      PushFrame(before, Byte(data), a);
    }
  }

  /** PUSH16 on the emulator's RAM: nothing outside page 1 changes. */
  method PushWordOn(s: Machine.Spc, sp: int, data: int) returns (sp': int)
    requires s.Valid() && ValidPointer(sp)
    modifies s.ram
    ensures s.Valid() && ValidPointer(sp')
    ensures StackOf(s.ram[..], sp') == Push16(StackOf(old(s.ram[..]), sp), data)
    ensures s.Abs() == old(s.Abs()).(ram := s.ram[..])
  {
    ghost var before := StackOf(s.ram[..], sp);
    sp' := PushWord(s.ram, sp, data);
    forall a | 0x1_0000 <= a < RamSize
      ensures s.ram[a] == s.cfg.padFill
    {
      PushFrame(before, Byte(data / 0x100), a);
      PushFrame(Push(before, Byte(data / 0x100)), Byte(data), a);
    }
  }

  /** CALL, PCALL and TCALL n: push the return
      address, then go to the target. */
  method Call(s: Machine.Spc, r: Regs, op: byte, data: byte) returns (r': Regs)
    requires s.Valid() && Decoded(s.ram[..], r, data) && IsCall(op) && op != 0x0F
    modifies s.Repr
    ensures s.Valid() && ValidRegs(r') && s.Control() == old(s.Control())
    ensures var stk := CallStack(old(s.ram[..]), r, op);
            s.Abs() == old(s.Abs()).(ram := stk.mem) && StackOf(s.ram[..], r'.sp) == stk
    ensures r' == r.(pc := CallTarget(old(s.ram[..]), r, op, data), sp := r'.sp)
  {
    var target := CallTarget(s.ram[..], r, op, data);
    var sp := PushWordOn(s, r.sp, ReturnAddress(r, op));
    r' := r.(pc := target, sp := sp);
  }

  /** BRK: push the return address and the status byte,
      set B and clear I, then go through the vector at $FFDE. */
  method Break(s: Machine.Spc, r: Regs, data: byte) returns (r': Regs)
    requires s.Valid() && Decoded(s.ram[..], r, data)
    modifies s.Repr
    ensures s.Valid() && ValidRegs(r') && s.Control() == old(s.Control())
    ensures var stk := CallStack(old(s.ram[..]), r, 0x0F);
            s.Abs() == old(s.Abs()).(ram := stk.mem) && StackOf(s.ram[..], r'.sp) == stk
    ensures r' == r.(pc := CallTarget(old(s.ram[..]), r, 0x0F, data), sp := r'.sp, psw := BreakStatus(r.psw))
  {
    var target := ReadProg16(s.ram[..], 0xFFDE);
    ghost var before := s.Abs();
    ghost var pushed := Push16(StackOf(s.ram[..], r.sp), r.pc);
    var sp := PushWordOn(s, r.sp, r.pc);
    assert s.Abs() == before.(ram := pushed.mem);
    var temp := Status(r);
    var psw := BreakStatus(r.psw);
    sp := PushOn(s, sp, temp);
    r' := r.(pc := target, sp := sp, psw := psw);
  }

  /** The flags BRK leaves: B set, I clear. */
  function BreakStatus(psw: byte): (r: byte)
    ensures Bit(r, 4) && !Bit(r, 2)
    ensures forall k :: 0 <= k < 8 && k != 4 && k != 2 ==> Bit(r, k) == Bit(psw, k)
  {
    WithBit(WithBit(psw, 4, true), 2, false)
  }

  /** A call then RET comes back to the instruction after the call, modulo
      $10000, with SP restored. */
  lemma CallThenReturn(ram: seq<byte>, r: Regs, op: byte)
    requires |ram| == RamSize && ValidPointer(r.sp) && IsCall(op) && op != 0x0F
    ensures Pop16(CallStack(ram, r, op)) ==
              ((r.pc - 1 + CallLength(op)) % U16, Stk(CallStack(ram, r, op).mem, GetSp(r.sp)))
  {
    Push16ThenPop16(StackOf(ram, r.sp), ReturnAddress(r, op));
  }

  /** BRK then RETI gives back the status byte and the address after the
      BRK, with SP restored. */
  lemma BreakThenReturnFromInterrupt(ram: seq<byte>, r: Regs)
    requires |ram| == RamSize && ValidPointer(r.sp)
    ensures ReturnFromInterrupt(CallStack(ram, r, 0x0F)) ==
              (Status(r), r.pc % U16, Stk(CallStack(ram, r, 0x0F).mem, GetSp(r.sp)))
  {
    BreakThenReturn(StackOf(ram, r.sp), r.pc, Status(r));
  }

  /** The flag variables for a status byte, as `SET_PSW` unpacks it. */
  function LoadStatus(r: Regs, p: byte): (r': Regs)
    ensures r' == r.(psw := r'.psw, c := r'.c, dp := r'.dp, nz := r'.nz) && Status(r') == p
    ensures ValidRegs(r) ==> ValidRegs(r')
  {
    var f := SetPsw(p);
    PswRoundTrip(p);
    r.(psw := f.psw, c := f.c, dp := f.dp, nz := f.nz)
  }

  /** RET: `pc` comes off the stack, low byte first, each
      byte wrapping within page 1. */
  method Return(s: Machine.Spc, r: Regs) returns (r': Regs)
    requires s.Valid() && ValidRegs(r)
    ensures ValidRegs(r')
    ensures var (pc, stk) := Pop16(StackOf(s.ram[..], r.sp));
            r' == r.(pc := pc, sp := r'.sp) && StackOf(s.ram[..], r'.sp) == stk
  {
    var pc, sp := PopWord(s.ram, r.sp);
    r' := r.(pc := pc, sp := sp);
  }

  /** RETI: the status byte, then `pc`, come off the stack;
      each pop wraps within page 1 (see `Stack.ReturnFromInterruptAsWritten`
      for the code as written). */
  method ReturnFromInterruptOp(s: Machine.Spc, r: Regs) returns (r': Regs)
    requires s.Valid() && ValidRegs(r)
    ensures ValidRegs(r')
    ensures var (p, pc, stk) := ReturnFromInterrupt(StackOf(s.ram[..], r.sp));
            r' == LoadStatus(r, p).(pc := pc, sp := r'.sp) && StackOf(s.ram[..], r'.sp) == stk
  {
    var p, pc, sp := ReturnFromInterruptOn(s.ram, r.sp);
    r' := LoadStatus(r, p).(pc := pc, sp := sp);
  }

  /** PUSH PSW/A/X/Y. */
  method PushRegister(s: Machine.Spc, r: Regs, op: byte) returns (r': Regs)
    requires s.Valid() && ValidRegs(r) && op in {0x0D, 0x2D, 0x4D, 0x6D}
    modifies s.Repr
    ensures s.Valid() && ValidRegs(r') && s.Control() == old(s.Control())
    ensures var v := if op == 0x0D then Status(r) else if op == 0x2D then r.a else if op == 0x4D then r.x else r.y;
            var stk := Push(StackOf(old(s.ram[..]), r.sp), v);
            s.Abs() == old(s.Abs()).(ram := stk.mem) && StackOf(s.ram[..], r'.sp) == stk &&
            r' == r.(sp := r'.sp)
  {
    var v := if op == 0x0D then Status(r) else if op == 0x2D then r.a else if op == 0x4D then r.x else r.y;
    var sp := PushOn(s, r.sp, v);
    r' := r.(sp := sp);
  }

  /** POP PSW/A/X/Y: the byte comes off the stack into the
      register, or into the flags through `SET_PSW`. */
  method PopRegister(s: Machine.Spc, r: Regs, op: byte) returns (r': Regs)
    requires s.Valid() && ValidRegs(r) && op in {0x8E, 0xAE, 0xCE, 0xEE}
    ensures ValidRegs(r')
    ensures var (v, stk) := Pop(StackOf(s.ram[..], r.sp));
            StackOf(s.ram[..], r'.sp) == stk &&
            r' == (if op == 0x8E then LoadStatus(r, v) else if op == 0xAE then r.(a := v)
                   else if op == 0xCE then r.(x := v) else r.(y := v)).(sp := r'.sp)
  {
    var v, sp := PopByte(s.ram, r.sp);
    if op == 0x8E {
      r' := LoadStatus(r, v).(sp := sp);
    } else if op == 0xAE {
      r' := r.(a := v, sp := sp);
    } else if op == 0xCE {
      r' := r.(x := v, sp := sp);
    } else {
      r' := r.(y := v, sp := sp);
    }
  }

  /** PUSH then POP of the same register gives it back and restores SP. */
  lemma PushThenPopRegister(mem: seq<byte>, r: Regs, v: byte)
    requires |mem| == RamSize && ValidPointer(r.sp)
    ensures var pushed := Push(StackOf(mem, r.sp), v);
            Pop(pushed) == (v, Stk(pushed.mem, GetSp(r.sp)))
  {
    PushThenPop(StackOf(mem, r.sp), v);
  }

  /** The one-flag instructions: CLRC, SETC, NOTC, CLRV, CLRP, SETP, EI, DI. */
  predicate IsFlagOp(op: byte)
  {
    op in {0x60, 0x80, 0xED, 0xE0, 0x20, 0x40, 0xA0, 0xC0}
  }

  /** CLRC, SETC, NOTC, CLRV, CLRP, SETP, EI and DI. */
  function FlagOp(r: Regs, op: byte): (r': Regs)
    requires IsFlagOp(op)
    ensures r' == r.(c := r'.c, psw := r'.psw, dp := r'.dp)
    ensures ValidRegs(r) ==> ValidRegs(r')
    ensures op == 0x60 ==> !Carry(r'.c)
    ensures op == 0x80 ==> Carry(r'.c)
    ensures op == 0xED ==> Carry(r'.c) == !Carry(r.c)
    ensures op in {0x60, 0x80, 0xED} ==> r'.psw == r.psw && r'.dp == r.dp
    ensures op == 0xE0 ==> !Overflow(r'.psw) && !HalfCarry(r'.psw) && Alu.SameButVH(r.psw, r'.psw)
    ensures op == 0x20 ==> r'.dp == 0
    ensures op == 0x40 ==> r'.dp == 0x100
    ensures op in {0xA0, 0xC0} ==>
              (Bit(r'.psw, 2) <==> op == 0xA0) && forall k :: 0 <= k < 8 && k != 2 ==> Bit(r'.psw, k) == Bit(r.psw, k)
    ensures op !in {0x60, 0x80, 0xED} ==> r'.c == r.c
    ensures op !in {0x20, 0x40} ==> r'.dp == r.dp
  {
    if op == 0x60 then
      BitIsDiv(0, 8);
      r.(c := 0)
    else if op == 0x80 then
      OnesBits(8);
      r.(c := -1)
    else if op == 0xED then
      assert Pow2(8) == 0x100;
      XorBit(r.c, Pow2(8), 8);
      SingleBit(8, 8);
      r.(c := Xor(r.c, 0x100))
    else if op == 0xE0 then r.(psw := Alu.WithVH(r.psw, false, false))
    else if op == 0x20 then r.(dp := 0)
    else if op == 0x40 then r.(dp := 0x100)
    else r.(psw := WithBit(r.psw, 2, op == 0xA0))
  }

  /** The bits of the status byte a flag instruction sets or clears: C, V
      and H, P, or I. */
  function FlagBits(op: byte): set<nat>
  {
    if op in {0x60, 0x80, 0xED} then {0} else if op == 0xE0 then {6, 3} else if op in {0x20, 0x40} then {5} else {2}
  }

  /** Seen in the packed status byte, each flag instruction changes its own
      bits and no other. */
  lemma {:induction false} FlagOpStatus(r: Regs, op: byte)
    requires IsFlagOp(op)
    ensures var before, after := Status(r), Status(FlagOp(r, op));
            forall k: nat :: k < 8 && k !in FlagBits(op) ==> Bit(after, k) == Bit(before, k)
    ensures Bit(Status(FlagOp(r, op)), 0) == (if op == 0xED then !Bit(Status(r), 0) else op != 0x60) || op !in {0x60, 0x80, 0xED}
    ensures op == 0xE0 ==> !Bit(Status(FlagOp(r, op)), 6) && !Bit(Status(FlagOp(r, op)), 3)
    ensures op in {0x20, 0x40} ==> Bit(Status(FlagOp(r, op)), 5) == (op == 0x40)
    ensures op in {0xA0, 0xC0} ==> Bit(Status(FlagOp(r, op)), 2) == (op == 0xA0)
  {
    var r' := FlagOp(r, op);
    if op in {0x60, 0x80, 0xED} {
      assert r'.psw == r.psw && r'.dp == r.dp && r'.nz == r.nz;
    } else if op == 0xE0 {
      assert r'.c == r.c && r'.dp == r.dp && r'.nz == r.nz;
    } else if op in {0x20, 0x40} {
      assert r'.c == r.c && r'.psw == r.psw && r'.nz == r.nz;
      BitIsDiv(0, 8);
      BitIsDiv(0x100, 8);
    } else {
      assert r'.c == r.c && r'.dp == r.dp && r'.nz == r.nz;
    }
    var before, after := Status(r), Status(r');
    forall k: nat | k < 8 && k !in FlagBits(op)
      ensures Bit(after, k) == Bit(before, k)
    {
      if k == 0 {
      } else if k == 1 {
      } else if k == 2 {
      } else if k == 3 {
      } else if k == 4 {
      } else if k == 5 {
      } else if k == 6 {
      } else {
        assert k == 7;
      }
    }
  }
}
