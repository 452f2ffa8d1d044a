/** The 8-bit data transfers of the interpreter loop (snes_spc/SNES_SPC.cpp,
    groups 1-3): loads into A, X and Y, stores
    from them, and the register-to-register moves. Each instruction is a method
    on the emulator object, proved to leave memory as `Smp.Read` and
    `Smp.Write` say and the registers as the instruction means. */
module Moves {
  import opened Bytes
  import opened Psw
  import opened Smp
  import opened Cpu
  import Alu
  import Stack
  import Machine

  /** MOV A,addr: A takes the byte at the operand, and the
      flags show it. */
  method LoadA(s: Machine.Spc, r: Regs, op: byte, data: byte, time: int) returns (r': Regs)
    requires s.Valid() && Decoded(s.ram[..], r, data)
    requires op in {0xE5, 0xE6, 0xE7, 0xF4, 0xF5, 0xF6, 0xF7}
    modifies s.Repr
    ensures s.Valid() && ValidRegs(r') && s.Control() == old(s.Control())
    ensures var o := ModeOperand(old(s.ram[..]), r, op, data);
            var (v, st) := Smp.Read(old(s.Abs()), o.addr, time, s.dsp);
            s.Abs() == st && r' == r.(a := v, nz := v, pc := o.pc)
  {
    var o := ModeOperand(s.ram[..], r, op, data);
    var v := s.Read(o.addr, time);
    r' := r.(a := v, nz := v, pc := o.pc);
  }

  /** MOV A,dp, through the timer shortcut. */
  method LoadADirect(s: Machine.Spc, r: Regs, data: byte, time: int) returns (r': Regs)
    requires s.Valid() && Decoded(s.ram[..], r, data)
    modifies s.Repr
    ensures s.Valid() && ValidRegs(r') && s.Control() == old(s.Control())
    ensures var (v, st) := ReadTimer(old(s.Abs()), r.dp + data, time, s.dsp);
            s.Abs() == st && r' == r.(a := v, nz := v, pc := r.pc + 1)
  {
    ReadTimerIsRead(s.Abs(), r.dp + data, time, s.dsp);
    var v := s.Read(r.dp + data, time);
    r' := r.(a := v, nz := v, pc := r.pc + 1);
  }

  /** MOV A,(X)+: load through X one cycle early, then step X
      on within the byte. */
  method LoadAIncrement(s: Machine.Spc, r: Regs, data: byte, time: int) returns (r': Regs)
    requires s.Valid() && Decoded(s.ram[..], r, data)
    modifies s.Repr
    ensures s.Valid() && ValidRegs(r') && s.Control() == old(s.Control())
    ensures var (v, st) := Smp.Read(old(s.Abs()), r.x + r.dp, time - 1, s.dsp);
            s.Abs() == st && r' == r.(a := v, nz := v, x := (r.x + 1) % 256)
  {
    var temp := r.x + r.dp;
    var x := Byte(r.x + 1);
    var v := s.Read(temp, time - 1);
    r' := r.(a := v, nz := v, x := x);
  }

  /** MOV A,#imm, MOV X,#imm and MOV Y,#imm: the register takes the operand byte and the flags show it. */
  function LoadImmediate(r: Regs, op: byte, data: byte): (r': Regs)
    requires op in {0xE8, 0xCD, 0x8D}
    ensures Shows(r'.nz, data) && r'.pc == r.pc + 1
    ensures r' == r.(a := r'.a, x := r'.x, y := r'.y, nz := r'.nz, pc := r'.pc)
    ensures (if op == 0xE8 then r'.a else if op == 0xCD then r'.x else r'.y) == data
    ensures op != 0xE8 ==> r'.a == r.a
    ensures op != 0xCD ==> r'.x == r.x
    ensures op != 0x8D ==> r'.y == r.y
  {
    ShowsByte(data);
    if op == 0xE8 then r.(a := data, nz := data, pc := r.pc + 1)
    else if op == 0xCD then r.(x := data, nz := data, pc := r.pc + 1)
    else r.(y := data, nz := data, pc := r.pc + 1)
  }

  /** Where MOV X,dp / MOV X,dp+Y / MOV X,abs and MOV Y,dp / MOV Y,dp+X /
      MOV Y,abs read: the direct page, indexed within it by
      the other register, or the absolute word after the opcode. */
  function IndexLoadAddress(ram: seq<byte>, r: Regs, op: byte, data: byte): (o: Operand)
    requires Decoded(ram, r, data) && op in {0xF8, 0xF9, 0xE9, 0xEB, 0xFB, 0xEC}
    ensures 0 <= o.addr < U16
    ensures op in {0xE9, 0xEC} ==> o.pc == r.pc + 2
    ensures op !in {0xE9, 0xEC} ==> o.pc == r.pc + 1 && r.dp <= o.addr < r.dp + 0x100
  {
    if op == 0xF9 then Operand(Byte(data + r.y) + r.dp, r.pc + 1)
    else if op == 0xFB then Operand(Byte(data + r.x) + r.dp, r.pc + 1)
    else if op == 0xE9 || op == 0xEC then Operand(ReadProg16(ram, r.pc), r.pc + 2)
    else Operand(data + r.dp, r.pc + 1)
  }

  /** MOV X,... and MOV Y,... from memory: X or Y takes the
      byte and the flags show it. MOV X,abs goes through `cpu_read`, the
      others through the timer shortcut (the same, by `ReadTimerIsRead`). */
  method LoadIndex(s: Machine.Spc, r: Regs, op: byte, data: byte, time: int) returns (r': Regs)
    requires s.Valid() && Decoded(s.ram[..], r, data)
    requires op in {0xF8, 0xF9, 0xE9, 0xEB, 0xFB, 0xEC}
    modifies s.Repr
    ensures s.Valid() && ValidRegs(r') && s.Control() == old(s.Control())
    ensures var o := IndexLoadAddress(old(s.ram[..]), r, op, data);
            var (v, st) := if op == 0xE9 then Smp.Read(old(s.Abs()), o.addr, time, s.dsp)
                           else ReadTimer(old(s.Abs()), o.addr, time, s.dsp);
            s.Abs() == st && 0 <= v < 256 &&
            r' == if op in {0xF8, 0xF9, 0xE9} then r.(x := v, nz := v, pc := o.pc)
                  else r.(y := v, nz := v, pc := o.pc)
  {
    var o := IndexLoadAddress(s.ram[..], r, op, data);
    ReadTimerIsRead(s.Abs(), o.addr, time, s.dsp);
    var v := s.Read(o.addr, time);
    if op in {0xF8, 0xF9, 0xE9} {
      r' := r.(x := v, nz := v, pc := o.pc);
    } else {
      r' := r.(y := v, nz := v, pc := o.pc);
    }
  }

  /** MOV addr,A: A goes to the operand through `cpu_write`. */
  method StoreA(s: Machine.Spc, r: Regs, op: byte, data: byte, time: int) returns (r': Regs)
    requires s.Valid() && Decoded(s.ram[..], r, data)
    requires op in {0xC5, 0xC6, 0xC7, 0xD4, 0xD5, 0xD6, 0xD7}
    modifies s.Repr
    ensures s.Valid() && ValidRegs(r') && s.Control() == old(s.Control())
    ensures var o := ModeOperand(old(s.ram[..]), r, op, data);
            s.Abs() == Smp.Write(old(s.Abs()), s.cfg, r.a, o.addr, time) && r' == r.(pc := o.pc)
  {
    var o := ModeOperand(s.ram[..], r, op, data);
    s.Write(r.a, o.addr, time);
    r' := r.(pc := o.pc);
  }

  /** MOV dp,A, through the inline store (the same as
      `cpu_write`, by `WriteDirectAIsWrite`). */
  method StoreADirect(s: Machine.Spc, r: Regs, data: byte, time: int) returns (r': Regs)
    requires s.Valid() && Decoded(s.ram[..], r, data)
    modifies s.Repr
    ensures s.Valid() && ValidRegs(r') && s.Control() == old(s.Control())
    ensures s.Abs() == WriteDirectA(old(s.Abs()), s.cfg, r.a, r.dp + data, time)
    ensures r' == r.(pc := r.pc + 1)
  {
    WriteDirectAIsWrite(s.Abs(), s.cfg, r.a, r.dp + data, time);
    s.Write(r.a, r.dp + data, time);
    r' := r.(pc := r.pc + 1);
  }

  /** The value MOV dp,#imm and MOV dp,dp store, and the state after reading
      it: the immediate byte, or the source byte read two cycles early through
      the timer shortcut and marked as not read before the write
      (`no_read_before_write`). */
  function DirectSource(st: State, r: Regs, op: byte, data: byte, time: int, dsp: DspReader): (p: (int, State))
    requires Smp.Valid(st) && ValidRegs(r)
    ensures Smp.Valid(p.1)
  {
    if op == 0xFA then
      var (v, st1) := ReadTimer(st, r.dp + data, time - 2, dsp);
      (v + NoReadBeforeWrite, st1)
    else (data as int, st)
  }

  /** MOV dp,#imm and MOV dp,dp: the destination is the third
      byte of the instruction, written through the inline store. */
  method StoreDirect(s: Machine.Spc, r: Regs, op: byte, data: byte, time: int) returns (r': Regs)
    requires s.Valid() && Decoded(s.ram[..], r, data) && (op == 0x8F || op == 0xFA)
    modifies s.Repr
    ensures s.Valid() && ValidRegs(r') && s.Control() == old(s.Control()) && r' == r.(pc := r.pc + 2)
    ensures var (value, st) := DirectSource(old(s.Abs()), r, op, data, time, s.dsp);
            s.Abs() == WriteDirect(st, s.cfg, value, r.dp + old(s.ram[r.pc + 1]), time)
  {
    var value := ReadSource(s, r, op, data, time);
    var addr := r.dp + s.ram[r.pc + 1];
    WriteDirectIsWrite(s.Abs(), s.cfg, value, addr, time);
    s.Write(value, addr, time);
    r' := r.(pc := r.pc + 2);
  }

  /** Take the value to store as `DirectSource` says. */
  method ReadSource(s: Machine.Spc, r: Regs, op: byte, data: byte, time: int) returns (value: int)
    requires s.Valid() && ValidRegs(r)
    modifies s.Repr
    ensures s.Valid() && s.Control() == old(s.Control()) && s.ram[..] == old(s.ram[..])
    ensures (value, s.Abs()) == DirectSource(old(s.Abs()), r, op, data, time, s.dsp)
  {
    value := data;
    if op == 0xFA {
      ReadTimerIsRead(s.Abs(), r.dp + data, time - 2, s.dsp);
      var temp := s.Read(r.dp + data, time - 2);
      value := temp + NoReadBeforeWrite;
    }
  }

  /** MOV abs,X and MOV abs,Y. */
  method StoreIndexAbsolute(s: Machine.Spc, r: Regs, op: byte, data: byte, time: int) returns (r': Regs)
    requires s.Valid() && Decoded(s.ram[..], r, data) && (op == 0xC9 || op == 0xCC)
    modifies s.Repr
    ensures s.Valid() && ValidRegs(r') && s.Control() == old(s.Control()) && r' == r.(pc := r.pc + 2)
    ensures s.Abs() == Smp.Write(old(s.Abs()), s.cfg, if op == 0xC9 then r.x else r.y,
                                 ReadProg16(old(s.ram[..]), r.pc), time)
  {
    var temp := if op == 0xC9 then r.x else r.y;
    s.Write(temp, ReadProg16(s.ram[..], r.pc), time);
    r' := r.(pc := r.pc + 2);
  }

  /** MOV dp,X / MOV dp+Y,X and MOV dp,Y / MOV dp+X,Y. */
  method StoreIndexDirect(s: Machine.Spc, r: Regs, op: byte, data: byte, time: int) returns (r': Regs)
    requires s.Valid() && Decoded(s.ram[..], r, data) && op in {0xD8, 0xD9, 0xCB, 0xDB}
    modifies s.Repr
    ensures s.Valid() && ValidRegs(r') && s.Control() == old(s.Control()) && r' == r.(pc := r.pc + 1)
    ensures var offset := if op == 0xD9 then Byte(data + r.y) else if op == 0xDB then Byte(data + r.x) else data;
            s.Abs() == Smp.Write(old(s.Abs()), s.cfg, if op in {0xD8, 0xD9} then r.x else r.y,
                                 offset + r.dp, time)
  {
    var offset := if op == 0xD9 then Byte(data + r.y) else if op == 0xDB then Byte(data + r.x) else data;
    s.Write(if op in {0xD8, 0xD9} then r.x else r.y, offset + r.dp, time);
    r' := r.(pc := r.pc + 1);
  }

  /** MOV A,X, MOV A,Y, MOV X,A, MOV Y,A, MOV X,SP and MOV SP,X (lines
      999-1025): the destination becomes the source and, except for MOV SP,X,
      the flags show it; nothing else changes. */
  function Transfer(r: Regs, op: byte): (r': Regs)
    requires ValidRegs(r) && op in {0x7D, 0xDD, 0x5D, 0xFD, 0x9D, 0xBD}
    ensures ValidRegs(r') && r'.pc == r.pc && r'.psw == r.psw && r'.c == r.c && r'.dp == r.dp
    ensures op == 0x7D ==> r' == r.(a := r.x, nz := r'.nz) && Shows(r'.nz, r.x)
    ensures op == 0xDD ==> r' == r.(a := r.y, nz := r'.nz) && Shows(r'.nz, r.y)
    ensures op == 0x5D ==> r' == r.(x := r.a, nz := r'.nz) && Shows(r'.nz, r.a)
    ensures op == 0xFD ==> r' == r.(y := r.a, nz := r'.nz) && Shows(r'.nz, r.a)
    ensures op == 0x9D ==> r' == r.(x := Stack.GetSp(r.sp), nz := r'.nz) && Shows(r'.nz, Stack.GetSp(r.sp))
    ensures op == 0xBD ==> r' == r.(sp := r'.sp) && Stack.GetSp(r'.sp) == r.x
  {
    ShowsByte(r.x);
    ShowsByte(r.y);
    ShowsByte(r.a);
    ShowsByte(Stack.GetSp(r.sp));
    match op
    case 0x7D => r.(a := r.x, nz := r.x)
    case 0xDD => r.(a := r.y, nz := r.y)
    case 0x5D => r.(x := r.a, nz := r.a)
    case 0xFD => r.(y := r.a, nz := r.a)
    case 0x9D => r.(x := Stack.GetSp(r.sp), nz := Stack.GetSp(r.sp))
    case 0xBD => r.(sp := Stack.SetSp(r.x))
  }

  /** X after MOV (X)+,A as written: `x++` on the `int` that holds
      X, with no cast back to a byte, so X = $FF becomes 256. */
  function StoreIncrementXAsWritten(x: byte): (r: int)
    ensures r == x + 1
  {
    x + 1
  }

  /** With X = $FF, MOV (X)+,A as written leaves 256 in X, and a following
      CMP X,#0 finds X below 0 (C clear), where the SPC700's X has wrapped to
      0 and the compare sets C, as it does after MOV A,(X)+, which casts. */
  lemma StoreIncrementOverflows()
    ensures StoreIncrementXAsWritten(0xFF) == 256
    ensures !Carry(Alu.Compare(StoreIncrementXAsWritten(0xFF), 0).c)
    ensures Carry(Alu.Compare((0xFF + 1) % 256, 0).c)
  {
    assert Bits.Not(256) == -257;
    assert Bits.Bit(-257, 8) == false by {
      Bits.BitIsDiv(-257, 8);
      assert Bits.Pow2(8) == 256;
    }
  }

  /** MOV (X)+,A: A goes to the direct-page byte at X,
      marked as not read before the write, and X steps on within the byte. */
  method StoreAIncrement(s: Machine.Spc, r: Regs, data: byte, time: int) returns (r': Regs)
    requires s.Valid() && Decoded(s.ram[..], r, data)
    modifies s.Repr
    ensures s.Valid() && ValidRegs(r') && s.Control() == old(s.Control())
    ensures s.Abs() == Smp.Write(old(s.Abs()), s.cfg, r.a + NoReadBeforeWrite, r.dp + r.x, time)
    ensures r' == r.(x := (r.x + 1) % 256)
  {
    s.Write(r.a + NoReadBeforeWrite, r.dp + r.x, time);
    r' := r.(x := Byte(r.x + 1));
  }
}
