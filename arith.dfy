/** The 8-bit logic, arithmetic, increment and shift instructions of the
    interpreter loop (snes_spc/SNES_SPC.cpp, groups 4-7):
    OR, AND, EOR, CMP, ADC and SBC on A or on memory, the compares of X and Y,
    INC/DEC, the shifts and rotates, and XCN. */
module Arith {
  import opened Bytes
  import opened Bits
  import opened Psw
  import opened Adder
  import opened Alu
  import opened Smp
  import opened Cpu
  import Machine

  /** OR, AND and EOR (rows 0-2, `LOGICAL_OP`): each bit of
      the result combines the same bit of the two operands. */
  function Logic(row: int, lhs: byte, rhs: byte): (v: byte)
    requires 0 <= row < 3
    ensures row == 0 ==> forall k: nat :: Bit(v, k) == (Bit(lhs, k) || Bit(rhs, k))
    ensures row == 1 ==> forall k: nat :: Bit(v, k) == (Bit(lhs, k) && Bit(rhs, k))
    ensures row == 2 ==> forall k: nat :: Bit(v, k) == (Bit(lhs, k) != Bit(rhs, k))
  {
    if row == 0 then Or8(lhs, rhs) else if row == 1 then And8(lhs, rhs) else Xor8(lhs, rhs)
  }

  /** ADC and SBC (`adc_data`): SBC adds the complement of
      the operand. The sum, left unmasked in `nz` and in `c`, is
      `lhs + rhs + C` or `lhs - rhs - borrow` (modulo 256, with C set when
      nothing is borrowed); V is signed overflow and H the carry out of the
      low nibble. */
  function AddSubtract(lhs: byte, rhs: byte, c: int, psw: byte, subtract: bool): (r: Sum)
    ensures 0 <= r.nz < 512 && Shows(r.nz, r.nz % 256) && SameButVH(psw, r.psw)
    ensures !subtract ==>
              r.nz == lhs + rhs + BitValue(Carry(c)) && Carry(r.nz) == (r.nz >= 256) &&
              HalfCarry(r.psw) == (lhs % 16 + rhs % 16 + BitValue(Carry(c)) >= 16) &&
              Overflow(r.psw) == !(-128 <= Signed8(lhs) + Signed8(rhs) + BitValue(Carry(c)) < 128)
    ensures subtract ==>
              var borrow := 1 - BitValue(Carry(c));
              r.nz % 256 == (lhs - rhs - borrow) % 256 && Carry(r.nz) == (lhs - rhs - borrow >= 0) &&
              HalfCarry(r.psw) == (lhs % 16 - rhs % 16 - borrow >= 0) &&
              Overflow(r.psw) == !(-128 <= Signed8(lhs) - Signed8(rhs) - borrow < 128)
  {
    var sum := AddWithCarry(lhs, if subtract then 255 - rhs else rhs, c, psw);
    ShowsLowByte(sum.nz);
    if subtract then
      SubtractWithBorrow(lhs, rhs, c, psw);
      SubtractFlags(lhs, rhs, c, psw);
      sum
    else
      sum
  }

  /** `lhs OP rhs` for row `row` of the opcode map (0 OR, 1 AND, 2 EOR,
      3 CMP, 4 ADC, 5 SBC): the flag variables it leaves, with the result in
      `nz`. The logic rows keep C, CMP sets C when `lhs >= rhs`, and only ADC
      and SBC touch V and H. */
  function Operate(r: Regs, row: int, lhs: byte, rhs: byte): (r': Regs)
    requires 0 <= row < 6
    ensures r' == r.(nz := r'.nz, c := r'.c, psw := r'.psw)
    ensures 0 <= r'.nz < 512 && Shows(r'.nz, r'.nz % 256)
    ensures row < 4 ==> r'.nz < 256 && r'.psw == r.psw
    ensures row < 3 ==> r'.c == r.c && r'.nz == Logic(row, lhs, rhs)
    ensures row == 3 ==> Carry(r'.c) == (lhs >= rhs) && r'.nz == (lhs - rhs) % 256
    ensures row >= 4 ==> r'.c == r'.nz && Sum(r'.nz, r'.psw) == AddSubtract(lhs, rhs, r.c, r.psw, row == 5)
  {
    if row < 3 then
      var v := Logic(row, lhs, rhs);
      ShowsLowByte(v);
      r.(nz := v)
    else if row == 3 then
      var cmp := Compare(lhs, rhs);
      ShowsLowByte(cmp.nz);
      r.(nz := cmp.nz, c := cmp.c)
    else
      var sum := AddSubtract(lhs, rhs, r.c, r.psw, row == 5);
      r.(nz := sum.nz, c := sum.nz, psw := sum.psw)
  }

  /** OR/AND/EOR/CMP/ADC/SBC A,operand: the operand is the byte after the opcode, or the byte read
      at its address; A takes the result except for CMP. */
  method AccumulatorOp(s: Machine.Spc, r: Regs, op: byte, data: byte, time: int) returns (r': Regs)
    requires s.Valid() && Decoded(s.ram[..], r, data)
    requires op < 0xC0 && (IsAddrMode(op) || op % 0x20 == 0x08)
    modifies s.Repr
    ensures s.Valid() && ValidRegs(r') && s.Control() == old(s.Control())
    ensures var (v, st, pc) := if op % 0x20 == 0x08 then (data as int, old(s.Abs()), r.pc + 1)
                               else var o := ModeOperand(old(s.ram[..]), r, op, data);
                                    var (m, st) := Smp.Read(old(s.Abs()), o.addr, time, s.dsp);
                                    (m, st, o.pc);
            0 <= v < 256 && s.Abs() == st &&
            var ops := Operate(r, op / 0x20, r.a, v);
            r' == if op / 0x20 == 3 then ops.(pc := pc) else ops.(a := ops.nz % 256, pc := pc)
  {
    var v: int := data;
    var pc := r.pc + 1;
    if op % 0x20 != 0x08 {
      var o := ModeOperand(s.ram[..], r, op, data);
      v := s.Read(o.addr, time);
      pc := o.pc;
    }
    var ops := Operate(r, op / 0x20, r.a, v);
    if op / 0x20 == 3 {
      r' := ops.(pc := pc);
    } else {
      r' := ops.(a := Byte(ops.nz), pc := pc);
    }
  }

  /** The two operands of the memory-to-memory forms: the source, the destination address and the
      `pc` after the instruction. */
  datatype Pair = Pair(src: int, dst: int, pc: int, st: State)

  /** (X),(Y) reads the source at (Y) two cycles early and works on (X);
      dp,dp reads the source three cycles early; dp,#imm takes the byte after
      the opcode. The destination of both is the third byte of the
      instruction, in the direct page. */
  function Operands(st: State, r: Regs, op: byte, data: byte, time: int, dsp: DspReader): (p: Pair)
    requires Smp.Valid(st) && Decoded(st.ram, r, data) && op % 0x20 in {0x09, 0x18, 0x19}
    ensures Smp.Valid(p.st) && 0 <= p.src < 256
    ensures r.dp <= p.dst < r.dp + 0x100
    ensures p.pc == if op % 0x20 == 0x19 then r.pc else r.pc + 2
  {
    if op % 0x20 == 0x19 then
      var (v, st1) := Smp.Read(st, r.dp + r.y, time - 2, dsp);
      Pair(v, r.x + r.dp, r.pc, st1)
    else
      var (v, st1) := if op % 0x20 == 0x09 then Smp.Read(st, r.dp + data, time - 3, dsp) else (data as int, st);
      Pair(v, st1.ram[r.pc + 1] + r.dp, r.pc + 2, st1)
  }

  /** The operand reads of the memory-to-memory forms, as `Operands` says. */
  method ReadOperands(s: Machine.Spc, r: Regs, op: byte, data: byte, time: int) returns (src: int, dst: int, pc: int)
    requires s.Valid() && Decoded(s.ram[..], r, data) && op % 0x20 in {0x09, 0x18, 0x19}
    modifies s.Repr
    ensures s.Valid() && s.Control() == old(s.Control())
    ensures Pair(src, dst, pc, s.Abs()) == Operands(old(s.Abs()), r, op, data, time, s.dsp)
  {
    src := data;
    if op % 0x20 == 0x19 {
      src := s.Read(r.dp + r.y, time - 2);
      dst := r.x + r.dp;
      pc := r.pc;
    } else {
      if op % 0x20 == 0x09 {
        src := s.Read(r.dp + data, time - 3);
      }
      dst := s.ram[r.pc + 1] + r.dp;
      pc := r.pc + 2;
    }
  }

  /** OR/AND/EOR/ADC/SBC dst,src and CMP dst,src on memory: the destination
      is read one cycle early and, except for CMP, the result is written back
      (unmasked after ADC and SBC, as `cpu_write` casts it); A is untouched. */
  method MemoryOp(s: Machine.Spc, r: Regs, op: byte, data: byte, time: int) returns (r': Regs)
    requires s.Valid() && Decoded(s.ram[..], r, data)
    requires op < 0xC0 && op % 0x20 in {0x09, 0x18, 0x19}
    modifies s.Repr
    ensures s.Valid() && ValidRegs(r') && s.Control() == old(s.Control())
    ensures var p := Operands(old(s.Abs()), r, op, data, time, s.dsp);
            var (m, st) := Smp.Read(p.st, p.dst, time - 1, s.dsp);
            var ops := Operate(r, op / 0x20, m, p.src);
            r' == ops.(pc := p.pc) &&
            s.Abs() == if op / 0x20 == 3 then st else Smp.Write(st, s.cfg, ops.nz, p.dst, time)
  {
    var src, dst, pc := ReadOperands(s, r, op, data, time);
    ghost var st1 := s.Abs();
    var m := s.Read(dst, time - 1);
    assert (m, s.Abs()) == Smp.Read(st1, dst, time - 1, s.dsp);
    var ops := Operate(r, op / 0x20, m, src);
    if op / 0x20 != 3 {
      s.Write(ops.nz, dst, time);
    }
    r' := ops.(pc := pc);
  }

  /** CMP X,operand and CMP Y,operand: immediate, direct
      page or absolute; only C and the flags change. */
  method CompareIndex(s: Machine.Spc, r: Regs, op: byte, data: byte, time: int) returns (r': Regs)
    requires s.Valid() && Decoded(s.ram[..], r, data)
    requires op in {0xC8, 0x3E, 0x1E, 0xAD, 0x7E, 0x5E}
    modifies s.Repr
    ensures s.Valid() && ValidRegs(r') && s.Control() == old(s.Control())
    ensures var (v, st, pc) := if op in {0xC8, 0xAD} then (data as int, old(s.Abs()), r.pc + 1)
                               else if op in {0x3E, 0x7E} then
                                 var (m, st) := Smp.Read(old(s.Abs()), data + r.dp, time, s.dsp); (m, st, r.pc + 1)
                               else
                                 var (m, st) := Smp.Read(old(s.Abs()), ReadProg16(old(s.ram[..]), r.pc), time, s.dsp);
                                 (m, st, r.pc + 2);
            0 <= v < 256 && s.Abs() == st &&
            r' == Operate(r, 3, if op in {0xC8, 0x3E, 0x1E} then r.x else r.y, v).(pc := pc)
  {
    var v: int := data;
    var pc := r.pc + 1;
    if op in {0x3E, 0x7E} {
      v := s.Read(data + r.dp, time);
    } else if op in {0x1E, 0x5E} {
      v := s.Read(ReadProg16(s.ram[..], r.pc), time);
      pc := r.pc + 2;
    }
    r' := Operate(r, 3, if op in {0xC8, 0x3E, 0x1E} then r.x else r.y, v).(pc := pc);
  }

  /** INC A/X/Y and DEC A/X/Y: the register steps by one
      within the byte, and `nz`, left unmasked, shows the new value. */
  function StepRegister(r: Regs, op: byte): (r': Regs)
    requires op in {0xBC, 0x3D, 0xFC, 0x9C, 0x1D, 0xDC}
    ensures var delta := if op in {0xBC, 0x3D, 0xFC} then 1 else -1;
            var before := if op in {0xBC, 0x9C} then r.a else if op in {0x3D, 0x1D} then r.x else r.y;
            var after := if op in {0xBC, 0x9C} then r'.a else if op in {0x3D, 0x1D} then r'.x else r'.y;
            after == (before + delta) % 256 && Shows(r'.nz, after) &&
            r' == (if op in {0xBC, 0x9C} then r.(a := after) else if op in {0x3D, 0x1D} then r.(x := after)
                   else r.(y := after)).(nz := r'.nz)
  {
    var delta := if op in {0xBC, 0x3D, 0xFC} then 1 else -1;
    var reg := if op in {0xBC, 0x9C} then r.a else if op in {0x3D, 0x1D} then r.x else r.y;
    var nz := reg + delta;
    ShowsLowByte(nz);
    if op in {0xBC, 0x9C} then r.(nz := nz, a := Byte(nz))
    else if op in {0x3D, 0x1D} then r.(nz := nz, x := Byte(nz))
    else r.(nz := nz, y := Byte(nz))
  }

  /** The operand of a read-modify-write instruction in the columns $xB and
      $xC: dp, dp+X or abs. */
  function ModifyAddress(ram: seq<byte>, r: Regs, op: byte, data: byte): (o: Operand)
    requires Decoded(ram, r, data) && op % 0x20 in {0x0B, 0x1B, 0x0C}
    ensures 0 <= o.addr < U16
    ensures o.pc == if op % 0x20 == 0x0C then r.pc + 2 else r.pc + 1
    ensures op % 0x20 != 0x0C ==> r.dp <= o.addr < r.dp + 0x100
  {
    if op % 0x20 == 0x1B then Operand(Byte(data + r.x) + r.dp, r.pc + 1)
    else if op % 0x20 == 0x0B then Operand(data + r.dp, r.pc + 1)
    else Operand(ReadProg16(ram, r.pc), r.pc + 2)
  }

  /** Bit 5 of the opcode tells INC ($AB, $BB, $AC) from DEC ($8B, $9B, $8C). */
  lemma StepDirection(op: byte)
    requires op in {0x9B, 0xBB, 0x8B, 0xAB, 0x8C, 0xAC}
    ensures Bits.And(op / 16, 2) - 1 == if op in {0xBB, 0xAB, 0xAC} then 1 else -1
  {
    assert Pow2(1) == 2;
    AndSingle(op / 16, 1);
    BitIsDiv(op / 16, 1);
  }

  /** INC and DEC on memory: read one cycle early, write
      `m + 1` or `m - 1` unmasked (so `cpu_write` casts it), and leave that
      value in `nz`, where it shows the stored byte. */
  method StepMemory(s: Machine.Spc, r: Regs, op: byte, data: byte, time: int) returns (r': Regs)
    requires s.Valid() && Decoded(s.ram[..], r, data)
    requires op in {0x9B, 0xBB, 0x8B, 0xAB, 0x8C, 0xAC}
    modifies s.Repr
    ensures s.Valid() && ValidRegs(r') && s.Control() == old(s.Control())
    ensures var o := ModifyAddress(old(s.ram[..]), r, op, data);
            var (m, st) := Smp.Read(old(s.Abs()), o.addr, time - 1, s.dsp);
            var delta := if op in {0xBB, 0xAB, 0xAC} then 1 else -1;
            s.Abs() == Smp.Write(st, s.cfg, m + delta, o.addr, time) &&
            r' == r.(nz := m + delta, pc := o.pc) && Shows(r'.nz, (m + delta) % 256)
  {
    var o := ModifyAddress(s.ram[..], r, op, data);
    var nz := Bits.And(op / 16, 2) - 1;
    StepDirection(op);
    var m := s.Read(o.addr, time - 1);
    nz := nz + m;
    ShowsLowByte(nz);
    s.Write(nz, o.addr, time);
    r' := r.(nz := nz, pc := o.pc);
  }

  /** One shift or rotate of `v`: the left shifts (ASL,
      ROL, opcodes below $40) move the bits up, the right ones (LSR, ROR)
      down; ASL and LSR shift a zero in, ROL and ROR the carry, and the bit
      shifted out becomes the carry. The result is left unmasked. */
  function Shift(op: byte, v: byte, c: int): (r: Shifted)
    requires op < 0x80
    ensures var cin := if op / 0x20 in {0, 2} then 0 else BitValue(Carry(c));
            0 <= r.nz < 512 && Shows(r.nz, r.nz % 256) &&
            if op < 0x40 then r.nz == 2 * v + cin && Carry(r.c) == (v >= 128)
            else r.nz == 128 * cin + v / 2 && Carry(r.c) == (v % 2 == 1)
  {
    var cin := if op / 0x20 in {0, 2} then 0 else c;
    assert Carry(0) == false by {
      BitIsDiv(0, 8);
    }
    if op < 0x40 then
      RotateLeft(v, cin)
    else
      var sh := RotateRight(v, cin);
      ShowsLowByte(sh.nz);
      sh
  }

  /** ASL/ROL/LSR/ROR A: A takes the shifted byte and the
      flags show it. */
  function ShiftA(r: Regs, op: byte): (r': Regs)
    requires op in {0x1C, 0x3C, 0x5C, 0x7C}
    ensures r' == r.(a := r'.a, nz := r'.nz, c := r'.c) && Shows(r'.nz, r'.a)
    ensures var sh := Shift(op, r.a, r.c); r'.a == sh.nz % 256 && r'.c == sh.c
  {
    var sh := Shift(op, r.a, r.c);
    r.(c := sh.c, nz := sh.nz, a := Byte(sh.nz))
  }

  /** ROL A then ROR A gives A and the carry back. */
  lemma RotateARoundTrip(r: Regs)
    ensures var r2 := ShiftA(ShiftA(r, 0x3C), 0x7C);
            r2.a == r.a && Carry(r2.c) == Carry(r.c)
  {
    RotateLeftRight(r.a, r.c);
  }

  /** ASL/ROL/LSR/ROR on memory: read one cycle early,
      shift, write the result back (unmasked after a left shift, so
      `cpu_write` casts it) and leave it in `nz`. */
  method ShiftMemory(s: Machine.Spc, r: Regs, op: byte, data: byte, time: int) returns (r': Regs)
    requires s.Valid() && Decoded(s.ram[..], r, data)
    requires op in {0x0B, 0x1B, 0x0C, 0x2B, 0x3B, 0x2C, 0x4B, 0x5B, 0x4C, 0x6B, 0x7B, 0x6C}
    modifies s.Repr
    ensures s.Valid() && ValidRegs(r') && s.Control() == old(s.Control())
    ensures var o := ModifyAddress(old(s.ram[..]), r, op, data);
            var (m, st) := Smp.Read(old(s.Abs()), o.addr, time - 1, s.dsp);
            var sh := Shift(op, m, r.c);
            s.Abs() == Smp.Write(st, s.cfg, sh.nz, o.addr, time) && r' == r.(nz := sh.nz, c := sh.c, pc := o.pc)
  {
    var o := ModifyAddress(s.ram[..], r, op, data);
    var m := s.Read(o.addr, time - 1);
    var sh := Shift(op, m, r.c);
    s.Write(sh.nz, o.addr, time);
    r' := r.(nz := sh.nz, c := sh.c, pc := o.pc);
  }

  /** XCN: swap the nibbles of A; the flags show the result. */
  function ExchangeA(r: Regs): (r': Regs)
    ensures r' == r.(a := r'.a, nz := r'.nz) && Shows(r'.nz, r'.a)
    ensures r'.a / 16 == r.a % 16 && r'.a % 16 == r.a / 16
  {
    var v := ExchangeNibbles(r.a);
    ShowsByte(v);
    r.(a := v, nz := v)
  }

  /** XCN twice gives A back. */
  lemma ExchangeATwice(r: Regs)
    ensures ExchangeA(ExchangeA(r)).a == r.a
  {
    ExchangeTwice(r.a);
  }
}
