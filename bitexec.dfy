/** The one-bit instructions of the interpreter loop (snes_spc/SNES_SPC.cpp,
    group 15): SET1/CLR1 on a direct-page bit,
    TSET1/TCLR1 on an absolute byte, and the carry instructions on a
    `mem.bit` operand, whose word holds a 13-bit address and a bit number.
    The bit arithmetic is in `BitOps`; here each instruction reads and
    writes memory at its cycle offsets. */
module BitExec {
  import opened Bytes
  import opened Bits
  import opened Psw
  import opened Smp
  import opened Cpu
  import BitOps
  import Machine

  /** SET1/CLR1 dp.bit: read the byte a cycle early, set or
      clear bit `op >> 5` (see `BitOps.SetClear1Bits`) and write it back. */
  method SetClearBit(s: Machine.Spc, r: Regs, op: byte, data: byte, time: int) returns (r': Regs)
    requires s.Valid() && Decoded(s.ram[..], r, data) && op % 0x10 == 2
    modifies s.Repr
    ensures s.Valid() && ValidRegs(r') && s.Control() == old(s.Control())
    ensures var (v, st) := Smp.Read(old(s.Abs()), r.dp + data, time - 1, s.dsp);
            0 <= v < 256 && s.Abs() == Smp.Write(st, s.cfg, BitOps.SetClear1(op, v), r.dp + data, time)
    ensures r' == r.(pc := r.pc + 1)
  {
    var addr := r.dp + data;
    var v := s.Read(addr, time - 1);
    ghost var st1 := s.Abs();
    s.Write(BitOps.SetClear1(op, v), addr, time);
    assert s.Abs() == Smp.Write(st1, s.cfg, BitOps.SetClear1(op, v), addr, time);
    r' := r.(pc := r.pc + 1);
  }

  /** The address word after the opcode of the absolute and `mem.bit`
      instructions. */
  function Operand16(ram: seq<byte>, r: Regs, data: byte): (w: int)
    requires Decoded(ram, r, data)
    ensures 0 <= w < U16 && w == data as int + 256 * ram[r.pc + 1] as int
  {
    ReadProg16(ram, r.pc)
  }

  /** The flags of TSET1/TCLR1: those of A minus the byte, so Z tells whether
      A equals it. */
  function TestFlags(a: byte, v: byte): (nz: int)
    ensures Shows(nz, (a - v) % 256) && (Zero(nz) <==> v == a)
  {
    ShowsByte(Byte(a - v));
    Byte(a - v)
  }

  /** TSET1/TCLR1 abs: read the byte two cycles early, set
      the flags from A minus it, then set (TSET1) or clear (TCLR1) the bits of
      A in it. */
  method TestSetBits(s: Machine.Spc, r: Regs, op: byte, data: byte, time: int) returns (r': Regs)
    requires s.Valid() && Decoded(s.ram[..], r, data) && op in {0x0E, 0x4E}
    modifies s.Repr
    ensures s.Valid() && ValidRegs(r') && s.Control() == old(s.Control())
    ensures var addr := Operand16(old(s.ram[..]), r, data);
            var (v, st) := Smp.Read(old(s.Abs()), addr, time - 2, s.dsp);
            0 <= v < 256 &&
            s.Abs() == Smp.Write(st, s.cfg, BitOps.TestSet1(r.a, v, op == 0x0E), addr, time) &&
            r' == r.(nz := TestFlags(r.a, v), pc := r.pc + 2)
  {
    var addr := Operand16(s.ram[..], r, data);
    var v := s.Read(addr, time - 2);
    var nz := TestFlags(r.a, v);
    ghost var st1 := s.Abs();
    s.Write(BitOps.TestSet1(r.a, v, op == 0x0E), addr, time);
    assert s.Abs() == Smp.Write(st1, s.cfg, BitOps.TestSet1(r.a, v, op == 0x0E), addr, time);
    r' := r.(nz := nz, pc := r.pc + 2);
  }

  /** AND1, AND1 /, OR1, OR1 /, EOR1 and MOV1 C on a `mem.bit` operand. */
  predicate IsCarryBitOp(op: byte)
  {
    op in {0x4A, 0x6A, 0x0A, 0x2A, 0x8A, 0xAA}
  }

  /** When `CPU_mem_bit` reads: on time for AND1 and MOV1, a cycle early for
      OR1 and EOR1. */
  function MemBitTime(op: byte, time: int): int
  {
    if op in {0x4A, 0x6A, 0xAA} then time else time - 1
  }

  /** The new `c` of a carry instruction, from the old one and the bit `m`
      that `CPU_mem_bit` returns at bit 8. */
  function CarryOp(op: byte, c: int, m: int): (r: int)
    requires IsCarryBitOp(op)
    ensures Carry(r) == CarryMeaning(op, Carry(c), Bit(m, 8))
  {
    BitOps.CarryLogic(c, m);
    if op == 0x4A then And(c, m)
    else if op == 0x6A then And(c, Not(m))
    else if op == 0x0A then Or(c, m)
    else if op == 0x2A then Or(c, Not(m))
    else if op == 0x8A then Xor(c, m)
    else m
  }

  /** What each carry instruction means: C and the bit, C and not the bit, C
      or the bit, C or not the bit, C xor the bit, or the bit itself. */
  function CarryMeaning(op: byte, carry: bool, b: bool): bool
    requires IsCarryBitOp(op)
  {
    if op == 0x4A then carry && b
    else if op == 0x6A then carry && !b
    else if op == 0x0A then carry || b
    else if op == 0x2A then carry || !b
    else if op == 0x8A then carry != b
    else b
  }

  /** The C operators on `c` act on the carry as the boolean operators. */
  lemma CarryOpMeaning(op: byte, c: int, t: byte, bit: nat)
    requires IsCarryBitOp(op) && bit < 8
    ensures Carry(CarryOp(op, c, BitOps.MemBit(t, bit))) == CarryMeaning(op, Carry(c), Bit(t, bit))
  {
    var m := BitOps.MemBit(t, bit);
    BitOps.CarryLogic(c, m);
    BitOps.SmallPowers();
    SingleBit(8, 8);
    ZeroBits(8);
  }

  /** AND1, OR1, EOR1 and MOV1 C: the byte at
      the low 13 bits of the operand word is read, and C becomes the
      combination of C and bit `word >> 13` of that byte. */
  method CarryBit(s: Machine.Spc, r: Regs, op: byte, data: byte, time: int) returns (r': Regs)
    requires s.Valid() && Decoded(s.ram[..], r, data) && IsCarryBitOp(op)
    modifies s.Repr
    ensures s.Valid() && ValidRegs(r') && s.Control() == old(s.Control())
    ensures var w := Operand16(old(s.ram[..]), r, data);
            var (v, st) := Smp.Read(old(s.Abs()), BitOps.BitAddress(w), MemBitTime(op, time), s.dsp);
            0 <= v < 256 && s.Abs() == st &&
            Carry(r'.c) == CarryMeaning(op, Carry(r.c), Bit(v, BitOps.BitNumber(w)))
    ensures r' == r.(c := r'.c, pc := r.pc + 2)
  {
    var w := Operand16(s.ram[..], r, data);
    var v := s.Read(BitOps.BitAddress(w), MemBitTime(op, time));
    var m := BitOps.MemBit(v, BitOps.BitNumber(w));
    CarryOpMeaning(op, r.c, v, BitOps.BitNumber(w));
    r' := r.(c := CarryOp(op, r.c, m), pc := r.pc + 2);
  }

  /** NOT1 mem.bit: read the byte a cycle early, flip the
      bit (see `BitOps.FlipBitBits`) and write it back. */
  method FlipMemoryBit(s: Machine.Spc, r: Regs, data: byte, time: int) returns (r': Regs)
    requires s.Valid() && Decoded(s.ram[..], r, data)
    modifies s.Repr
    ensures s.Valid() && ValidRegs(r') && s.Control() == old(s.Control())
    ensures var w := Operand16(old(s.ram[..]), r, data);
            var addr := BitOps.BitAddress(w);
            var (v, st) := Smp.Read(old(s.Abs()), addr, time - 1, s.dsp);
            0 <= v < 256 && s.Abs() == Smp.Write(st, s.cfg, BitOps.FlipBit(v, BitOps.BitNumber(w)), addr, time)
    ensures r' == r.(pc := r.pc + 2)
  {
    var w := Operand16(s.ram[..], r, data);
    var addr := BitOps.BitAddress(w);
    var v := s.Read(addr, time - 1);
    ghost var st1 := s.Abs();
    s.Write(BitOps.FlipBit(v, BitOps.BitNumber(w)), addr, time);
    assert s.Abs() == Smp.Write(st1, s.cfg, BitOps.FlipBit(v, BitOps.BitNumber(w)), addr, time);
    r' := r.(pc := r.pc + 2);
  }

  /** MOV1 mem.bit,C: read the byte two cycles early, put
      C in the bit (see `BitOps.PutBitBits`) and write it back without the
      read-before-write. */
  method StoreCarryBit(s: Machine.Spc, r: Regs, data: byte, time: int) returns (r': Regs)
    requires s.Valid() && Decoded(s.ram[..], r, data)
    modifies s.Repr
    ensures s.Valid() && ValidRegs(r') && s.Control() == old(s.Control())
    ensures var w := Operand16(old(s.ram[..]), r, data);
            var addr := BitOps.BitAddress(w);
            var (v, st) := Smp.Read(old(s.Abs()), addr, time - 2, s.dsp);
            0 <= v < 256 &&
            s.Abs() == Smp.Write(st, s.cfg, BitOps.PutBit(v, BitOps.BitNumber(w), r.c) + NoReadBeforeWrite, addr, time)
    ensures r' == r.(pc := r.pc + 2)
  {
    var w := Operand16(s.ram[..], r, data);
    var addr := BitOps.BitAddress(w);
    var v := s.Read(addr, time - 2);
    var temp := BitOps.PutBit(v, BitOps.BitNumber(w), r.c);
    ghost var st1 := s.Abs();
    s.Write(temp + NoReadBeforeWrite, addr, time);
    assert s.Abs() == Smp.Write(st1, s.cfg, temp + NoReadBeforeWrite, addr, time);
    r' := r.(pc := r.pc + 2);
  }

  /** MOV1 mem.bit,C then MOV1 C,mem.bit on the same RAM byte gives back C:
      the byte written holds C at the bit, and what a read of plain RAM
      returns is that byte. */
  lemma StoreThenLoadCarry(t: byte, bit: nat, c: int)
    requires bit < 8
    ensures Carry(CarryOp(0xAA, c, BitOps.MemBit(Byte(BitOps.PutBit(t, bit, c) + NoReadBeforeWrite), bit))) == Carry(c)
  {
    var p := BitOps.PutBit(t, bit, c);
    assert Byte(p + NoReadBeforeWrite) == p;
    BitOps.PutBitThenMemBit(t, bit, c);
  }
}
