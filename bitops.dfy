/** Single-bit work of the SMP: the register selector of `cpu_write`
    (snes_spc/SNES_SPC.cpp:433-438), `CPU_mem_bit` (:671-676) and the bit
    instructions SET1/CLR1, TSET1/TCLR1, AND1/OR1/EOR1, NOT1 and MOV1
    (:1594-1680). Values are integers; C's bitwise operators are the two's
    complement `And`, `Or`, `Xor` and `Not` on them. */
module BitOps {
  import opened Bytes
  import opened Bits
  import opened Psw

  /** A C `int` of 32 bits: the value modulo 2^32, read as signed. */
  function Wrap32(x: int): (r: int)
    ensures -0x8000_0000 <= r < 0x8000_0000 && (r - x) % U32 == 0
  {
    (x + 0x8000_0000) % U32 - 0x8000_0000
  }

  /** `x << n` on a 32-bit `int`: the bits shifted past bit 31 are lost. */
  function ShiftLeft32(x: int, n: nat): int
  {
    Wrap32(x * Pow2(n))
  }

  /** The selector of `cpu_write` for register `reg` of $F0-$FF: the bit of
      `~0x2F00` that lands in the sign bit after shifting left by 16 + `reg`. */
  predicate RunsRegisterWrite(reg: int)
    requires 0 <= reg < 16
  {
    ShiftLeft32(ShiftLeft32(Not(0x2F00), 16), reg) < 0
  }

  /** The powers of two up to 2^16, one doubling at a time. */
  lemma SmallPowers()
    ensures Pow2(0) == 1 && Pow2(1) == 2 && Pow2(2) == 4 && Pow2(3) == 8
    ensures Pow2(4) == 0x10 && Pow2(5) == 0x20 && Pow2(6) == 0x40 && Pow2(7) == 0x80
    ensures Pow2(8) == 0x100 && Pow2(9) == 0x200 && Pow2(10) == 0x400 && Pow2(11) == 0x800
    ensures Pow2(12) == 0x1000 && Pow2(13) == 0x2000 && Pow2(14) == 0x4000 && Pow2(15) == 0x8000
    ensures Pow2(16) == 0x1_0000
  {
    assert Pow2(1) == 2 * Pow2(0);
    assert Pow2(2) == 2 * Pow2(1);
    assert Pow2(3) == 2 * Pow2(2);
    assert Pow2(4) == 2 * Pow2(3);
    assert Pow2(5) == 2 * Pow2(4);
    assert Pow2(6) == 2 * Pow2(5);
    assert Pow2(7) == 2 * Pow2(6);
    assert Pow2(8) == 2 * Pow2(7);
    assert Pow2(9) == 2 * Pow2(8);
    assert Pow2(10) == 2 * Pow2(9);
    assert Pow2(11) == 2 * Pow2(10);
    assert Pow2(12) == 2 * Pow2(11);
    assert Pow2(13) == 2 * Pow2(12);
    assert Pow2(14) == 2 * Pow2(13);
    assert Pow2(15) == 2 * Pow2(14);
    assert Pow2(16) == 2 * Pow2(15);
  }

  /** The selector picks exactly the registers other than $F2 (DSP address) and
      $F4-$F7 (the four ports), as the comment beside it says. */
  lemma SelectorPicksRegisters(reg: int)
    requires 0 <= reg < 16
    ensures RunsRegisterWrite(reg) <==> reg != 2 && !(4 <= reg <= 7)
  {
    SmallPowers();
    assert Not(0x2F00) == -0x2F01;
    assert ShiftLeft32(-0x2F01, 16) == -0x2F01_0000;
    if reg == 0 { assert ShiftLeft32(-0x2F01_0000, 0) < 0; }
    else if reg == 1 { assert ShiftLeft32(-0x2F01_0000, 1) < 0; }
    else if reg == 2 { assert ShiftLeft32(-0x2F01_0000, 2) >= 0; }
    else if reg == 3 { assert ShiftLeft32(-0x2F01_0000, 3) < 0; }
    else if reg == 4 { assert ShiftLeft32(-0x2F01_0000, 4) >= 0; }
    else if reg == 5 { assert ShiftLeft32(-0x2F01_0000, 5) >= 0; }
    else if reg == 6 { assert ShiftLeft32(-0x2F01_0000, 6) >= 0; }
    else if reg == 7 { assert ShiftLeft32(-0x2F01_0000, 7) >= 0; }
    else if reg == 8 { assert ShiftLeft32(-0x2F01_0000, 8) < 0; }
    else if reg == 9 { assert ShiftLeft32(-0x2F01_0000, 9) < 0; }
    else if reg == 10 { assert ShiftLeft32(-0x2F01_0000, 10) < 0; }
    else if reg == 11 { assert ShiftLeft32(-0x2F01_0000, 11) < 0; }
    else if reg == 12 { assert ShiftLeft32(-0x2F01_0000, 12) < 0; }
    else if reg == 13 { assert ShiftLeft32(-0x2F01_0000, 13) < 0; }
    else if reg == 14 { assert ShiftLeft32(-0x2F01_0000, 14) < 0; }
    else { assert ShiftLeft32(-0x2F01_0000, 15) < 0; }
  }

  /** The byte address of a `mem.bit` operand: its low 13 bits. */
  function BitAddress(operand: int): (r: int)
    requires 0 <= operand < 0x1_0000
    ensures 0 <= r < 0x2000 && operand == r + 0x2000 * (operand / 0x2000)
  {
    operand % 0x2000
  }

  /** The bit number of a `mem.bit` operand: its top three bits. */
  function BitNumber(operand: int): (r: int)
    requires 0 <= operand < 0x1_0000
    ensures 0 <= r < 8 && operand == BitAddress(operand) + 0x2000 * r
  {
    operand / 0x2000
  }

  /** `CPU_mem_bit` after the read: bit `bit` of `t` moved to bit 8, where C lives. */
  function MemBit(t: byte, bit: nat): (r: int)
    requires bit < 8
    ensures r == if Bit(t, bit) then 0x100 else 0
  {
    var shifted := t / Pow2(bit);
    SmallPowers();
    BitIsDiv(t, bit);
    BitOfScaled(shifted, 8, 0);
    AndSingle(shifted * 0x100, 8);
    And(shifted * 0x100, 0x100)
  }

  /** AND1, OR1 and EOR1, with and without `/` (the complemented bit): the
      operators of C on `c` act on bit 8, the carry, as the boolean operators. */
  lemma CarryLogic(c: int, m: int)
    ensures Carry(And(c, m)) == (Carry(c) && Bit(m, 8))
    ensures Carry(And(c, Not(m))) == (Carry(c) && !Bit(m, 8))
    ensures Carry(Or(c, m)) == (Carry(c) || Bit(m, 8))
    ensures Carry(Or(c, Not(m))) == (Carry(c) || !Bit(m, 8))
    ensures Carry(Xor(c, m)) == (Carry(c) != Bit(m, 8))
  {
    AndBit(c, m, 8);
    AndBit(c, Not(m), 8);
    OrBit(c, m, 8);
    OrBit(c, Not(m), 8);
    XorBit(c, m, 8);
  }

  /** Bit `j` set and `Not` of it: the masks of SET1/CLR1, NOT1 and MOV1. */
  lemma SingleMask(j: nat, k: nat)
    requires j < 8
    ensures 1 <= Pow2(j) <= 0x80
    ensures Bit(Pow2(j), k) == (j == k) && Bit(Not(Pow2(j)), k) == (j != k)
  {
    SmallPowers();
    Pow2Mono(j, 7);
    SingleBit(j, k);
  }

  /** SET1/CLR1 dp.bit (opcodes x2 with the bit number in the top three bits and
      bit 4 telling CLR1 from SET1): clear the bit with the mask, then set it
      again unless bit 4 of the opcode is set. */
  function SetClear1(opcode: byte, t: byte): (r: byte)
    ensures Bit(r, opcode / 32) == !Bit(opcode, 4)
  {
    var j := opcode / 32;
    var bit := Pow2(j);
    var mask := Not(bit);
    var b := if And(opcode, 0x10) != 0 then 0 else bit;
    SingleMask(j, 0);
    AndBound(t, mask, 8);
    BitwiseBound(And(t, mask), b, 8);
    assert Bit(Or(And(t, mask), b), j) == !Bit(opcode, 4) by {
      SmallPowers();
      AndSingle(opcode, 4);
      SingleMask(j, j);
      AndBit(t, mask, j);
      if Bit(opcode, 4) {
        OrBit(And(t, mask), 0, j);
        ZeroBits(j);
      } else {
        OrBit(And(t, mask), bit, j);
      }
    }
    Or(And(t, mask), b)
  }

  /** SET1 sets and CLR1 clears bit `opcode >> 5` of the byte; every other bit
      stays. */
  lemma SetClear1Bits(opcode: byte, t: byte, k: nat)
    ensures Bit(SetClear1(opcode, t), k) == if k == opcode / 32 then !Bit(opcode, 4) else Bit(t, k)
  {
    var j := opcode / 32;
    SmallPowers();
    AndSingle(opcode, 4);
    SingleMask(j, k);
    AndBit(t, Not(Pow2(j)), k);
    if Bit(opcode, 4) {
      OrBit(And(t, Not(Pow2(j))), 0, k);
      ZeroBits(k);
    } else {
      OrBit(And(t, Not(Pow2(j))), Pow2(j), k);
    }
  }

  /** Two bytes with the same eight bits are equal. */
  lemma SameBits(x: byte, y: byte)
    requires forall k: nat :: k < 8 ==> Bit(x, k) == Bit(y, k)
    ensures x == y
  {
    SmallPowers();
    BitsDetermine(x, y, 8);
  }

  /** TSET1/TCLR1 abs: clear the bits of A in the byte, then (TSET1) set them. */
  function TestSet1(a: byte, t: byte, setting: bool): (r: byte)
    ensures forall k: nat :: Bit(a, k) ==> Bit(r, k) == setting
  {
    var cleared := And(t, Not(a));
    AndBound(t, Not(a), 8);
    BitwiseBound(cleared, a, 8);
    var r := if setting then Or(cleared, a) else cleared;
    assert forall k: nat :: Bit(a, k) ==> Bit(r, k) == setting by {
      forall k: nat | Bit(a, k)
        ensures Bit(r, k) == setting
      {
        AndBit(t, Not(a), k);
        OrBit(cleared, a, k);
      }
    }
    r
  }

  /** TSET1 sets and TCLR1 clears exactly the bits that are set in A. */
  lemma TestSet1Bits(a: byte, t: byte, setting: bool, k: nat)
    ensures Bit(TestSet1(a, t, setting), k) == if Bit(a, k) then setting else Bit(t, k)
  {
    AndBit(t, Not(a), k);
    OrBit(And(t, Not(a)), a, k);
  }

  /** Doing TSET1 or TCLR1 twice with the same A is the same as doing it once. */
  lemma TestSet1Idempotent(a: byte, t: byte, setting: bool)
    ensures TestSet1(a, TestSet1(a, t, setting), setting) == TestSet1(a, t, setting)
  {
    var once := TestSet1(a, t, setting);
    forall k: nat | k < 8
      ensures Bit(TestSet1(a, once, setting), k) == Bit(once, k)
    {
      TestSet1Bits(a, once, setting, k);
      TestSet1Bits(a, t, setting, k);
    }
    SameBits(TestSet1(a, once, setting), once);
  }

  /** NOT1 mem.bit: flip bit `bit` of the byte with an exclusive or. */
  function FlipBit(t: byte, bit: nat): (r: byte)
    requires bit < 8
    ensures Bit(r, bit) == !Bit(t, bit)
  {
    SingleMask(bit, 0);
    SmallPowers();
    BitwiseBound(t, Pow2(bit), 8);
    assert Bit(Xor(t, Pow2(bit)), bit) == !Bit(t, bit) by {
      SingleMask(bit, bit);
      XorBit(t, Pow2(bit), bit);
    }
    Xor(t, Pow2(bit))
  }

  /** NOT1 inverts bit `bit` and leaves the other bits. */
  lemma FlipBitBits(t: byte, bit: nat, k: nat)
    requires bit < 8
    ensures Bit(FlipBit(t, bit), k) == if k == bit then !Bit(t, k) else Bit(t, k)
  {
    SingleMask(bit, k);
    XorBit(t, Pow2(bit), k);
  }

  /** NOT1 twice on the same bit gives back the byte. */
  lemma FlipBitTwice(t: byte, bit: nat)
    requires bit < 8
    ensures FlipBit(FlipBit(t, bit), bit) == t
  {
    forall k: nat | k < 8
      ensures Bit(FlipBit(FlipBit(t, bit), bit), k) == Bit(t, k)
    {
      FlipBitBits(FlipBit(t, bit), bit, k);
      FlipBitBits(t, bit, k);
    }
    SameBits(FlipBit(FlipBit(t, bit), bit), t);
  }

  /** `c >> 8 & 1`: the carry as 0 or 1, whatever else `c` holds. */
  function CarryValue(c: int): (r: int)
    ensures r == BitValue(Carry(c))
  {
    SmallPowers();
    assert Pow2(1) - 1 == 1;
    MaskIsMod(c / 256, 1);
    BitIsDiv(c, 8);
    And(c / 256, 1)
  }

  /** MOV1 mem.bit,C: clear bit `bit` of the byte, then put the carry there. */
  function PutBit(t: byte, bit: nat, c: int): (r: byte)
    requires bit < 8
    ensures Bit(r, bit) == Carry(c)
  {
    var cleared := And(t, Not(Pow2(bit)));
    var b := CarryValue(c) * Pow2(bit);
    SingleMask(bit, 0);
    AndBound(t, Not(Pow2(bit)), 8);
    BitwiseBound(cleared, b, 8);
    assert Bit(Or(cleared, b), bit) == Carry(c) by {
      SingleMask(bit, bit);
      AndBit(t, Not(Pow2(bit)), bit);
      OrBit(cleared, b, bit);
      if !Carry(c) {
        assert b == 0;
        ZeroBits(bit);
      }
    }
    Or(cleared, b)
  }

  /** MOV1 mem.bit,C stores C in bit `bit` and leaves the other bits. */
  lemma PutBitBits(t: byte, bit: nat, c: int, k: nat)
    requires bit < 8
    ensures Bit(PutBit(t, bit, c), k) == if k == bit then Carry(c) else Bit(t, k)
  {
    var b := CarryValue(c) * Pow2(bit);
    SingleMask(bit, k);
    AndBit(t, Not(Pow2(bit)), k);
    OrBit(And(t, Not(Pow2(bit))), b, k);
    if Carry(c) {
      assert b == Pow2(bit);
    } else {
      assert b == 0;
      ZeroBits(k);
    }
  }

  /** MOV1 C,mem.bit after MOV1 mem.bit,C on the same bit reads back C. */
  lemma PutBitThenMemBit(t: byte, bit: nat, c: int)
    requires bit < 8
    ensures Carry(MemBit(PutBit(t, bit, c), bit)) == Carry(c)
  {
    PutBitBits(t, bit, c, bit);
    SmallPowers();
    SingleBit(8, 8);
    ZeroBits(8);
  }

  /** MOV1 mem.bit,C with the carry that MOV1 C,mem.bit just read leaves the byte
      as it was. */
  lemma MemBitThenPutBit(t: byte, bit: nat)
    requires bit < 8
    ensures PutBit(t, bit, MemBit(t, bit)) == t
  {
    SmallPowers();
    SingleBit(8, 8);
    ZeroBits(8);
    forall k: nat | k < 8
      ensures Bit(PutBit(t, bit, MemBit(t, bit)), k) == Bit(t, k)
    {
      PutBitBits(t, bit, MemBit(t, bit), k);
    }
    SameBits(PutBit(t, bit, MemBit(t, bit)), t);
  }
}
