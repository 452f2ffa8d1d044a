/** The 16-bit, multiply, divide and decimal-adjust instructions of the
    interpreter loop (snes_spc/SNES_SPC.cpp, groups 8-11):
    MOVW, INCW, DECW, ADDW, SUBW, CMPW, MUL, DIV, DAA and DAS. The arithmetic
    itself is in `Words`, `Alu` and `Decimal`; here it is applied to the
    registers and to memory, in the order and at the cycles the loop uses. */
module WordOps {
  import opened Bytes
  import opened Psw
  import opened Smp
  import opened Cpu
  import opened Words
  import Alu
  import Decimal
  import Arith
  import SmpLaws
  import Machine

  /** The high byte of a direct-page word: the next byte, wrapping within the
      page. */
  function HighAddress(r: Regs, data: byte): (addr: int)
    requires ValidRegs(r)
    ensures r.dp <= addr < r.dp + 0x100 && addr != r.dp + data
  {
    Byte(data + 1) + r.dp
  }

  /** The two bytes of a direct-page word, the low one read at `t1`, the high
      one at `t2`, and the state after both reads. */
  function ReadWordAt(st: State, r: Regs, data: byte, t1: int, t2: int, dsp: DspReader): (w: (int, int, State))
    requires Smp.Valid(st) && ValidRegs(r)
    ensures Smp.Valid(w.2) && 0 <= w.0 < 256 && 0 <= w.1 < 256
  {
    var (lo, st1) := Smp.Read(st, r.dp + data, t1, dsp);
    var (hi, st2) := Smp.Read(st1, HighAddress(r, data), t2, dsp);
    (lo, hi, st2)
  }

  /** Read a direct-page word as `ReadWordAt` says. */
  method ReadWord(s: Machine.Spc, r: Regs, data: byte, t1: int, t2: int) returns (lo: int, hi: int)
    requires s.Valid() && ValidRegs(r)
    modifies s.Repr
    ensures s.Valid() && s.Control() == old(s.Control())
    ensures (lo, hi, s.Abs()) == ReadWordAt(old(s.Abs()), r, data, t1, t2, s.dsp)
  {
    lo := s.Read(r.dp + data, t1);
    ghost var st1 := s.Abs();
    hi := s.Read(HighAddress(r, data), t2);
    assert (hi, s.Abs()) == Smp.Read(st1, HighAddress(r, data), t2, s.dsp);
  }

  /** MOVW YA,dp: A takes the low byte two cycles early, Y
      the high byte, and the flags show the word. */
  method LoadWord(s: Machine.Spc, r: Regs, data: byte, time: int) returns (r': Regs)
    requires s.Valid() && Decoded(s.ram[..], r, data)
    modifies s.Repr
    ensures s.Valid() && ValidRegs(r') && s.Control() == old(s.Control())
    ensures var (a, y, st) := ReadWordAt(old(s.Abs()), r, data, time - 2, time, s.dsp);
            s.Abs() == st && r' == r.(a := a, y := y, nz := LoadWordNz(a, y), pc := r.pc + 1)
  {
    var a, y := ReadWord(s, r, data, time - 2, time);
    r' := r.(a := a, y := y, nz := LoadWordNz(a, y), pc := r.pc + 1);
  }

  /** MOVW dp,YA: A to the low byte one cycle early, then Y
      to the high byte, without the read `cpu_write` would otherwise do
      first. */
  method StoreWord(s: Machine.Spc, r: Regs, data: byte, time: int) returns (r': Regs)
    requires s.Valid() && Decoded(s.ram[..], r, data)
    modifies s.Repr
    ensures s.Valid() && ValidRegs(r') && s.Control() == old(s.Control())
    ensures var st1 := Smp.Write(old(s.Abs()), s.cfg, r.a, r.dp + data, time - 1);
            s.Abs() == Smp.Write(st1, s.cfg, r.y + NoReadBeforeWrite, HighAddress(r, data), time) &&
            r' == r.(pc := r.pc + 1)
  {
    s.Write(r.a, r.dp + data, time - 1);
    s.Write(r.y + NoReadBeforeWrite, HighAddress(r, data), time);
    r' := r.(pc := r.pc + 1);
  }

  /** A direct-page address outside the SMP registers at $F0-$FF: plain RAM. */
  predicate PlainDirect(addr: int)
  {
    0 <= addr < 0xF0 || 0x100 <= addr < 0x200
  }

  /** MOVW dp,YA then MOVW YA,dp on plain RAM reads back the Y and A that were
      stored. */
  lemma StoreThenLoadWord(st: State, cfg: Config, r: Regs, data: byte, t1: int, t2: int, t3: int, t4: int,
                          dsp: DspReader)
    requires Smp.Valid(st) && ValidConfig(cfg) && ValidRegs(r)
    requires PlainDirect(r.dp + data) && PlainDirect(HighAddress(r, data))
    ensures var st1 := Smp.Write(st, cfg, r.a, r.dp + data, t1);
            var st2 := Smp.Write(st1, cfg, r.y + NoReadBeforeWrite, HighAddress(r, data), t2);
            var (a, st3) := Smp.Read(st2, r.dp + data, t3, dsp);
            var (y, st4) := Smp.Read(st3, HighAddress(r, data), t4, dsp);
            a == r.a && y == r.y && st4 == st2
  {
    var lo, hi := r.dp + data, HighAddress(r, data);
    var st1 := Smp.Write(st, cfg, r.a, lo, t1);
    assert st1 == st.(ram := st.ram[lo := r.a]);
    var st2 := Smp.Write(st1, cfg, r.y + NoReadBeforeWrite, hi, t2);
    assert st2 == st1.(ram := st1.ram[hi := Byte(r.y + NoReadBeforeWrite)]);
    assert Byte(r.y + NoReadBeforeWrite) == r.y;
    SmpLaws.ReadRam(st2, lo, t3, dsp);
    SmpLaws.ReadRam(st2, hi, t4, dsp);
  }

  /** INCW dp and DECW dp: the low byte is read three cycles
      early, stepped and written back (unmasked, so `cpu_write` casts it);
      then the high byte is read, takes the carry or borrow, and is written
      back; the flags show the stepped word. */
  method StepWordMemory(s: Machine.Spc, r: Regs, op: byte, data: byte, time: int) returns (r': Regs)
    requires s.Valid() && Decoded(s.ram[..], r, data) && op in {0x3A, 0x1A}
    modifies s.Repr
    ensures s.Valid() && ValidRegs(r') && s.Control() == old(s.Control())
    ensures var delta := if op == 0x3A then 1 else -1;
            var (lo, st1) := StepLowAt(old(s.Abs()), s.cfg, r, data, delta, time, s.dsp);
            var (hi, st2) := Smp.Read(st1, HighAddress(r, data), time - 1, s.dsp);
            var w := StepWord(lo, hi, delta);
            s.Abs() == Smp.Write(st2, s.cfg, w.hi, HighAddress(r, data), time) &&
            r' == r.(nz := WordNz(w.low, w.hi), pc := r.pc + 1)
  {
    var delta := Bits.And(op / 16, 2) - 1;
    WordDirection(op);
    var lo := StepLow(s, r, data, delta, time);
    ghost var st1 := s.Abs();
    var hi := s.Read(HighAddress(r, data), time - 1);
    assert (hi, s.Abs()) == Smp.Read(st1, HighAddress(r, data), time - 1, s.dsp);
    var w := StepWord(lo, hi, delta);
    s.Write(w.hi, HighAddress(r, data), time);
    r' := r.(nz := WordNz(w.low, w.hi), pc := r.pc + 1);
  }

  /** The low half of INCW and DECW: the byte read three cycles early and the
      state after `byte + delta` is written back two cycles early. */
  function StepLowAt(st: State, cfg: Config, r: Regs, data: byte, delta: int, time: int, dsp: DspReader): (l: (int, State))
    requires Smp.Valid(st) && ValidConfig(cfg) && ValidRegs(r)
    ensures Smp.Valid(l.1) && 0 <= l.0 < 256
  {
    var (lo, st1) := Smp.Read(st, r.dp + data, time - 3, dsp);
    (lo, Smp.Write(st1, cfg, lo + delta, r.dp + data, time - 2))
  }

  /** Step the low byte as `StepLowAt` says. */
  method StepLow(s: Machine.Spc, r: Regs, data: byte, delta: int, time: int) returns (lo: int)
    requires s.Valid() && ValidRegs(r)
    modifies s.Repr
    ensures s.Valid() && s.Control() == old(s.Control())
    ensures (lo, s.Abs()) == StepLowAt(old(s.Abs()), s.cfg, r, data, delta, time, s.dsp)
  {
    ghost var st0 := s.Abs();
    lo := s.Read(r.dp + data, time - 3);
    ghost var st1 := s.Abs();
    assert (lo, st1) == Smp.Read(st0, r.dp + data, time - 3, s.dsp);
    s.Write(lo + delta, r.dp + data, time - 2);
    assert s.Abs() == Smp.Write(st1, s.cfg, lo + delta, r.dp + data, time - 2);
  }

  /** Bit 5 of the opcode tells INCW ($3A) from DECW ($1A). */
  lemma WordDirection(op: byte)
    requires op in {0x3A, 0x1A}
    ensures Bits.And(op / 16, 2) - 1 == if op == 0x3A then 1 else -1
  {
    assert Bits.Pow2(1) == 2;
    Bits.AndSingle(op / 16, 1);
    Bits.BitIsDiv(op / 16, 1);
  }

  /** ADDW YA,dp and SUBW YA,dp: the low byte of the word is
      read two cycles early, the high byte on time; YA becomes the sum or the
      difference, with C, V and H of the 16-bit operation. */
  method AddSubtractWord(s: Machine.Spc, r: Regs, op: byte, data: byte, time: int) returns (r': Regs)
    requires s.Valid() && Decoded(s.ram[..], r, data) && op in {0x7A, 0x9A}
    modifies s.Repr
    ensures s.Valid() && ValidRegs(r') && s.Control() == old(s.Control())
    ensures var (lo, hi, st) := ReadWordAt(old(s.Abs()), r, data, time - 2, time, s.dsp);
            var w := if op == 0x7A then AddWord(r.y, r.a, lo, hi, r.psw) else SubtractWord(r.y, r.a, lo, hi, r.psw);
            s.Abs() == st &&
            r' == r.(a := Byte(w.low), y := w.y, c := w.c, psw := w.psw, nz := WordNz(w.low, w.y), pc := r.pc + 1)
  {
    var lo, hi := ReadWord(s, r, data, time - 2, time);
    var w := if op == 0x7A then AddWord(r.y, r.a, lo, hi, r.psw) else SubtractWord(r.y, r.a, lo, hi, r.psw);
    r' := r.(a := Byte(w.low), y := w.y, c := w.c, psw := w.psw, nz := WordNz(w.low, w.y), pc := r.pc + 1);
  }

  /** CMPW YA,dp: C is set when YA is not below the word,
      and the flags show the 16-bit difference; YA is unchanged. */
  method CompareWordMemory(s: Machine.Spc, r: Regs, data: byte, time: int) returns (r': Regs)
    requires s.Valid() && Decoded(s.ram[..], r, data)
    modifies s.Repr
    ensures s.Valid() && ValidRegs(r') && s.Control() == old(s.Control())
    ensures var (lo, hi, st) := ReadWordAt(old(s.Abs()), r, data, time - 1, time, s.dsp);
            var cmp := CompareWord(r.y, r.a, lo, hi);
            s.Abs() == st && r' == r.(c := cmp.c, nz := cmp.nz, pc := r.pc + 1)
  {
    var lo, hi := ReadWord(s, r, data, time - 1, time);
    var cmp := CompareWord(r.y, r.a, lo, hi);
    r' := r.(c := cmp.c, nz := cmp.nz, pc := r.pc + 1);
  }

  /** MUL YA: YA becomes the product of Y and A, and the
      flags show it. */
  function MultiplyYA(r: Regs): (r': Regs)
    ensures r' == r.(a := r'.a, y := r'.y, nz := r'.nz)
    ensures Word(r'.y, r'.a) == r.y * r.a && ShowsWord(r'.nz, r.y * r.a)
  {
    var m := Multiply(r.y, r.a);
    MultiplyNz(r.y, r.a);
    r.(a := Byte(m.low), y := m.hi, nz := WordNz(m.low, m.hi))
  }

  /** DIV YA,X: V tells whether the quotient overflows a
      byte and H compares the low nibbles of Y and X; without overflow A is
      the quotient and Y the remainder of YA by X. The flags show A. */
  function DivideYA(r: Regs): (r': Regs)
    ensures r' == r.(a := r'.a, y := r'.y, psw := r'.psw, nz := r'.nz) && Shows(r'.nz, r'.a)
    ensures Overflow(r'.psw) == (r.y >= r.x) && HalfCarry(r'.psw) == (r.y % 16 >= r.x % 16)
    ensures Alu.SameButVH(r.psw, r'.psw)
    ensures r.y < r.x ==> r'.a == Word(r.y, r.a) / r.x && r'.y == Word(r.y, r.a) % r.x
    ensures r.x == 0 ==> r'.a == 255 - r.y && r'.y == r.a
  {
    var q := Alu.Divide(r.y, r.a, r.x, r.psw);
    ShowsByte(q.a);
    r.(a := q.a, y := q.y, psw := q.psw, nz := q.a)
  }

  /** MUL then DIV by the (nonzero) multiplier gives the multiplicand back in
      A, with no remainder: the product's high byte is always below the
      multiplier, so DIV takes its exact branch. */
  lemma MultiplyThenDivide(r: Regs)
    requires r.x == r.a && r.a > 0
    ensures var r2 := DivideYA(MultiplyYA(r).(x := r.x));
            r2.a == r.y && r2.y == 0
  {
    var m := MultiplyYA(r);
    var p := r.y * r.a;
    assert m.y * 256 + m.a == p;
    assert p < r.a * 256 by {
      ProductBelow(r.y, r.a);
    }
    Bits.DivUnique(p, r.a, r.y, 0);
  }

  /** A byte times a positive `k` is below `256 * k`. */
  lemma ProductBelow(y: byte, k: int)
    requires k > 0
    ensures y * k < k * 256
  {
  }

  /** DAA and DAS: adjust A after a binary add or subtract
      of packed BCD bytes, by $60 and by 6 as C and H say; the flags show A. */
  function AdjustA(r: Regs, op: byte): (r': Regs)
    requires op in {0xDF, 0xBE}
    ensures r' == r.(a := r'.a, c := r'.c, nz := r'.nz) && Shows(r'.nz, r'.a)
    ensures op == 0xDF ==> Carry(r'.c) == (r.a > 0x99 || Carry(r.c))
    ensures op == 0xBE ==> Carry(r'.c) == (r.a <= 0x99 && Carry(r.c))
  {
    var d := if op == 0xDF then Decimal.DecimalAdjustAdd(r.a, r.c, r.psw)
             else Decimal.DecimalAdjustSubtract(r.a, r.c, r.psw);
    ShowsLowByte(d.nz);
    r.(a := Byte(d.nz), c := d.c, nz := d.nz)
  }

  /** ADC A,#v then DAA adds packed BCD bytes: A is the BCD of the decimal sum
      modulo 100 and C the decimal carry. */
  lemma AddThenAdjustA(r: Regs, v: byte)
    requires Decimal.IsBcd(r.a) && Decimal.IsBcd(v)
    ensures var ops := Arith.Operate(r, 4, r.a, v);
            var r2 := AdjustA(ops.(a := ops.nz % 256), 0xDF);
            r2.a == Decimal.Bcd(Decimal.DecimalSum(r.a, v, r.c) % 100) &&
            Carry(r2.c) == (Decimal.DecimalSum(r.a, v, r.c) >= 100)
  {
    Decimal.AddThenAdjust(r.a, v, r.c, r.psw);
  }

  /** SBC A,#v then DAS subtracts packed BCD bytes: A is the BCD of the
      decimal difference modulo 100 and C is set when nothing is borrowed. */
  lemma SubtractThenAdjustA(r: Regs, v: byte)
    requires Decimal.IsBcd(r.a) && Decimal.IsBcd(v)
    ensures var ops := Arith.Operate(r, 5, r.a, v);
            var r2 := AdjustA(ops.(a := ops.nz % 256), 0xBE);
            r2.a == Decimal.Bcd((Decimal.DecimalDifference(r.a, v, r.c) + 100) % 100) &&
            Carry(r2.c) == (Decimal.DecimalDifference(r.a, v, r.c) >= 0)
  {
    Decimal.SubtractThenAdjust(r.a, v, r.c, r.psw);
  }
}
