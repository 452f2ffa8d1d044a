/** The 16-bit operations of the CPU loop (snes_spc/SNES_SPC.cpp, groups 8-10): MOVW,
    INCW, DECW, ADDW, SUBW, CMPW and MUL. Each keeps a 16-bit result as two bytes
    and builds `nz` so that it shows the flags of the whole word. */
module Words {
  import opened Bytes
  import opened Bits
  import opened Psw
  import opened Adder
  import opened Alu

  /** The low byte of `t` or-ed with itself shifted right by one, masked to
      seven bits: the low byte folded so that
      it is zero exactly when that byte is, and never sets N. */
  function LowFold(t: int): (r: int)
    ensures 0 <= r < 128
    ensures r == 0 <==> t % 256 == 0
  {
    var x := Or(t / 2, t);
    assert Pow2(7) == 128;
    MaskIsMod(x, 7);
    OrMultiple(t / 2, t, 7);
    ModDouble(t, 128);
    ModDouble(t, 64);
    assert t % 256 == 0 ==> t % 128 == 0 by {
      if t % 256 == 0 {
        DivUnique(t, 128, 2 * (t / 256), 0);
      }
    }
    And(x, 0x7F)
  }

  /** `nz` shows the N and Z flags of the 16-bit value `w`: N is bit 15, Z is set
      only for zero. */
  predicate ShowsWord(nz: int, w: int)
  {
    Negative(nz) == (w >= 0x8000) && Zero(nz) == (w == 0)
  }

  /** A value below 128 or-ed with a byte is a byte. */
  lemma OrBelow(f: int, hi: byte)
    requires 0 <= f < 128
    ensures 0 <= Or(f, hi) < 256
  {
    assert Pow2(8) == 256;
    BitwiseBound(f, hi, 8);
  }

  /** A value below 128 or-ed with a byte has the byte's bit 7. */
  lemma OrSign(f: int, hi: byte)
    requires 0 <= f < 128
    ensures Bit(Or(f, hi), 7) == (hi >= 128)
  {
    assert Pow2(7) == 128;
    OrBit(f, hi, 7);
    BitIsDiv(f, 7);
    BitIsDiv(hi, 7);
    DivUnique(f, 128, 0, f);
    DivUnique(hi, 128, BitValue(hi >= 128), hi - 128 * BitValue(hi >= 128));
  }

  /** A value below 128 or-ed with a byte has a clear bit 11. */
  lemma OrHigh(f: int, hi: byte)
    requires 0 <= f < 128
    ensures !Bit(Or(f, hi), 11)
  {
    OrBelow(f, hi);
    assert Pow2(11) == 2048;
    BitIsDiv(Or(f, hi), 11);
    DivUnique(Or(f, hi), 2048, 0, Or(f, hi));
  }

  /** A value below 128 or-ed with a byte is zero only when both are. */
  lemma OrNone(f: int, hi: byte)
    requires 0 <= f < 128
    ensures Or(f, hi) == 0 <==> f == 0 && hi == 0
  {
    OrBelow(f, hi);
    assert Pow2(8) == 256;
    OrMultiple(f, hi, 8);
    DivUnique(f, 256, 0, f);
    DivUnique(hi, 256, 0, hi);
    DivUnique(Or(f, hi), 256, 0, Or(f, hi));
  }

  /** `f | hi` for `f` below 128 shows the flags of a word whose high byte is `hi`
      and whose low byte is zero exactly when `f` is. */
  lemma OrFlags(f: int, hi: byte)
    requires 0 <= f < 128
    ensures 0 <= Or(f, hi) < 256
    ensures Negative(Or(f, hi)) == (hi >= 128)
    ensures Zero(Or(f, hi)) <==> f == 0 && hi == 0
  {
    OrBelow(f, hi);
    OrSign(f, hi);
    OrHigh(f, hi);
    OrNone(f, hi);
    DivUnique(Or(f, hi), 256, 0, Or(f, hi));
  }

  /** `LowFold(lo) | hi`: the `nz` of a word whose high byte is `hi` and whose low
      byte is that of `lo`. */
  function WordNz(lo: int, hi: byte): (r: int)
    ensures 0 <= r < 256
  {
    OrFlags(LowFold(lo), hi);
    Or(LowFold(lo), hi)
  }

  /** `WordNz(lo, hi)` shows the flags of the word `hi:lo`, whatever bits of `lo`
      lie above its low byte. */
  lemma WordNzShows(lo: int, hi: byte)
    ensures ShowsWord(WordNz(lo, hi), hi * 256 + lo % 256)
  {
    OrFlags(LowFold(lo), hi);
  }

  /** The 16-bit value of a high and a low byte, as YA or a direct-page word. */
  function Word(hi: byte, lo: byte): (w: nat)
    ensures w < 0x1_0000
  {
    hi * 256 + lo
  }

  /** `(256 * h + l) mod 2^16` keeps `l` and the low byte of `h`. */
  lemma WordMod(h: int, l: int)
    requires 0 <= l < 256
    ensures (256 * h + l) % 0x1_0000 == 256 * (h % 256) + l
  {
    DivUnique(256 * h + l, 0x1_0000, h / 256, 256 * (h % 256) + l);
  }

  /** MOVW YA,dp: the low byte folded into seven bits, or-ed with the high
      byte; it shows the flags of the word just loaded into YA. */
  function LoadWordNz(a: byte, y: byte): (nz: int)
    ensures ShowsWord(nz, Word(y, a))
  {
    var m := And(a, 0x7F);
    assert m == a % 128 by {
      assert Pow2(7) == 128;
      MaskIsMod(a, 7);
    }
    var f := Or(m, a / 2);
    assert 0 <= f < 128 by {
      assert Pow2(7) == 128;
      BitwiseBound(m, a / 2, 7);
    }
    assert f == 0 <==> a == 0 by {
      assert Pow2(7) == 128;
      OrMultiple(m, a / 2, 7);
      DivUnique(m, 128, 0, m);
      DivUnique(a / 2, 128, 0, a / 2);
    }
    OrFlags(f, y);
    Or(f, y)
  }

  /** A 16-bit result: `low` is the low part as the code computes it before any
      cast (INCW and DECW write it unmasked, MUL keeps the whole product), `hi` the
      high byte. Its flags are `WordNz(low, hi)`. */
  datatype WordResult = WordResult(low: int, hi: byte)

  /** The product of two bytes splits into a high and a low byte. */
  lemma ProductBytes(y: byte, a: byte)
    ensures 0 <= y * a < 0x1_0000 && 0 <= (y * a) / 256 < 256
    ensures y * a == 256 * ((y * a) / 256) + (y * a) % 256
  {
    assert (255 - y) * a >= 0;
    assert y * a <= 255 * a <= 255 * 255;
  }

  /** MUL YA: the product of Y and A, whose low byte goes to A and whose high
      byte goes to Y; nothing of it is lost. */
  function Multiply(y: byte, a: byte): (r: WordResult)
    ensures Word(r.hi, Byte(r.low)) == y * a
  {
    var temp := y * a;
    ProductBytes(y, a);
    WordResult(temp, temp / 256)
  }

  /** MUL leaves an `nz` that shows the flags of the product. */
  lemma MultiplyNz(y: byte, a: byte)
    ensures ShowsWord(WordNz(Multiply(y, a).low, Multiply(y, a).hi), y * a)
  {
    ProductBytes(y, a);
    WordNzShows(y * a, (y * a) / 256);
  }

  /** The arithmetic of INCW and DECW: the carry or borrow out of the low byte is
      `q = temp >> 8`, and the two bytes it leaves form the stepped word. */
  lemma StepWordBytes(lo: byte, hi: byte, delta: int)
    requires delta == 1 || delta == -1
    ensures Word(Byte((lo + delta) / 256 + hi), Byte(lo + delta)) == (Word(hi, lo) + delta) % 0x1_0000
  {
    var temp := lo + delta;
    var q := if temp < 0 then -1 else if temp >= 256 then 1 else 0;
    var l := temp - 256 * q;
    DivUnique(temp, 256, q, l);
    var h := Byte(q + hi);
    var k := if q + hi < 0 then -1 else if q + hi >= 256 then 1 else 0;
    DivUnique(q + hi, 256, k, q + hi - 256 * k);
    var w := Word(hi, lo) + delta;
    assert w == 256 * (q + hi) + l;
    DivUnique(w, 0x1_0000, k, 256 * h + l);
    DivUnique(256 * h + l, 256, h, l);
  }

  /** INCW and DECW (`delta` is 1 or -1): the low byte plus `delta` is
      written unmasked, and the high byte takes the carry or borrow out of it,
      cast back to a byte. */
  function StepWord(lo: byte, hi: byte, delta: int): (r: WordResult)
    requires delta == 1 || delta == -1
    ensures Word(r.hi, Byte(r.low)) == (Word(hi, lo) + delta) % 0x1_0000
  {
    var temp := lo + delta;
    var hi' := Byte(temp / 256 + hi);
    assert Word(hi', Byte(temp)) == (Word(hi, lo) + delta) % 0x1_0000 by {
      StepWordBytes(lo, hi, delta);
    }
    WordResult(temp, hi')
  }

  /** INCW and DECW leave an `nz` that shows the stepped word. */
  lemma StepWordNz(lo: byte, hi: byte, delta: int)
    requires delta == 1 || delta == -1
    ensures ShowsWord(WordNz(StepWord(lo, hi, delta).low, StepWord(lo, hi, delta).hi),
                      (Word(hi, lo) + delta) % 0x1_0000)
  {
    var r := StepWord(lo, hi, delta);
    WordNzShows(r.low, r.hi);
  }

  /** Stepping a 16-bit word by `delta` and back, modulo `2^16`, gives it back. */
  lemma StepBack(w: int, w1: int, w2: int, delta: int)
    requires 0 <= w < 0x1_0000 && (delta == 1 || delta == -1)
    requires w1 == (w + delta) % 0x1_0000 && w2 == (w1 + -delta) % 0x1_0000
    ensures w2 == w
  {
    var k := if w + delta < 0 then -1 else if w + delta >= 0x1_0000 then 1 else 0;
    DivUnique(w + delta, 0x1_0000, k, w + delta - 0x1_0000 * k);
    DivUnique(w + delta - 0x1_0000 * k - delta, 0x1_0000, -k, w);
  }

  /** The word a step leaves, read from the result alone. */
  lemma SteppedWord(lo: byte, hi: byte, delta: int, r: WordResult)
    requires delta == 1 || delta == -1
    requires r == StepWord(lo, hi, delta)
    ensures Word(r.hi, Byte(r.low)) == (Word(hi, lo) + delta) % 0x1_0000
  {
  }

  /** INCW then DECW, or DECW then INCW, gives back the word. */
  lemma StepWordInverse(lo: byte, hi: byte, delta: int, r: WordResult, s: WordResult)
    requires delta == 1 || delta == -1
    requires r == StepWord(lo, hi, delta) && s == StepWord(Byte(r.low), r.hi, -delta)
    ensures Word(s.hi, Byte(s.low)) == Word(hi, lo)
  {
    SteppedWord(lo, hi, delta, r);
    SteppedWord(Byte(r.low), r.hi, -delta, s);
    var w, w1, w2 := Word(hi, lo), Word(r.hi, Byte(r.low)), Word(s.hi, Byte(s.low));
    StepBack(w, w1, w2, delta);
  }

  /** The borrow out of the low byte of a word subtraction (the difference
      of the low bytes shifted right by 8), and the low byte left. */
  lemma BorrowOut(a: byte, lo: byte)
    ensures var t := a - lo;
            t / 256 == -BitValue(a < lo) && t % 256 == t + 256 * BitValue(a < lo)
  {
    DivUnique(a - lo, 256, -BitValue(a < lo), a - lo + 256 * BitValue(a < lo));
  }

  /** A difference of words split at the byte: the high part `y + (temp >> 8) - hi`
      decides the borrow, and with the low byte it gives the difference mod 2^16. */
  lemma WordDifference(y: byte, a: byte, hi: byte, lo: byte)
    ensures -256 <= y + (a - lo) / 256 - hi < 256
    ensures (y + (a - lo) / 256 - hi >= 0) == (Word(y, a) >= Word(hi, lo))
    ensures (Word(y, a) - Word(hi, lo)) % 0x1_0000 ==
            256 * ((y + (a - lo) / 256 - hi) % 256) + (a - lo) % 256
  {
    BorrowOut(a, lo);
    WordMod(y + (a - lo) / 256 - hi, (a - lo) % 256);
  }

  /** CMPW YA,dp: the low bytes are subtracted and folded into `nz`, then the
      high bytes with the borrow; `c` is the complemented high difference and
      `nz` is masked to a byte. C is set when YA is at least the word
      (the flags: `CompareWordNz`). */
  function CompareWord(y: byte, a: byte, lo: byte, hi: byte): (r: Comparison)
    ensures Carry(r.c) == (Word(y, a) >= Word(hi, lo))
  {
    var temp := a - lo;
    var high := y + temp / 256 - hi;
    WordDifference(y, a, hi, lo);
    assert Carry(Not(high)) == (high >= 0) by {
      CarryOf(high);
    }
    Comparison(Not(high), And(Or(LowFold(temp), high), 0xFF))
  }

  /** CMPW leaves an `nz` that shows the flags of the 16-bit difference. */
  lemma CompareWordNz(y: byte, a: byte, lo: byte, hi: byte)
    ensures ShowsWord(CompareWord(y, a, lo, hi).nz, (Word(y, a) - Word(hi, lo)) % 0x1_0000)
  {
    var temp := a - lo;
    var f := LowFold(temp);
    var high := y + temp / 256 - hi;
    WordDifference(y, a, hi, lo);
    assert CompareWord(y, a, lo, hi).nz == And(Or(f, high), 0xFF);
    assert And(Or(f, high), 0xFF) == WordNz(temp, Byte(high)) by {
      assert Pow2(8) == 256;
      MaskIsMod(Or(f, high), 8);
      OrMod(f, high, 8);
      DivUnique(f, 256, 0, f);
    }
    assert (Word(y, a) - Word(hi, lo)) % 0x1_0000 == Byte(high) * 256 + temp % 256;
    WordNzShows(temp, Byte(high));
  }

  /** A 16-bit word read as two's complement. */
  function Signed16(w: int): (r: int)
    requires 0 <= w < 0x1_0000
    ensures -0x8000 <= r < 0x8000 && (r - w) % 0x1_0000 == 0
  {
    if w < 0x8000 then w else w - 0x1_0000
  }

  /** The low twelve bits of a word: the high byte's low nibble and the low byte. */
  lemma WordLow12(hi: byte, lo: byte)
    ensures Word(hi, lo) % 0x1000 == (hi % 16) * 256 + lo
  {
    DivUnique(Word(hi, lo), 0x1000, hi / 16, (hi % 16) * 256 + lo);
  }

  /** A word as two's complement is the signed high byte scaled, plus the low byte. */
  lemma SignedWord(hi: byte, lo: byte)
    ensures Signed16(Word(hi, lo)) == 256 * Signed8(hi) + lo
  {
  }

  /** A 16-bit sum `256 * t + rem` with `rem` a byte is in the signed range exactly
      when its high part `t` is in the signed 8-bit range. */
  lemma SignedRange(t: int, rem: int)
    requires 0 <= rem < 256
    ensures (-0x8000 <= 256 * t + rem < 0x8000) == (-128 <= t < 128)
  {
  }

  /** The sum of two words split at the byte: the carry out of the low bytes enters
      the high bytes, whose sum decides the carry out of bit 15. */
  lemma WordSumBytes(y: byte, a: byte, hi: byte, lo: byte)
    ensures (Word(y, a) + Word(hi, lo)) % 0x1_0000 ==
            256 * ((y + hi + BitValue(lo + a >= 256)) % 256) + Byte(lo + a)
    ensures (Word(y, a) + Word(hi, lo) >= 0x1_0000) == (y + hi + BitValue(lo + a >= 256) >= 256)
  {
    var cin := BitValue(lo + a >= 256);
    DivUnique(lo + a, 256, cin, lo + a - 256 * cin);
    assert Word(y, a) + Word(hi, lo) == 256 * (y + hi + cin) + Byte(lo + a);
    WordMod(y + hi + cin, Byte(lo + a));
  }

  /** Bit 11 of a word sum carries exactly when the high nibbles and the carry out
      of the low bytes reach 16. */
  lemma WordSumHalf(y: byte, a: byte, hi: byte, lo: byte)
    ensures (Word(y, a) % 0x1000 + Word(hi, lo) % 0x1000 >= 0x1000) ==
            (y % 16 + hi % 16 + BitValue(lo + a >= 256) >= 16)
  {
    WordLow12(y, a);
    WordLow12(hi, lo);
  }

  /** A word sum overflows the signed range exactly when the high-byte sum, carry
      included, overflows the signed 8-bit range. */
  lemma WordSumSigned(y: byte, a: byte, hi: byte, lo: byte)
    ensures (-0x8000 <= Signed16(Word(y, a)) + Signed16(Word(hi, lo)) < 0x8000) ==
            (-128 <= Signed8(y) + Signed8(hi) + BitValue(lo + a >= 256) < 128)
  {
    SignedWord(y, a);
    SignedWord(hi, lo);
    var cin := BitValue(lo + a >= 256);
    SignedRange(Signed8(y) + Signed8(hi) + cin, lo + a - 256 * cin);
  }

  /** What ADDW and SUBW leave: the low sum `low` before its cast to A, Y, the wide
      high sum in `c` and the status byte with the new V and H. The flags are
      `WordNz(low, y)`. */
  datatype WordSum = WordSum(low: int, y: byte, c: int, psw: byte)

  /** The shared tail of ADDW and SUBW: A is added to the low byte, and Y, the
      high byte and the carry out of the low sum are added into the high
      result, with the V and H of that high-byte add. The carry out of the low
      sum is the bit `Carry(lo)` that the 8-bit adder reads from its `c`
      argument. */
  function AddHalves(y: byte, a: byte, lo: int, hi: byte, psw: byte): (r: WordSum)
    requires 0 <= lo <= 256
    ensures r.c == y + hi + BitValue(lo + a >= 256) && r.y == r.c % 256 && r.low == lo + a
    ensures Carry(r.c) == (r.c >= 256)
  {
    var low := lo + a;
    CarryOf(low);
    var s := AddWithCarry(y, hi, low, psw);
    WordSum(low, Byte(s.nz), s.nz, s.psw)
  }

  /** The shared tail of ADDW and SUBW leaves an `nz` that shows the new YA. */
  lemma AddHalvesNz(y: byte, a: byte, lo: int, hi: byte, psw: byte)
    requires 0 <= lo <= 256
    ensures ShowsWord(WordNz(AddHalves(y, a, lo, hi, psw).low, AddHalves(y, a, lo, hi, psw).y),
                      Word(AddHalves(y, a, lo, hi, psw).y, Byte(AddHalves(y, a, lo, hi, psw).low)))
  {
    var r := AddHalves(y, a, lo, hi, psw);
    WordNzShows(r.low, r.y);
  }

  /** The shared tail of ADDW and SUBW sets V and H as the high-byte add does and
      keeps the other status bits. */
  lemma AddHalvesFlags(y: byte, a: byte, lo: int, hi: byte, psw: byte)
    requires 0 <= lo <= 256
    ensures HalfCarry(AddHalves(y, a, lo, hi, psw).psw) ==
            (y % 16 + hi % 16 + BitValue(lo + a >= 256) >= 16)
    ensures Overflow(AddHalves(y, a, lo, hi, psw).psw) ==
            !(-128 <= Signed8(y) + Signed8(hi) + BitValue(lo + a >= 256) < 128)
    ensures SameButVH(psw, AddHalves(y, a, lo, hi, psw).psw)
  {
    CarryOf(lo + a);
  }

  /** The word and the carry that the shared tail leaves, from its high sum and
      its low sum alone. */
  lemma HalvesWord(y: byte, a: byte, lo: int, hi: byte, r: WordSum)
    requires 0 <= lo <= 256
    requires r.c == y + hi + BitValue(lo + a >= 256) && r.y == r.c % 256 && r.low == lo + a
    ensures Word(r.y, Byte(r.low)) == 256 * ((y + hi + BitValue(lo + a >= 256)) % 256) + Byte(lo + a)
  {
  }

  /** ADDW YA,dp: YA becomes the 16-bit sum and C is the carry out of bit 15 (the
      other flags: `AddWordFlags`). */
  function AddWord(y: byte, a: byte, lo: byte, hi: byte, psw: byte): (r: WordSum)
    ensures Word(r.y, Byte(r.low)) == (Word(y, a) + Word(hi, lo)) % 0x1_0000
    ensures Carry(r.c) == (Word(y, a) + Word(hi, lo) >= 0x1_0000)
  {
    WordSumBytes(y, a, hi, lo);
    var r := AddHalves(y, a, lo, hi, psw);
    HalvesWord(y, a, lo, hi, r);
    r
  }

  /** ADDW leaves an `nz` that shows the new YA. */
  lemma AddWordNz(y: byte, a: byte, lo: byte, hi: byte, psw: byte)
    ensures ShowsWord(WordNz(AddWord(y, a, lo, hi, psw).low, AddWord(y, a, lo, hi, psw).y),
                      (Word(y, a) + Word(hi, lo)) % 0x1_0000)
  {
    var r := AddWord(y, a, lo, hi, psw);
    assert r == AddHalves(y, a, lo, hi, psw);
    AddHalvesNz(y, a, lo, hi, psw);
    assert ShowsWord(WordNz(r.low, r.y), Word(r.y, Byte(r.low)));
  }

  /** The flags of ADDW: V is the signed 16-bit overflow, H the carry out of bit 11,
      and the other status bits are kept. */
  lemma AddWordFlags(y: byte, a: byte, lo: byte, hi: byte, psw: byte)
    ensures HalfCarry(AddWord(y, a, lo, hi, psw).psw) ==
            (Word(y, a) % 0x1000 + Word(hi, lo) % 0x1000 >= 0x1000)
    ensures Overflow(AddWord(y, a, lo, hi, psw).psw) ==
            !(-0x8000 <= Signed16(Word(y, a)) + Signed16(Word(hi, lo)) < 0x8000)
    ensures SameButVH(psw, AddWord(y, a, lo, hi, psw).psw)
  {
    WordSumHalf(y, a, hi, lo);
    WordSumSigned(y, a, hi, lo);
    AddHalvesFlags(y, a, lo, hi, psw);
    assert AddWord(y, a, lo, hi, psw) == AddHalves(y, a, lo, hi, psw);
  }

  /** SUBW's complemented operands `lo' = (lo ^ 0xFF) + 1` and `hi' = hi ^ 0xFF`
      added to YA give the difference of the words, and the carry out of the high
      bytes is set when YA is at least the word. */
  lemma WordDiffBytes(y: byte, a: byte, hi: byte, lo: byte, hi': byte, lo': int)
    requires hi' == 255 - hi && lo' == 256 - lo
    ensures (Word(y, a) - Word(hi, lo)) % 0x1_0000 ==
            256 * ((y + hi' + BitValue(lo' + a >= 256)) % 256) + Byte(lo' + a)
    ensures (Word(y, a) >= Word(hi, lo)) == (y + hi' + BitValue(lo' + a >= 256) >= 256)
  {
    var cin := BitValue(lo' + a >= 256);
    var b := a - lo + 256 * (1 - cin);
    DivUnique(lo' + a, 256, cin, b);
    var t := y + hi' + cin;
    var k := BitValue(t >= 256);
    DivUnique(t, 256, k, t - 256 * k);
    assert Word(y, a) - Word(hi, lo) == 256 * (t - 256) + b;
    DivUnique(256 * (t - 256) + b, 0x1_0000, k - 1, 256 * (t - 256 * k) + b);
  }

  /** Bit 11 of a word difference does not borrow exactly when the complemented
      high-byte add carries out of its low nibble. */
  lemma WordDiffHalf(y: byte, a: byte, hi: byte, lo: byte, hi': byte, lo': int)
    requires hi' == 255 - hi && lo' == 256 - lo
    ensures (Word(y, a) % 0x1000 - Word(hi, lo) % 0x1000 >= 0) ==
            (y % 16 + hi' % 16 + BitValue(lo' + a >= 256) >= 16)
  {
    WordLow12(y, a);
    WordLow12(hi, lo);
    DivUnique(hi', 16, 15 - hi / 16, 15 - hi % 16);
  }

  /** A word difference overflows the signed range exactly when the complemented
      high-byte add does. */
  lemma WordDiffSigned(y: byte, a: byte, hi: byte, lo: byte, hi': byte, lo': int)
    requires hi' == 255 - hi && lo' == 256 - lo
    ensures (-0x8000 <= Signed16(Word(y, a)) - Signed16(Word(hi, lo)) < 0x8000) ==
            (-128 <= Signed8(y) + Signed8(hi') + BitValue(lo' + a >= 256) < 128)
  {
    SignedWord(y, a);
    SignedWord(hi, lo);
    var cin := BitValue(lo' + a >= 256);
    assert Signed8(hi') == -1 - Signed8(hi);
    SignedRange(Signed8(y) + Signed8(hi') + cin, a - lo + 256 * (1 - cin));
  }

  /** SUBW YA,dp: the low byte is complemented and incremented, the high byte
      complemented, then the tail of ADDW runs. YA
      becomes the 16-bit difference and C is set when nothing is borrowed (the
      other flags: `SubtractWordFlags`). */
  function SubtractWord(y: byte, a: byte, lo: byte, hi: byte, psw: byte): (r: WordSum)
    ensures Word(r.y, Byte(r.low)) == (Word(y, a) - Word(hi, lo)) % 0x1_0000
    ensures Carry(r.c) == (Word(y, a) >= Word(hi, lo))
  {
    Complement(lo);
    Complement(hi);
    var lo', hi' := Xor(lo, 0xFF) + 1, Xor(hi, 0xFF);
    WordDiffBytes(y, a, hi, lo, hi', lo');
    var r := AddHalves(y, a, lo', hi', psw);
    HalvesWord(y, a, lo', hi', r);
    r
  }

  /** SUBW leaves an `nz` that shows the new YA. */
  lemma SubtractWordNz(y: byte, a: byte, lo: byte, hi: byte, psw: byte)
    ensures ShowsWord(WordNz(SubtractWord(y, a, lo, hi, psw).low, SubtractWord(y, a, lo, hi, psw).y),
                      (Word(y, a) - Word(hi, lo)) % 0x1_0000)
  {
    var r := SubtractWord(y, a, lo, hi, psw);
    var lo', hi' := Xor(lo, 0xFF) + 1, Xor(hi, 0xFF);
    assert 0 <= lo' <= 256 && 0 <= hi' < 256 by {
      Complement(lo);
      Complement(hi);
    }
    assert r == AddHalves(y, a, lo', hi', psw);
    AddHalvesNz(y, a, lo', hi', psw);
    assert ShowsWord(WordNz(r.low, r.y), Word(r.y, Byte(r.low)));
  }

  /** The flags of SUBW: V is the signed 16-bit overflow of the difference, H is set
      when bit 11 does not borrow, and the other status bits are kept. */
  lemma SubtractWordFlags(y: byte, a: byte, lo: byte, hi: byte, psw: byte)
    ensures HalfCarry(SubtractWord(y, a, lo, hi, psw).psw) ==
            (Word(y, a) % 0x1000 - Word(hi, lo) % 0x1000 >= 0)
    ensures Overflow(SubtractWord(y, a, lo, hi, psw).psw) ==
            !(-0x8000 <= Signed16(Word(y, a)) - Signed16(Word(hi, lo)) < 0x8000)
    ensures SameButVH(psw, SubtractWord(y, a, lo, hi, psw).psw)
  {
    Complement(lo);
    Complement(hi);
    var lo', hi' := Xor(lo, 0xFF) + 1, Xor(hi, 0xFF);
    WordDiffHalf(y, a, hi, lo, hi', lo');
    WordDiffSigned(y, a, hi, lo, hi', lo');
    AddHalvesFlags(y, a, lo', hi', psw);
  }
}
