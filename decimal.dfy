/** Decimal adjustment after BCD arithmetic, DAA and DAS
    (snes_spc/SNES_SPC.cpp:1390-1418). */
module Decimal {
  import opened Bytes
  import opened Bits
  import opened Psw
  import opened Adder
  import opened Alu

  /** Two decimal digits packed in a byte, tens in the high nibble. */
  predicate IsBcd(x: byte)
  {
    x / 16 <= 9 && x % 16 <= 9
  }

  /** The number a packed BCD byte stands for. */
  function Dec(x: byte): (n: nat)
    requires IsBcd(x)
    ensures n < 100
  {
    x / 16 * 10 + x % 16
  }

  /** The packed BCD byte of a number below 100. */
  function Bcd(n: nat): (r: byte)
    requires n < 100
    ensures IsBcd(r) && Dec(r) == n
  {
    DivUnique(n / 10 * 16 + n % 10, 16, n / 10, n % 10);
    n / 10 * 16 + n % 10
  }

  /** A number whose last two decimal digits are `v` and `u` has the BCD byte
      `16 * v + u` modulo 100. */
  lemma BcdDigits(n: int, k: int, v: int, u: int)
    requires 0 <= v <= 9 && 0 <= u <= 9 && n == 100 * k + 10 * v + u
    ensures n % 100 == 10 * v + u && Bcd(n % 100) == 16 * v + u
  {
    DivUnique(n, 100, k, 10 * v + u);
    DivUnique(10 * v + u, 10, v, u);
  }

  /** The accumulator (unmasked, as kept in `nz`) and `c` after an adjustment. */
  datatype Adjusted = Adjusted(nz: int, c: int)

  /** DAA: add 0x60 (and set C) when the byte is above 0x99 or C is set, then add 6
      when the low digit is above 9 or H is set. `a & 0x0F` is the low nibble. */
  function DecimalAdjustAdd(a: byte, c: int, psw: byte): (r: Adjusted)
    ensures a <= r.nz <= a + 0x66
    ensures Carry(r.c) == (a > 0x99 || Carry(c))
  {
    var high := a > 0x99 || Carry(c);
    var a1 := if high then a + 0x60 else a;
    var c1 := if high then 0x100 else c;
    var a2 := if a1 % 16 > 9 || HalfCarry(psw) then a1 + 0x06 else a1;
    Adjusted(a2, c1)
  }

  /** DAS: subtract 0x60 (and clear C) when the byte is above 0x99 or C is clear,
      then subtract 6 when the low digit is above 9 or H is clear. */
  function DecimalAdjustSubtract(a: byte, c: int, psw: byte): (r: Adjusted)
    ensures a - 0x66 <= r.nz <= a
    ensures Carry(r.c) == !(a > 0x99 || !Carry(c))
  {
    var low := a > 0x99 || !Carry(c);
    var a1 := if low then a - 0x60 else a;
    var c1 := if low then 0 else c;
    var a2 := if a1 % 16 > 9 || !HalfCarry(psw) then a1 - 0x06 else a1;
    Adjusted(a2, c1)
  }

  /** DAA on a binary sum `16 * hi + lo` of two digit pairs (`lo` includes the
      carry in, so H is `lo >= 16`) yields the BCD of the decimal sum. The two
      corrections add 6 when the low digits reach 10 and 0x60 when the tens do. */
  lemma AdjustAddDigits(hi: int, lo: int, s: int, n: nat, psw: byte)
    requires 0 <= hi <= 18 && 0 <= lo <= 19 && HalfCarry(psw) == (lo >= 16)
    requires s == 16 * hi + lo && n == 10 * hi + lo
    ensures Byte(DecimalAdjustAdd(Byte(s), s, psw).nz) == Bcd(n % 100)
    ensures Carry(DecimalAdjustAdd(Byte(s), s, psw).c) == (n >= 100)
  {
    var low := BitValue(lo >= 10);
    var t, u := hi + low, lo - 10 * low;
    var high := BitValue(t >= 10);
    // the byte and its low nibble
    var k := BitValue(s >= 256);
    var m := s - 256 * k;
    DivUnique(s, 256, k, m);
    CarryOf(s);
    var q, r := if lo < 16 then hi - 16 * k else hi + 1 - 16 * k, if lo < 16 then lo else lo - 16;
    DivUnique(m, 16, q, r);
    // the corrections DAA applies
    var d := DecimalAdjustAdd(m, s, psw);
    assert (m > 0x99 || s >= 256) == (t >= 10);
    var a1 := m + 0x60 * high;
    DivUnique(a1, 16, q + 6 * high, r);
    assert (a1 % 16 > 9 || HalfCarry(psw)) == (lo >= 10);
    assert d.nz == a1 + 6 * low;
    // the expected BCD byte
    var v := t - 10 * high;
    BcdDigits(n, high, v, u);
    DivUnique(d.nz, 256, high - k, 16 * v + u);
  }

  /** ADC followed by DAA, the way a program adds packed BCD bytes. */
  function AddDecimal(x: byte, y: byte, c: int, psw: byte): Adjusted
  {
    var s := AddWithCarry(x, y, c, psw);
    DecimalAdjustAdd(Byte(s.nz), s.nz, s.psw)
  }

  /** The decimal sum an ADC of two BCD bytes stands for, carry included. */
  function DecimalSum(x: byte, y: byte, c: int): (n: nat)
    requires IsBcd(x) && IsBcd(y)
    ensures n < 200
  {
    Dec(x) + Dec(y) + BitValue(Carry(c))
  }

  /** ADC of two BCD bytes followed by DAA is decimal addition: the byte is the BCD
      of the sum modulo 100 and C is the decimal carry. */
  lemma AddThenAdjust(x: byte, y: byte, c: int, psw: byte)
    requires IsBcd(x) && IsBcd(y)
    ensures Byte(AddDecimal(x, y, c, psw).nz) == Bcd(DecimalSum(x, y, c) % 100)
    ensures Carry(AddDecimal(x, y, c, psw).c) == (DecimalSum(x, y, c) >= 100)
  {
    var s := AddWithCarry(x, y, c, psw);
    var hi, lo := x / 16 + y / 16, x % 16 + y % 16 + BitValue(Carry(c));
    assert s.nz == 16 * hi + lo;
    assert HalfCarry(s.psw) == (lo >= 16);
    AdjustAddDigits(hi, lo, s.nz, DecimalSum(x, y, c), s.psw);
  }

  /** DAS on the binary difference `256 + 16 * hi + lo` of two digit pairs (`lo`
      includes the borrow, so H is `lo >= 0`) yields the BCD of the decimal
      difference modulo 100, with C set when nothing was borrowed. */
  lemma AdjustSubtractDigits(hi: int, lo: int, s: int, n: int, psw: byte)
    requires -9 <= hi <= 9 && -10 <= lo <= 9 && HalfCarry(psw) == (lo >= 0)
    requires s == 256 + 16 * hi + lo && n == 10 * hi + lo
    ensures Byte(DecimalAdjustSubtract(Byte(s), s, psw).nz) == Bcd((n + 100) % 100)
    ensures Carry(DecimalAdjustSubtract(Byte(s), s, psw).c) == (n >= 0)
  {
    var k := BitValue(n >= 0);
    var borrowed := BitValue(lo < 0);
    // the byte and its low nibble
    var m := s - 256 * k;
    DivUnique(s, 256, k, m);
    CarryOf(s);
    var q, r := hi + 16 - 16 * k - borrowed, lo + 16 * borrowed;
    DivUnique(m, 16, q, r);
    // the corrections DAS applies
    var d := DecimalAdjustSubtract(m, s, psw);
    assert (m > 0x99 || !Carry(s)) == (n < 0);
    var a1 := m - 0x60 * (1 - k);
    DivUnique(a1, 16, q - 6 * (1 - k), r);
    assert (a1 % 16 > 9 || !HalfCarry(psw)) == (lo < 0);
    assert d.nz == a1 - 6 * borrowed;
    // the expected BCD byte
    var v, u := hi + 10 - 10 * k - borrowed, lo + 10 * borrowed;
    BcdDigits(n + 100, k, v, u);
    assert d.nz == 16 * v + u && 0 <= v <= 9 && 0 <= u <= 9;
    assert Byte(d.nz) == d.nz;
  }

  /** SBC followed by DAS, the way a program subtracts packed BCD bytes. */
  function SubtractDecimal(x: byte, y: byte, c: int, psw: byte): Adjusted
  {
    var s := AddWithCarry(x, 255 - y, c, psw);
    DecimalAdjustSubtract(Byte(s.nz), s.nz, s.psw)
  }

  /** The decimal difference an SBC of two BCD bytes stands for, borrow included. */
  function DecimalDifference(x: byte, y: byte, c: int): (n: int)
    requires IsBcd(x) && IsBcd(y)
    ensures -100 <= n < 100
  {
    Dec(x) - Dec(y) - (1 - BitValue(Carry(c)))
  }

  /** SBC of two BCD bytes followed by DAS is decimal subtraction: the byte is the
      BCD of the difference modulo 100 and C is set when nothing is borrowed. */
  lemma SubtractThenAdjust(x: byte, y: byte, c: int, psw: byte)
    requires IsBcd(x) && IsBcd(y)
    ensures Byte(SubtractDecimal(x, y, c, psw).nz) == Bcd((DecimalDifference(x, y, c) + 100) % 100)
    ensures Carry(SubtractDecimal(x, y, c, psw).c) == (DecimalDifference(x, y, c) >= 0)
  {
    var s := AddWithCarry(x, 255 - y, c, psw);
    var hi, lo := x / 16 - y / 16, x % 16 - y % 16 - (1 - BitValue(Carry(c)));
    assert s.nz == 256 + 16 * hi + lo;
    assert HalfCarry(s.psw) == (lo >= 0) by {
      SubtractFlags(x, y, c, psw);
    }
    AdjustSubtractDigits(hi, lo, s.nz, DecimalDifference(x, y, c), s.psw);
  }
}
