/** The 8-bit arithmetic and logic of the CPU loop (snes_spc/SNES_SPC.cpp:1034-1271):
    each operation is a function of the operands and the flag variables, computed
    with the same C expressions, and its contract states the SPC700 meaning. */
module Alu {
  import opened Bytes
  import opened Bits
  import opened Psw
  import opened Adder

  /** The status bits other than V and H are the same in `p` and `q`. */
  predicate SameButVH(p: byte, q: byte)
  {
    Bit(q, 7) == Bit(p, 7) && Bit(q, 5) == Bit(p, 5) && Bit(q, 4) == Bit(p, 4) &&
    Bit(q, 2) == Bit(p, 2) && Bit(q, 1) == Bit(p, 1) && Bit(q, 0) == Bit(p, 0)
  }

  /** The status byte with V and H replaced by the two bits that ADC, SBC,
      ADDW and SUBW extract from their carry vector; the other six stay. */
  function WithVH(psw: byte, v: bool, h: bool): (r: byte)
    ensures Overflow(r) == v && HalfCarry(r) == h && SameButVH(psw, r)
  {
    ByteOfBits([Bit(psw, 0), Bit(psw, 1), Bit(psw, 2), h, Bit(psw, 4), Bit(psw, 5), v, Bit(psw, 7)])
  }

  /** The outcome of the adder: the wide sum (kept in both `nz` and `c`) and the
      status byte with the new V and H. */
  datatype Sum = Sum(nz: int, psw: byte)

  /** ADC (`adc_data`): add `data` and the carry to `nz`. The sum is left unmasked
      in `nz` and `c`, so bit 8 is the carry out. */
  function AddWithCarry(nz: byte, data: byte, c: int, psw: byte): (r: Sum)
    ensures r.nz == nz + data + BitValue(Carry(c))
    ensures Carry(r.nz) == (nz + data + BitValue(Carry(c)) >= 256)
    ensures HalfCarry(r.psw) == (nz % 16 + data % 16 + BitValue(Carry(c)) >= 16)
    ensures Overflow(r.psw) == !(-128 <= Signed8(nz) + Signed8(data) + BitValue(Carry(c)) < 128)
    ensures SameButVH(psw, r.psw)
  {
    var cin := Carry(c);
    var sum := nz + data + BitValue(cin);
    var flags := Xor(Xor(data, nz), sum);
    assert Bit(flags, 4) == (nz % 16 + data % 16 + BitValue(cin) >= 16) by {
      HalfCarryFlag(data, nz, cin);
    }
    assert Bit(flags + 0x80, 8) == !(-128 <= Signed8(nz) + Signed8(data) + BitValue(cin) < 128) by {
      OverflowFlag(data, nz, cin);
    }
    assert Carry(sum) == (sum >= 256) by {
      CarryOf(sum);
    }
    Sum(sum, WithVH(psw, Bit(flags + 0x80, 8), Bit(flags, 4)))
  }

  /** `data ^= 0xFF` on a byte is `255 - data`. */
  lemma Complement(d: byte)
    ensures Xor(d, 0xFF) == 255 - d
  {
    assert Pow2(8) == 256;
    XorOnes(d, 8);
  }

  /** SBC is ADC of the complemented operand (`255 - d`, see `Complement`): the
      result is `a - d - borrow` and C is set when nothing is borrowed. */
  lemma SubtractWithBorrow(a: byte, d: byte, c: int, psw: byte)
    ensures var borrow := 1 - BitValue(Carry(c));
            var r := AddWithCarry(a, 255 - d, c, psw);
            r.nz % 256 == (a - d - borrow) % 256 && Carry(r.nz) == (a - d - borrow >= 0)
  {
    var n := a - d - (1 - BitValue(Carry(c)));
    var r := AddWithCarry(a, 255 - d, c, psw);
    assert r.nz == n + 256;
    DivUnique(r.nz, 256, n / 256 + 1, n % 256);
  }

  /** The flags of SBC: V is signed overflow of the subtraction and H is set when
      the low nibble does not borrow. */
  lemma SubtractFlags(a: byte, d: byte, c: int, psw: byte)
    ensures var borrow := 1 - BitValue(Carry(c));
            var r := AddWithCarry(a, 255 - d, c, psw);
            Overflow(r.psw) == !(-128 <= Signed8(a) - Signed8(d) - borrow < 128) &&
            HalfCarry(r.psw) == (a % 16 - d % 16 - borrow >= 0)
  {
    DivUnique(255 - d, 16, 15 - d / 16, 15 - d % 16);
    assert Signed8(255 - d) == -1 - Signed8(d);
  }

  /** The flag variables CMP leaves: the complemented difference in `c` and
      the difference masked to a byte in `nz`. */
  datatype Comparison = Comparison(c: int, nz: int)

  /** CMP: the register minus the operand, complemented into `c` and masked
      into `nz`. For a byte register C is set exactly when `x >= data`, and
      `nz` is the 8-bit difference. */
  function Compare(x: int, data: byte): (r: Comparison)
    ensures r.nz == (x - data) % 256 && Shows(r.nz, r.nz)
    ensures 0 <= x < 256 ==> Carry(r.c) == (x >= data)
  {
    var diff := x - data;
    assert Shows(diff % 256, diff % 256) by {
      ShowsByte(diff % 256);
    }
    assert 0 <= x < 256 ==> Carry(Not(diff)) == (x >= data) by {
      if 0 <= x < 256 {
        CarryOf(diff);
      }
    }
    Comparison(Not(diff), diff % 256)
  }

  /** The flag variables a shift or rotate leaves: the result (unmasked after a left
      shift) and the new `c`. */
  datatype Shifted = Shifted(nz: int, c: int)

  /** ROL (ASL when the incoming `c` is 0): `c` takes the byte doubled, so
      its bit 7 becomes the carry, and `nz` is that doubled value with the old
      carry in bit 0. Bit 0 of the doubled value is clear, so the or adds. */
  function RotateLeft(v: byte, c: int): (r: Shifted)
    ensures r.nz == 2 * v + BitValue(Carry(c)) && Shows(r.nz, r.nz % 256)
    ensures Carry(r.c) == (v >= 128)
  {
    assert Carry(2 * v) == (v >= 128) by {
      CarryOf(2 * v);
    }
    assert Shows(2 * v + BitValue(Carry(c)), (2 * v + BitValue(Carry(c))) % 256) by {
      ShowsLowByte(2 * v + BitValue(Carry(c)));
    }
    Shifted(2 * v + BitValue(Carry(c)), 2 * v)
  }

  /** ROR (LSR when the incoming `c` is 0): the byte halved, with the old
      carry entering bit 7, while bit 0 of the byte leaves into C. */
  function RotateRight(v: byte, c: int): (r: Shifted)
    ensures r.nz == 128 * BitValue(Carry(c)) + v / 2 && Shows(r.nz, r.nz)
    ensures Carry(r.c) == (v % 2 == 1)
  {
    var nz := 128 * BitValue(Carry(c)) + v / 2;
    assert Carry(v * 256) == (v % 2 == 1) by {
      assert Pow2(8) == 256;
      BitOfScaled(v, 8, 0);
    }
    assert Shows(nz, nz) by {
      ShowsByte(nz);
    }
    Shifted(nz, v * 256)
  }

  /** Rotating left then right through the carry restores both the byte and the carry. */
  lemma RotateLeftRight(v: byte, c: int)
    ensures var l := RotateLeft(v, c);
            var r := RotateRight(Byte(l.nz), l.c);
            r.nz == v && Carry(r.c) == Carry(c)
  {
    var l := RotateLeft(v, c);
    var hi := BitValue(v >= 128);
    var m := 2 * v + BitValue(Carry(c)) - 256 * hi;
    DivUnique(l.nz, 256, hi, m);
    DivUnique(m, 2, v - 128 * hi, BitValue(Carry(c)));
  }

  /** Rotating right then left through the carry restores both the byte and the carry. */
  lemma RotateRightLeft(v: byte, c: int)
    ensures var r := RotateRight(v, c);
            var l := RotateLeft(r.nz, r.c);
            Byte(l.nz) == v && Carry(l.c) == Carry(c)
  {
    var r := RotateRight(v, c);
    var l := RotateLeft(r.nz, r.c);
    assert l.nz == 256 * BitValue(Carry(c)) + v;
    DivUnique(l.nz, 256, BitValue(Carry(c)), v);
  }

  /** XCN: the high nibble moved down or-ed with the low nibble moved up;
      the two do not overlap, so the or adds. */
  function ExchangeNibbles(a: byte): (r: byte)
    ensures r / 16 == a % 16 && r % 16 == a / 16
  {
    DivUnique(a * 16, 256, a / 16, (a % 16) * 16);
    var r := a / 16 + (a * 16) % 256;
    DivUnique(r, 16, a % 16, a / 16);
    r
  }

  /** XCN twice is the identity. */
  lemma ExchangeTwice(a: byte)
    ensures ExchangeNibbles(ExchangeNibbles(a)) == a
  {
    var r := ExchangeNibbles(ExchangeNibbles(a));
    DivUnique(a, 16, r / 16, r % 16);
  }

  /** A positive count `q` of `d`s exceeds every value below `m * d` only when `q < m`. */
  lemma QuotientBelow(n: int, d: int, m: int)
    requires d > 0 && 0 <= n < m * d
    ensures 0 <= n / d < m
  {
    var q := n / d;
    assert q * d == n - n % d;
    assert (m - q) * d == m * d - q * d;
    assert (m - q) * d > 0;
  }

  /** The quotient and remainder of DIV's first branch, where `ya < 512 * x`. */
  lemma ShortDivision(ya: nat, x: nat)
    requires 0 < x && ya < 512 * x
    ensures 0 <= ya / x < 512 && ya - ya / x * x == ya % x < x
    ensures ya < 256 * x ==> ya / x < 256
  {
    QuotientBelow(ya, x, 512);
    if ya < 256 * x {
      QuotientBelow(ya, x, 256);
    }
    assert ya == x * (ya / x) + ya % x;
  }

  /** DIV's second branch, where `ya >= 512 * x`: both results fit a byte, and for
      X = 0 they are `y` and `a` read back from `ya`. */
  lemma LongDivision(y: byte, a: byte, x: byte)
    requires y >= 2 * x
    ensures var n := y * 256 + a - x * 0x200;
            0 <= n / (256 - x) < 256 && 0 <= x + n % (256 - x) < 256 &&
            (x == 0 ==> n / (256 - x) == y && n % (256 - x) == a)
  {
    var n := y * 256 + a - x * 0x200;
    QuotientBelow(n, 256 - x, 256);
    if x == 0 {
      DivUnique(n, 256, y, a);
    }
  }

  /** The registers and status byte DIV leaves. */
  datatype Quotient = Quotient(a: byte, y: byte, psw: byte)

  /** DIV YA,X. V is set when `y >= x` (the quotient does not fit a byte) and H
      when the low nibble of `y` is at least that of `x`. Without overflow, A and Y
      are the quotient and remainder of YA by X; beyond, the emulation reproduces
      the hardware's result, which for X = 0 swaps and complements. */
  function Divide(y: byte, a: byte, x: byte, psw: byte): (r: Quotient)
    ensures Overflow(r.psw) == (y >= x) && HalfCarry(r.psw) == (y % 16 >= x % 16)
    ensures SameButVH(psw, r.psw)
    ensures y < x ==> r.a == (y * 256 + a) / x && r.y == (y * 256 + a) % x
    ensures y < 2 * x ==> r.a == (y * 256 + a) / x % 256 && r.y == (y * 256 + a) % x
    ensures x == 0 ==> r.a == 255 - y && r.y == a
  {
    var ya := y * 256 + a;
    var psw' := WithVH(psw, y >= x, y % 16 >= x % 16);
    if y < x * 2 then
      var q := ya / x;
      ShortDivision(ya, x);
      Quotient(Byte(q), ya - q * x, psw')
    else
      var n := ya - x * 0x200;
      LongDivision(y, a, x);
      Quotient(255 - n / (256 - x), x + n % (256 - x), psw')
  }
}
