/** The 8-bit adder behind ADC, SBC, ADDW and SUBW (snes_spc/SNES_SPC.cpp:1146-1166,
    1308-1333). The emulator adds in a wide integer and recovers H and V from
    `flags = a ^ b ^ sum`, whose bit `k` is the carry into bit `k`. */
module Adder {
  import opened Bytes
  import opened Bits

  /** The carries of the binary addition `x + y + cin`: bit `k` is the carry into
      bit `k` (bit 0 is `cin`). */
  function Carries(x: nat, y: nat, cin: bool): nat
    decreases x + y
  {
    if x == 0 && y == 0 then BitValue(cin)
    else BitValue(cin) + 2 * Carries(x / 2, y / 2, x % 2 + y % 2 + BitValue(cin) >= 2)
  }

  /** `a ^ b ^ (a + b + cin)` is the carry vector. */
  lemma {:induction false} XorSum(x: nat, y: nat, cin: bool)
    ensures Xor(Xor(x, y), x + y + BitValue(cin)) == Carries(x, y, cin)
    decreases x + y
  {
    var s := x + y + BitValue(cin);
    if x == 0 && y == 0 {
      assert Xor(0, 0) == 0;
      XorStep(0, s);
    } else {
      var cout := x % 2 + y % 2 + BitValue(cin) >= 2;
      var a := Xor(x, y);
      XorStep(x, y);
      XorStep(a, s);
      assert a / 2 == Xor(x / 2, y / 2) && a % 2 == (if (x % 2 == 1) != (y % 2 == 1) then 1 else 0);
      assert s / 2 == x / 2 + y / 2 + BitValue(cout);
      XorSum(x / 2, y / 2, cout);
      assert Xor(a / 2, s / 2) == Carries(x / 2, y / 2, cout);
      assert ((a % 2 == 1) != (s % 2 == 1)) == cin;
      assert Carries(x, y, cin) == BitValue(cin) + 2 * Carries(x / 2, y / 2, cout);
    }
  }

  /** Bit `k` of the carry vector: whether the low `k` bits of the operands and the
      carry in overflow `k` bits. */
  lemma {:induction false} CarryBit(x: nat, y: nat, cin: bool, k: nat)
    ensures Bit(Carries(x, y, cin), k) == (x % Pow2(k) + y % Pow2(k) + BitValue(cin) >= Pow2(k))
    decreases k
  {
    var cout := x % 2 + y % 2 + BitValue(cin) >= 2;
    var rest := Carries(x / 2, y / 2, cout);
    assert Carries(x, y, cin) == BitValue(cin) + 2 * rest;
    BitOfDouble(rest, BitValue(cin), if k == 0 then 0 else k - 1);
    if k > 0 {
      var p := Pow2(k - 1);
      CarryBit(x / 2, y / 2, cout, k - 1);
      ModDouble(x, p);
      ModDouble(y, p);
    }
  }

  /** Bit `k` of `a ^ b ^ sum` for bytes, by the two lemmas above. */
  lemma SumFlagBit(x: byte, y: byte, cin: bool, k: nat)
    ensures Bit(Xor(Xor(x, y), x + y + BitValue(cin)), k) ==
              (x % Pow2(k) + y % Pow2(k) + BitValue(cin) >= Pow2(k))
  {
    XorSum(x, y, cin);
    CarryBit(x, y, cin, k);
  }

  /** Bit `k` of `x / 2^j` is bit `j + k` of `x`. */
  lemma {:induction false} BitOfQuotient(x: int, j: nat, k: nat)
    ensures Bit(x / Pow2(j), k) == Bit(x, j + k)
    decreases j
  {
    if j > 0 {
      ModDouble(x, Pow2(j - 1));
      BitOfQuotient(x / 2, j - 1, k);
    }
  }

  /** Adding `2^k` flips bit `k + 1` exactly when bit `k` was set (it carries). */
  lemma AddHalfBit(x: int, k: nat)
    ensures Bit(x + Pow2(k), k + 1) == (Bit(x, k + 1) != Bit(x, k))
  {
    var q := x / Pow2(k);
    DivUnique(x + Pow2(k), Pow2(k), q + 1, x % Pow2(k));
    BitOfQuotient(x, k, 0);
    BitOfQuotient(x, k, 1);
    BitOfQuotient(x + Pow2(k), k, 1);
    assert Bit(q, 1) == Bit(q / 2, 0) && Bit(q + 1, 1) == Bit((q + 1) / 2, 0);
    if q % 2 == 0 {
      DivUnique(q + 1, 2, q / 2, 1);
    } else {
      DivUnique(q + 1, 2, q / 2 + 1, 0);
    }
  }

  /** A byte read as a signed 8-bit number. */
  function Signed8(x: byte): (r: int)
    ensures -128 <= r < 128 && (r - x) % 256 == 0
  {
    if x < 128 then x else x - 256
  }

  /** Signed overflow is a carry into bit 7 without a carry out of it, or the reverse. */
  lemma SignedOverflow(x: byte, y: byte, cin: bool)
    ensures ((x + y + BitValue(cin) >= 256) != (x % 128 + y % 128 + BitValue(cin) >= 128)) ==
            !(-128 <= Signed8(x) + Signed8(y) + BitValue(cin) < 128)
  {
    var xl, yl := x % 128, y % 128;
    assert x == (if x < 128 then 0 else 128) + xl;
    assert y == (if y < 128 then 0 else 128) + yl;
  }

  /** Bit 4 of `flags` is the carry out of the low nibble: the H flag. */
  lemma HalfCarryFlag(x: byte, y: byte, cin: bool)
    ensures Bit(Xor(Xor(x, y), x + y + BitValue(cin)), 4) == (x % 16 + y % 16 + BitValue(cin) >= 16)
  {
    assert Pow2(4) == 16;
    SumFlagBit(x, y, cin, 4);
  }

  /** Bit 7 of `flags`: the carry into the sign bit. */
  lemma CarryIntoSign(x: byte, y: byte, cin: bool)
    ensures Bit(Xor(Xor(x, y), x + y + BitValue(cin)), 7) == (x % 128 + y % 128 + BitValue(cin) >= 128)
  {
    assert Pow2(7) == 128;
    SumFlagBit(x, y, cin, 7);
  }

  /** Bit 8 of `flags`: the carry out of the sign bit. */
  lemma CarryOutOfSign(x: byte, y: byte, cin: bool)
    ensures Bit(Xor(Xor(x, y), x + y + BitValue(cin)), 8) == (x + y + BitValue(cin) >= 256)
  {
    assert Pow2(8) == 256;
    SumFlagBit(x, y, cin, 8);
    DivUnique(x, 256, 0, x);
    DivUnique(y, 256, 0, y);
  }

  /** Bit 8 of `flags + 0x80` is signed overflow: the V flag. */
  lemma OverflowFlag(x: byte, y: byte, cin: bool)
    ensures Bit(Xor(Xor(x, y), x + y + BitValue(cin)) + 0x80, 8) ==
            !(-128 <= Signed8(x) + Signed8(y) + BitValue(cin) < 128)
  {
    var f := Xor(Xor(x, y), x + y + BitValue(cin));
    CarryIntoSign(x, y, cin);
    CarryOutOfSign(x, y, cin);
    assert Pow2(7) == 128;
    AddHalfBit(f, 7);
    SignedOverflow(x, y, cin);
  }
}
