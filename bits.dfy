/** Bit-level operations on C integers, stated arithmetically on unbounded integers
    in two's complement (negative values are needed: the CPU's wide `c` and `nz`
    variables go below zero, as in `c = ~nz`). */
module Bits {
  import opened Bytes

  function Pow2(k: nat): (r: nat)
    ensures r >= 1
  {
    if k == 0 then 1 else 2 * Pow2(k - 1)
  }

  /** Bit `k` of the two's complement form of `x`: shift right `k` times (Dafny's
      `/` floors, which is the arithmetic shift of a negative C integer). */
  function Bit(x: int, k: nat): bool
    decreases k
  {
    if k == 0 then x % 2 == 1 else Bit(x / 2, k - 1)
  }

  lemma {:induction false} MulAtLeastOne(x: int, p: int)
    requires x >= 1 && p > 0
    ensures x * p >= p
  {
    if x > 1 {
      MulAtLeastOne(x - 1, p);
      assert x * p == (x - 1) * p + p;
    }
  }

  lemma DivUnique(n: int, p: int, q: int, r: int)
    requires p > 0 && 0 <= r < p && n == q * p + r
    ensures n / p == q && n % p == r
  {
    var q', r' := n / p, n % p;
    assert q' * p + r' == q * p + r;
    assert (q' - q) * p == r - r' by { assert q' * p - q * p == (q' - q) * p; }
    if q' > q {
      MulAtLeastOne(q' - q, p);
    } else if q' < q {
      MulAtLeastOne(q - q', p);
    }
  }

  /** Dividing by `2p` is halving, then dividing by `p`. */
  lemma ModDouble(x: int, p: int)
    requires p >= 1
    ensures x / (2 * p) == (x / 2) / p
    ensures x % (2 * p) == 2 * ((x / 2) % p) + x % 2
  {
    var q, r := (x / 2) / p, (x / 2) % p;
    assert x == q * (2 * p) + (2 * r + x % 2) by {
      assert x / 2 == q * p + r;
      assert q * (2 * p) == 2 * (q * p);
    }
    DivUnique(x, 2 * p, q, 2 * r + x % 2);
  }

  /** Bit `k` read arithmetically: the parity of `x / 2^k`. */
  lemma {:induction false} BitIsDiv(x: int, k: nat)
    ensures Bit(x, k) == ((x / Pow2(k)) % 2 == 1)
    decreases k
  {
    if k > 0 {
      BitIsDiv(x / 2, k - 1);
      ModDouble(x, Pow2(k - 1));
    }
  }

  /** Bit `k + 1` of `x` is bit `k` of `x / 2` (an arithmetic shift right). */
  lemma BitShift(x: int, k: nat)
    ensures Bit(x, k + 1) == Bit(x / 2, k)
  {
  }

  /** Bits of `2 * q + b`: bit 0 is `b`, the others are those of `q`. */
  lemma BitOfDouble(q: int, b: int, k: nat)
    requires b == 0 || b == 1
    ensures Bit(2 * q + b, 0) == (b == 1)
    ensures Bit(2 * q + b, k + 1) == Bit(q, k)
  {
    assert (2 * q + b) / 2 == q;
  }

  function Abs(x: int): nat
  {
    if x < 0 then -x else x
  }

  /** `~x` on a C integer. */
  function Not(x: int): (r: int)
    ensures forall k: nat :: Bit(r, k) == !Bit(x, k)
  {
    forall k: nat ensures Bit(-x - 1, k) == !Bit(x, k) {
      NotBit(x, k);
    }
    -x - 1
  }

  /** Both operands are sign-only: every bit equal (0 or -1). */
  predicate SignOnly(x: int, y: int)
  {
    (x == 0 || x == -1) && (y == 0 || y == -1)
  }

  /** `x ^ y`, `x & y` and `x | y` on two's complement integers, bit by bit from
      the bottom until both operands are all zeros or all ones. */
  function Xor(x: int, y: int): (r: int)
    decreases Abs(x) + Abs(y)
  {
    if SignOnly(x, y) then (if x != y then -1 else 0)
    else 2 * Xor(x / 2, y / 2) + (if (x % 2 == 1) != (y % 2 == 1) then 1 else 0)
  }

  function And(x: int, y: int): (r: int)
    decreases Abs(x) + Abs(y)
  {
    if SignOnly(x, y) then (if x == -1 && y == -1 then -1 else 0)
    else 2 * And(x / 2, y / 2) + (if x % 2 == 1 && y % 2 == 1 then 1 else 0)
  }

  function Or(x: int, y: int): (r: int)
    decreases Abs(x) + Abs(y)
  {
    if SignOnly(x, y) then (if x == -1 || y == -1 then -1 else 0)
    else 2 * Or(x / 2, y / 2) + (if x % 2 == 1 || y % 2 == 1 then 1 else 0)
  }

  /** Bit `j + k` of `x * 2^j` is bit `k` of `x` (a shift left). */
  lemma {:induction false} BitOfScaled(x: int, j: nat, k: nat)
    ensures Bit(x * Pow2(j), j + k) == Bit(x, k)
    decreases j
  {
    if j > 0 {
      var y := x * Pow2(j - 1);
      assert x * Pow2(j) == 2 * y;
      assert (2 * y) / 2 == y;
      BitOfScaled(x, j - 1, k);
    }
  }

  /** One step of `Xor` for any operands, the sign-only ones included. */
  lemma XorStep(x: int, y: int)
    ensures Xor(x, y) == 2 * Xor(x / 2, y / 2) + (if (x % 2 == 1) != (y % 2 == 1) then 1 else 0)
  {
  }

  /** One step of `And` for any operands, the sign-only ones included. */
  lemma AndStep(x: int, y: int)
    ensures And(x, y) == 2 * And(x / 2, y / 2) + (if x % 2 == 1 && y % 2 == 1 then 1 else 0)
  {
  }

  lemma {:induction false} ZeroBits(k: nat)
    ensures !Bit(0, k)
  {
    if k > 0 {
      ZeroBits(k - 1);
    }
  }

  lemma {:induction false} OnesBits(k: nat)
    ensures Bit(-1, k)
  {
    if k > 0 {
      OnesBits(k - 1);
    }
  }

  lemma {:induction false} NotBit(x: int, k: nat)
    ensures Bit(-x - 1, k) == !Bit(x, k)
    decreases k
  {
    if k > 0 {
      assert (-x - 1) / 2 == -(x / 2) - 1;
      NotBit(x / 2, k - 1);
    }
  }

  lemma {:induction false} XorBit(x: int, y: int, k: nat)
    ensures Bit(Xor(x, y), k) == (Bit(x, k) != Bit(y, k))
    decreases k
  {
    ZeroBits(k);
    OnesBits(k);
    if !SignOnly(x, y) {
      var b := if (x % 2 == 1) != (y % 2 == 1) then 1 else 0;
      BitOfDouble(Xor(x / 2, y / 2), b, if k == 0 then 0 else k - 1);
      BitOfDouble(x / 2, x % 2, if k == 0 then 0 else k - 1);
      BitOfDouble(y / 2, y % 2, if k == 0 then 0 else k - 1);
      if k > 0 {
        XorBit(x / 2, y / 2, k - 1);
      }
    }
  }

  lemma {:induction false} AndBit(x: int, y: int, k: nat)
    ensures Bit(And(x, y), k) == (Bit(x, k) && Bit(y, k))
    decreases k
  {
    ZeroBits(k);
    OnesBits(k);
    if !SignOnly(x, y) {
      var b := if x % 2 == 1 && y % 2 == 1 then 1 else 0;
      BitOfDouble(And(x / 2, y / 2), b, if k == 0 then 0 else k - 1);
      BitOfDouble(x / 2, x % 2, if k == 0 then 0 else k - 1);
      BitOfDouble(y / 2, y % 2, if k == 0 then 0 else k - 1);
      if k > 0 {
        AndBit(x / 2, y / 2, k - 1);
      }
    }
  }

  lemma {:induction false} OrBit(x: int, y: int, k: nat)
    ensures Bit(Or(x, y), k) == (Bit(x, k) || Bit(y, k))
    decreases k
  {
    ZeroBits(k);
    OnesBits(k);
    if !SignOnly(x, y) {
      var b := if x % 2 == 1 || y % 2 == 1 then 1 else 0;
      BitOfDouble(Or(x / 2, y / 2), b, if k == 0 then 0 else k - 1);
      BitOfDouble(x / 2, x % 2, if k == 0 then 0 else k - 1);
      BitOfDouble(y / 2, y % 2, if k == 0 then 0 else k - 1);
      if k > 0 {
        OrBit(x / 2, y / 2, k - 1);
      }
    }
  }

  /** On non-negative operands below `2^w` the three operations stay in that range. */
  lemma {:induction false} BitwiseBound(x: int, y: int, w: nat)
    requires 0 <= x < Pow2(w) && 0 <= y < Pow2(w)
    ensures 0 <= Xor(x, y) < Pow2(w) && 0 <= And(x, y) < Pow2(w) && 0 <= Or(x, y) < Pow2(w)
    decreases w
  {
    if !SignOnly(x, y) {
      BitwiseBound(x / 2, y / 2, w - 1);
    }
  }

  lemma {:induction false} SingleBit(j: nat, k: nat)
    ensures Bit(Pow2(j), k) == (j == k)
    decreases j
  {
    if k == 0 {
      if j > 0 {
        assert Pow2(j) == 2 * Pow2(j - 1);
      }
    } else if j == 0 {
      BitShift(1, k - 1);
      ZeroBits(k - 1);
    } else {
      BitShift(Pow2(j), k - 1);
      assert Pow2(j) / 2 == Pow2(j - 1);
      SingleBit(j - 1, k - 1);
    }
  }

  lemma {:induction false} Pow2Mono(i: nat, j: nat)
    requires i <= j
    ensures Pow2(i) <= Pow2(j)
    decreases j
  {
    if i < j {
      Pow2Mono(i, j - 1);
    }
  }

  /** A flag placed as bit `j` of a byte: that bit is the flag, the others are clear. */
  function FlagAt(b: bool, j: nat): (r: byte)
    requires j < 8
    ensures forall k: nat :: Bit(r, k) == (b && k == j)
  {
    Pow2Mono(j, 7);
    var r := if b then Pow2(j) else 0;
    forall k: nat ensures Bit(r, k) == (b && k == j) {
      SingleBit(j, k);
      ZeroBits(k);
    }
    r
  }

  /** Two values below `2^w` with the same low `w` bits are equal. */
  lemma {:induction false} BitsDetermine(x: nat, y: nat, w: nat)
    requires x < Pow2(w) && y < Pow2(w)
    requires forall k: nat :: k < w ==> Bit(x, k) == Bit(y, k)
    ensures x == y
  {
    if w > 0 {
      forall k: nat | k < w - 1 ensures Bit(x / 2, k) == Bit(y / 2, k) {
        BitShift(x, k);
        BitShift(y, k);
      }
      BitsDetermine(x / 2, y / 2, w - 1);
      assert Bit(x, 0) == Bit(y, 0);
    }
  }

  /** Two bytes with the same eight bits are equal. */
  lemma SameByte(x: byte, y: byte)
    requires Bit(x, 0) == Bit(y, 0) && Bit(x, 1) == Bit(y, 1)
    requires Bit(x, 2) == Bit(y, 2) && Bit(x, 3) == Bit(y, 3)
    requires Bit(x, 4) == Bit(y, 4) && Bit(x, 5) == Bit(y, 5)
    requires Bit(x, 6) == Bit(y, 6) && Bit(x, 7) == Bit(y, 7)
    ensures x == y
  {
    forall k: nat | k < 8 ensures Bit(x, k) == Bit(y, k) {
      if k == 0 {} else if k == 1 {} else if k == 2 {} else if k == 3 {}
      else if k == 4 {} else if k == 5 {} else if k == 6 {} else {}
    }
    assert Pow2(8) == 256;
    BitsDetermine(x, y, 8);
  }

  /** 1 for a set bit, 0 for a clear one. */
  function BitValue(b: bool): int
  {
    if b then 1 else 0
  }

  /** The number whose bits, lowest first, are `bs`. */
  function FromBits(bs: seq<bool>): (r: nat)
    ensures r < Pow2(|bs|)
  {
    if |bs| == 0 then 0 else 2 * FromBits(bs[1..]) + BitValue(bs[0])
  }

  /** Bit `k` of `FromBits(bs)` is `bs[k]`, and clear beyond the list. */
  lemma {:induction false} FromBitsBit(bs: seq<bool>, k: nat)
    ensures Bit(FromBits(bs), k) == (k < |bs| && bs[k])
    decreases |bs|
  {
    if |bs| == 0 {
      ZeroBits(k);
    } else if k == 0 {
      BitOfDouble(FromBits(bs[1..]), BitValue(bs[0]), 0);
    } else {
      BitOfDouble(FromBits(bs[1..]), BitValue(bs[0]), k - 1);
      FromBitsBit(bs[1..], k - 1);
    }
  }

  /** A byte given by its eight bits, lowest first. */
  function ByteOfBits(bs: seq<bool>): (r: byte)
    requires |bs| == 8
    ensures Bit(r, 0) == bs[0] && Bit(r, 1) == bs[1] && Bit(r, 2) == bs[2] && Bit(r, 3) == bs[3]
    ensures Bit(r, 4) == bs[4] && Bit(r, 5) == bs[5] && Bit(r, 6) == bs[6] && Bit(r, 7) == bs[7]
  {
    assert Pow2(8) == 256;
    FromBitsBit(bs, 0);
    FromBitsBit(bs, 1);
    FromBitsBit(bs, 2);
    FromBitsBit(bs, 3);
    FromBitsBit(bs, 4);
    FromBitsBit(bs, 5);
    FromBitsBit(bs, 6);
    FromBitsBit(bs, 7);
    FromBits(bs)
  }

  lemma {:induction false} OrZero(x: int)
    ensures Or(x, 0) == x && Or(0, x) == x
    decreases Abs(x)
  {
    if !SignOnly(x, 0) {
      OrZero(x / 2);
    }
  }

  lemma {:induction false} AndZero(x: int)
    ensures And(x, 0) == 0 && And(0, x) == 0
    decreases Abs(x)
  {
    if !SignOnly(x, 0) {
      AndZero(x / 2);
    }
  }

  /** `x & (1 << k)` keeps bit `k` alone. */
  lemma {:induction false} AndSingle(x: int, k: nat)
    ensures And(x, Pow2(k)) == if Bit(x, k) then Pow2(k) else 0
    decreases k
  {
    if k == 0 {
      AndZero(x / 2);
    } else {
      assert Pow2(k) == 2 * Pow2(k - 1);
      AndSingle(x / 2, k - 1);
      BitShift(x, k - 1);
    }
  }

  /** `|` of a value shifted left by `k` and one below `2^k` is their sum. */
  lemma {:induction false} OrDisjoint(hi: nat, lo: nat, k: nat)
    requires lo < Pow2(k)
    ensures Or(hi * Pow2(k), lo) == hi * Pow2(k) + lo
    ensures Or(lo, hi * Pow2(k)) == hi * Pow2(k) + lo
    decreases k
  {
    if k == 0 {
      OrZero(hi);
    } else if hi * Pow2(k) + lo != 0 {
      assert hi * Pow2(k) == 2 * (hi * Pow2(k - 1));
      OrDisjoint(hi, lo / 2, k - 1);
    }
  }

  /** `x & (2^w - 1)` is `x` modulo `2^w`, for negative `x` too. */
  lemma {:induction false} MaskIsMod(x: int, w: nat)
    ensures And(x, Pow2(w) - 1) == x % Pow2(w)
    decreases w
  {
    if w == 0 {
      AndZero(x);
    } else {
      var p := Pow2(w - 1);
      assert Pow2(w) == 2 * p;
      MaskIsMod(x / 2, w - 1);
      var m := 2 * p - 1;
      DivUnique(m, 2, p - 1, 1);
      AndStep(x, m);
      ModDouble(x, p);
    }
  }

  /** `x ^ (2^w - 1)` complements a value below `2^w`. */
  lemma {:induction false} XorOnes(x: int, w: nat)
    requires 0 <= x < Pow2(w)
    ensures Xor(x, Pow2(w) - 1) == Pow2(w) - 1 - x
    decreases w
  {
    if w > 0 {
      assert Pow2(w) == 2 * Pow2(w - 1);
      XorOnes(x / 2, w - 1);
    }
  }

  /** With one operand in `[0, 2^w)`, `&` is in that range whatever the other. */
  lemma {:induction false} AndBound(x: int, y: int, w: nat)
    requires 0 <= x < Pow2(w)
    ensures 0 <= And(x, y) <= x && And(y, x) == And(x, y)
    decreases Abs(x) + Abs(y)
  {
    if !SignOnly(x, y) {
      if x == 0 {
        AndZero(y);
      } else {
        AndBound(x / 2, y / 2, w - 1);
      }
    }
  }

  /** The low `w` bits of `x` are those of `x % 2^w`. */
  lemma {:induction false} BitOfMod(x: int, k: nat, w: nat)
    requires k < w
    ensures Bit(x % Pow2(w), k) == Bit(x, k)
    decreases k
  {
    assert Pow2(w) == 2 * Pow2(w - 1);
    ModDouble(x, Pow2(w - 1));
    DivUnique(x % Pow2(w), 2, (x / 2) % Pow2(w - 1), x % 2);
    if k > 0 {
      BitShift(x, k - 1);
      BitShift(x % Pow2(w), k - 1);
      BitOfMod(x / 2, k - 1, w - 1);
    }
  }

  /** The one-step equation of `Or` holds for every pair, the sign-only ones included. */
  lemma OrStep(x: int, y: int)
    ensures Or(x, y) == 2 * Or(x / 2, y / 2) + (if x % 2 == 1 || y % 2 == 1 then 1 else 0)
  {
  }

  /** `x | y` is a multiple of `2^w` exactly when both operands are. */
  lemma {:induction false} OrMultiple(x: int, y: int, w: nat)
    ensures Or(x, y) % Pow2(w) == 0 <==> x % Pow2(w) == 0 && y % Pow2(w) == 0
    decreases w
  {
    if w > 0 {
      var p := Pow2(w - 1);
      var b := if x % 2 == 1 || y % 2 == 1 then 1 else 0;
      OrStep(x, y);
      DivUnique(Or(x, y), 2, Or(x / 2, y / 2), b);
      ModDouble(Or(x, y), p);
      ModDouble(x, p);
      ModDouble(y, p);
      OrMultiple(x / 2, y / 2, w - 1);
    }
  }

  /** The low `w` bits of `x | y` are the `|` of the low `w` bits of each. */
  lemma {:induction false} OrMod(x: int, y: int, w: nat)
    ensures Or(x, y) % Pow2(w) == Or(x % Pow2(w), y % Pow2(w))
    decreases w
  {
    if w == 0 {
      OrZero(0);
    } else {
      var p := Pow2(w - 1);
      var b := if x % 2 == 1 || y % 2 == 1 then 1 else 0;
      OrStep(x, y);
      OrStep(x % (2 * p), y % (2 * p));
      DivUnique(Or(x, y), 2, Or(x / 2, y / 2), b);
      ModDouble(Or(x, y), p);
      ModDouble(x, p);
      ModDouble(y, p);
      DivUnique(x % (2 * p), 2, (x / 2) % p, x % 2);
      DivUnique(y % (2 * p), 2, (y / 2) % p, y % 2);
      OrMod(x / 2, y / 2, w - 1);
    }
  }

  /** `x ^ y` on two bytes: a byte whose bits are the exclusive-or of theirs. */
  function Xor8(x: byte, y: byte): (r: byte)
    ensures forall k: nat :: Bit(r, k) == (Bit(x, k) != Bit(y, k))
  {
    BitwiseBound(x, y, 8);
    forall k: nat ensures Bit(Xor(x, y), k) == (Bit(x, k) != Bit(y, k)) {
      XorBit(x, y, k);
    }
    Xor(x, y)
  }

  /** `x & y` on two bytes. */
  function And8(x: byte, y: byte): (r: byte)
    ensures forall k: nat :: Bit(r, k) == (Bit(x, k) && Bit(y, k))
  {
    BitwiseBound(x, y, 8);
    forall k: nat ensures Bit(And(x, y), k) == (Bit(x, k) && Bit(y, k)) {
      AndBit(x, y, k);
    }
    And(x, y)
  }

  /** `x | y` on two bytes. */
  function Or8(x: byte, y: byte): (r: byte)
    ensures forall k: nat :: Bit(r, k) == (Bit(x, k) || Bit(y, k))
  {
    BitwiseBound(x, y, 8);
    forall k: nat ensures Bit(Or(x, y), k) == (Bit(x, k) || Bit(y, k)) {
      OrBit(x, y, k);
    }
    Or(x, y)
  }
}
