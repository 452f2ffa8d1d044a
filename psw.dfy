/** The processor status word (snes_spc/SNES_SPC.cpp:678-708). While running, the
    CPU keeps N and Z in a wide `nz` accumulator (N is bit 7 or bit 11, Z means the
    low byte is 0), C in bit 8 of `c`, P as the direct-page base `dp` (0 or 0x100)
    and V, B, H, I in the `psw` byte itself. */
module Psw {
  import opened Bytes
  import opened Bits

  const N80: byte := 0x80
  const V40: byte := 0x40
  const P20: byte := 0x20
  const B10: byte := 0x10
  const H08: byte := 0x08
  const I04: byte := 0x04
  const Z02: byte := 0x02
  const C01: byte := 0x01

  /** The internal flag representation that `SET_PSW` produces. */
  datatype Flags = Flags(psw: byte, c: int, dp: int, nz: int)

  /** N: either bit of `nz_neg_mask` (0x880) is set. */
  predicate Negative(nz: int)
  {
    Bit(nz, 7) || Bit(nz, 11)
  }

  /** Z: the low byte of `nz` is zero. */
  predicate Zero(nz: int)
  {
    nz % 256 == 0
  }

  /** C: bit 8 of `c`. */
  predicate Carry(c: int)
  {
    Bit(c, 8)
  }

  /** `nz` shows the N and Z flags of the 8-bit result `r`. */
  predicate Shows(nz: int, r: byte)
  {
    Negative(nz) == Bit(r, 7) && Zero(nz) == (r == 0)
  }

  /** Any value from -128 up to 2047 shows the flags of its own low byte, so an
      unmasked 9-bit sum or a decrement to -1 can be kept in `nz` as it is. */
  lemma ShowsLowByte(n: int)
    requires -128 <= n < 2048
    ensures Shows(n, n % 256)
  {
    assert Pow2(8) == 256 && Pow2(11) == 2048;
    BitOfMod(n, 7, 8);
    BitIsDiv(n, 11);
    if n < 0 {
      DivUnique(n, 2048, -1, n + 2048);
      BitIsDiv(n % 256, 7);
      DivUnique(n % 256, Pow2(7), 1, n % 256 - 128);
    } else {
      DivUnique(n, 2048, 0, n);
    }
  }

  /** Bit 8 of a value between -256 and 511: set for 256 and up, and for negatives
      (whose two's complement has every high bit set). */
  lemma CarryOf(n: int)
    requires -256 <= n < 512
    ensures Carry(n) == (n >= 256 || n < 0)
  {
    BitIsDiv(n, 8);
    assert Pow2(8) == 256;
    if n < 0 {
      DivUnique(n, 256, -1, n + 256);
    } else if n < 256 {
      DivUnique(n, 256, 0, n);
    } else {
      DivUnique(n, 256, 1, n - 256);
    }
  }

  /** A byte kept in `nz` shows its own flags. */
  lemma ShowsByte(n: int)
    requires 0 <= n < 256
    ensures Shows(n, n)
  {
    ShowsLowByte(n);
    DivUnique(n, 256, 0, n);
  }

  /** The V flag, bit 6 of `psw`. */
  predicate Overflow(psw: byte)
  {
    Bit(psw, 6)
  }

  /** The H flag, bit 3 of `psw`. */
  predicate HalfCarry(psw: byte)
  {
    Bit(psw, 3)
  }

  /** `GET_PSW`: the status byte N V P B H I Z C. V, B, H and I come from
      `psw`; C, P, N and Z are taken from `c`, `dp` and `nz`. The byte is built
      here from its eight bits. */
  function GetPsw(psw: byte, c: int, dp: int, nz: int): (r: byte)
    ensures Bit(r, 7) == Negative(nz) && Bit(r, 1) == Zero(nz)
    ensures Bit(r, 0) == Carry(c) && Bit(r, 5) == Bit(dp, 8)
    ensures Bit(r, 6) == Bit(psw, 6) && Bit(r, 4) == Bit(psw, 4)
    ensures Bit(r, 3) == Bit(psw, 3) && Bit(r, 2) == Bit(psw, 2)
  {
    ByteOfBits([Carry(c), Zero(nz), Bit(psw, 2), Bit(psw, 3),
                Bit(psw, 4), Bit(dp, 8), Bit(psw, 6), Negative(nz)])
  }

  /** The `nz` value that `SET_PSW` builds from N and Z. */
  function NzFor(n: bool, z: bool): (nz: int)
    ensures Negative(nz) == n && Zero(nz) == z
  {
    (if n then 0x800 else 0) + (if z then 0 else Z02)
  }

  /** `SET_PSW`: unpack a status byte into the internal representation. */
  function SetPsw(p: byte): (f: Flags)
    ensures f.psw == p && Carry(f.c) == Bit(p, 0)
    ensures f.dp == (if Bit(p, 5) then 0x100 else 0)
    ensures Negative(f.nz) == Bit(p, 7) && Zero(f.nz) == Bit(p, 1)
  {
    BitIsDiv(p * 256, 8);
    BitIsDiv(p, 0);
    assert (p * 256) / Pow2(8) == p;
    Flags(p, p * 256, if Bit(p, 5) then 0x100 else 0, NzFor(Bit(p, 7), Bit(p, 1)))
  }

  /** Packing after unpacking gives back every status byte. */
  lemma PswRoundTrip(p: byte)
    ensures var f := SetPsw(p); GetPsw(f.psw, f.c, f.dp, f.nz) == p
  {
    var f := SetPsw(p);
    var q := GetPsw(f.psw, f.c, f.dp, f.nz);
    assert Bit(f.dp, 8) == Bit(p, 5) by {
      if Bit(p, 5) { SingleBit(8, 8); } else { ZeroBits(8); }
    }
    SameByte(q, p);
  }

  /** Unpack, repack, unpack: the visible status word is stable. */
  lemma RepackStable(psw: byte, c: int, dp: int, nz: int)
    ensures var p := GetPsw(psw, c, dp, nz);
            var f := SetPsw(p);
            GetPsw(f.psw, f.c, f.dp, f.nz) == p
  {
    PswRoundTrip(GetPsw(psw, c, dp, nz));
  }
}
