/** Little- and big-endian 16/32-bit access to byte buffers (snes_spc/spc_common.h).
    The getters are pure expressions over the bytes; the setters store into a
    caller's buffer in place. */
module Bytes {

  type byte = x: int | 0 <= x < 256

  const U16: int := 0x1_0000
  const U32: int := 0x1_0000_0000

  /** `(unsigned char) n`: the low eight bits of a C integer (two's complement). */
  function Byte(n: int): (r: byte)
    ensures (n - r) % 256 == 0
    ensures 0 <= n < 256 ==> r == n
  {
    n % 256
  }

  function GetLe16(p: seq<byte>): (r: nat)
    requires |p| >= 2
    ensures r < U16
    ensures r % 256 == p[0] && r / 256 == p[1]
  {
    p[1] as int * 0x100 + p[0]
  }

  function GetBe16(p: seq<byte>): (r: nat)
    requires |p| >= 2
    ensures r < U16
    ensures r % 256 == p[1] && r / 256 == p[0]
  {
    p[0] as int * 0x100 + p[1]
  }

  function GetLe32(p: seq<byte>): (r: nat)
    requires |p| >= 4
    ensures r < U32
    ensures r % 256 == p[0] && r / 0x100 % 256 == p[1]
    ensures r / 0x1_0000 % 256 == p[2] && r / 0x100_0000 == p[3]
  {
    ((p[3] as int * 0x100 + p[2]) * 0x100 + p[1]) * 0x100 + p[0]
  }

  function GetBe32(p: seq<byte>): (r: nat)
    requires |p| >= 4
    ensures r < U32
    ensures r % 256 == p[3] && r / 0x100 % 256 == p[2]
    ensures r / 0x1_0000 % 256 == p[1] && r / 0x100_0000 == p[0]
  {
    ((p[0] as int * 0x100 + p[1]) * 0x100 + p[2]) * 0x100 + p[3]
  }

  /** The same two bytes read in the two orders differ by a byte swap. */
  lemma BeIsSwappedLe(p: seq<byte>)
    requires |p| >= 2
    ensures GetBe16(p) == (GetLe16(p) % 256) * 0x100 + GetLe16(p) / 256
    ensures GetLe16(p) == (GetBe16(p) % 256) * 0x100 + GetBe16(p) / 256
  {
  }

  /** The low 16 bits of a value split into two bytes. */
  lemma Split16(n: int)
    ensures n % U16 == (n / 0x100 % 256) * 0x100 + n % 256
  {
    var q := n / 0x100;
    assert n == q * 0x100 + n % 256;
    assert q == (q / 0x100) * 0x100 + q % 256;
    assert n == (q / 0x100) * U16 + ((q % 256) * 0x100 + n % 256);
  }

  /** A 32-bit value split into its four bytes, lowest first. */
  lemma Split32(n: int)
    requires 0 <= n < U32
    ensures n == (n / 0x100_0000) * 0x100_0000 + (n / 0x1_0000 % 256) * 0x1_0000
                 + (n / 0x100 % 256) * 0x100 + n % 256
  {
    var b0, b1, b2, b3 := n % 256, n / 0x100 % 256, n / 0x1_0000 % 256, n / 0x100_0000;
    assert n == (n / 0x100) * 0x100 + b0;
    assert n / 0x100 == (n / 0x1_0000) * 0x100 + b1;
    assert n / 0x1_0000 == b3 * 0x100 + b2;
  }

  method SetLe16(p: array<byte>, i: int, n: int)
    requires 0 <= i && i + 2 <= p.Length
    requires 0 <= n < U32
    modifies p
    ensures p[..] == old(p[..])[i := n % 256][i + 1 := n / 0x100 % 256]
    ensures GetLe16(p[i..i + 2]) == n % U16
  {
    p[i + 1] := Byte(n / 0x100);
    p[i] := Byte(n);
    Split16(n);
  }

  method SetBe16(p: array<byte>, i: int, n: int)
    requires 0 <= i && i + 2 <= p.Length
    requires 0 <= n < U32
    modifies p
    ensures p[..] == old(p[..])[i := n / 0x100 % 256][i + 1 := n % 256]
    ensures GetBe16(p[i..i + 2]) == n % U16
  {
    p[i] := Byte(n / 0x100);
    p[i + 1] := Byte(n);
    Split16(n);
  }

  method SetLe32(p: array<byte>, i: int, n: int)
    requires 0 <= i && i + 4 <= p.Length
    requires 0 <= n < U32
    modifies p
    ensures p[..] == old(p[..])[i := n % 256][i + 1 := n / 0x100 % 256]
                               [i + 2 := n / 0x1_0000 % 256][i + 3 := n / 0x100_0000 % 256]
    ensures GetLe32(p[i..i + 4]) == n
  {
    p[i] := Byte(n);
    p[i + 1] := Byte(n / 0x100);
    p[i + 2] := Byte(n / 0x1_0000);
    p[i + 3] := Byte(n / 0x100_0000);
    Split32(n);
  }

  method SetBe32(p: array<byte>, i: int, n: int)
    requires 0 <= i && i + 4 <= p.Length
    requires 0 <= n < U32
    modifies p
    ensures p[..] == old(p[..])[i + 3 := n % 256][i + 2 := n / 0x100 % 256]
                               [i + 1 := n / 0x1_0000 % 256][i := n / 0x100_0000 % 256]
    ensures GetBe32(p[i..i + 4]) == n
  {
    p[i + 3] := Byte(n);
    p[i + 2] := Byte(n / 0x100);
    p[i + 1] := Byte(n / 0x1_0000);
    p[i] := Byte(n / 0x100_0000);
    Split32(n);
  }
}
