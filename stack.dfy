/** The SMP stack (snes_spc/SNES_SPC.cpp:623-665): page 1 of RAM, addressed by
    the 8-bit stack pointer SP, growing downwards and wrapping inside the page.
    The emulator keeps SP as a pointer into RAM, `0x101 + SP`, so the byte
    below the pointer is the free slot and the byte at it the top of stack. */
module Stack {
  import opened Bytes

  /** The pointer form of SP that `SET_SP` produces. */
  predicate ValidPointer(p: int)
  {
    0x101 <= p <= 0x200
  }

  /** `GET_SP`: the SP register a stack pointer stands for. */
  function GetSp(p: int): (v: int)
    ensures ValidPointer(p) <==> 0 <= v < 256
  {
    p - 0x101
  }

  /** `SET_SP`: the stack pointer for SP `v`; `GET_SP` reads `v` back. */
  function SetSp(v: byte): (p: int)
    ensures ValidPointer(p) && GetSp(p) == v
  {
    0x101 + v
  }

  /** SP after a push and after a pop: one down or up, within the page. */
  function Below(v: byte): byte { (v - 1) % 256 }

  function Above(v: byte): byte { (v + 1) % 256 }

  /** The stack as the hardware sees it: memory (page 1 is the stack) and SP. */
  datatype Stk = Stk(mem: seq<byte>, sp: byte)

  predicate Fits(s: Stk)
  {
    |s.mem| >= 0x200
  }

  /** PUSH: store at `$0100 + SP`, then move SP down. */
  function Push(s: Stk, d: byte): (r: Stk)
    requires Fits(s)
    ensures Fits(r) && |r.mem| == |s.mem| && r.sp == Below(s.sp)
    ensures r.mem[0x100 + s.sp] == d
    ensures forall i :: 0 <= i < |s.mem| && i != 0x100 + s.sp ==> r.mem[i] == s.mem[i]
  {
    Stk(s.mem[0x100 + s.sp := d], Below(s.sp))
  }

  /** POP: move SP up, then read at `$0100 + SP`. */
  function Pop(s: Stk): (r: (byte, Stk))
    requires Fits(s)
    ensures r.1 == Stk(s.mem, Above(s.sp)) && r.0 == s.mem[0x100 + Above(s.sp)]
  {
    var v := Above(s.sp);
    (s.mem[0x100 + v], Stk(s.mem, v))
  }

  /** A pushed byte comes back from the next pop, and SP is restored. */
  lemma PushThenPop(s: Stk, d: byte)
    requires Fits(s)
    ensures Pop(Push(s, d)) == (d, s.(mem := s.mem[0x100 + s.sp := d]))
  {
  }

  /** Push the bytes of `ds`, first to last. */
  function PushAll(s: Stk, ds: seq<byte>): (r: Stk)
    requires Fits(s)
    ensures Fits(r) && |r.mem| == |s.mem|
    decreases |ds|
  {
    if |ds| == 0 then s else PushAll(Push(s, ds[0]), ds[1..])
  }

  /** Pop `n` bytes, returning them in the order they come off the stack. */
  function PopAll(s: Stk, n: nat): (r: (seq<byte>, Stk))
    requires Fits(s)
    ensures |r.0| == n && Fits(r.1) && r.1.mem == s.mem
  {
    if n == 0 then ([], s)
    else
      var (rest, s1) := PopAll(s, n - 1);
      var (d, s2) := Pop(s1);
      (rest + [d], s2)
  }

  function Reverse(ds: seq<byte>): (r: seq<byte>)
    ensures |r| == |ds|
  {
    if |ds| == 0 then [] else Reverse(ds[1..]) + [ds[0]]
  }

  /** Counting from SP - 1 is counting from SP, one step later. */
  lemma BelowShift(v: byte, k: int)
    ensures (Below(v) + k) % 256 == (v + k - 1) % 256
  {
    if v == 0 {
      assert Below(v) == 255 && (255 + k) % 256 == (k - 1) % 256;
    } else {
      assert Below(v) == v - 1;
    }
  }

  /** `k` pushes move SP down by `k` and leave the page outside the `k` slots
      they wrote, that is the slots from SP + 1 up to SP + 256 - k. */
  lemma {:induction false} PushAllFrame(s: Stk, ds: seq<byte>, j: int)
    requires Fits(s) && 1 <= j <= 256 - |ds|
    ensures PushAll(s, ds).sp == (s.sp - |ds|) % 256
    ensures PushAll(s, ds).mem[0x100 + (s.sp + j) % 256] == s.mem[0x100 + (s.sp + j) % 256]
    decreases |ds|
  {
    if |ds| > 0 {
      var s1 := Push(s, ds[0]);
      PushAllFrame(s1, ds[1..], j + 1);
      BelowShift(s.sp, j + 1);
      BelowShift(s.sp, -|ds[1..]|);
    }
  }

  /** Pushing up to 256 bytes and popping as many gives them back in reverse
      order and restores SP, also when SP wraps around the page. */
  lemma {:induction false} PushAllThenPopAll(s: Stk, ds: seq<byte>)
    requires Fits(s) && |ds| <= 256
    ensures var r := PopAll(PushAll(s, ds), |ds|);
            r.0 == Reverse(ds) && r.1.sp == s.sp
    decreases |ds|
  {
    if |ds| > 0 {
      var s1 := Push(s, ds[0]);
      var top := PushAll(s, ds);
      assert top == PushAll(s1, ds[1..]);
      PushAllThenPopAll(s1, ds[1..]);
      var (rest, below) := PopAll(top, |ds| - 1);
      assert rest == Reverse(ds[1..]) && below.sp == s1.sp;
      PushAllFrame(s1, ds[1..], 1);
      assert Above(s1.sp) == s.sp;
      assert (s1.sp + 1) % 256 == s.sp;
      assert top.mem[0x100 + s.sp] == s1.mem[0x100 + s.sp] == ds[0];
    }
  }

  /** PUSH16 (CALL, PCALL, TCALL, BRK): the high byte, then the low byte, so the
      word sits little-endian at the new top of stack. */
  function Push16(s: Stk, w: int): (r: Stk)
    requires Fits(s)
    ensures Fits(r) && |r.mem| == |s.mem|
  {
    Push(Push(s, Byte(w / 0x100)), Byte(w))
  }

  /** The 16-bit pop of RET and RETI: the low byte, then the high byte. */
  function Pop16(s: Stk): (r: (int, Stk))
    requires Fits(s)
    ensures 0 <= r.0 < U16 && r.1 == Stk(s.mem, Above(Above(s.sp)))
  {
    var (lo, s1) := Pop(s);
    var (hi, s2) := Pop(s1);
    (hi * 0x100 + lo, s2)
  }

  lemma AboveBelow(v: byte)
    ensures Above(Below(v)) == v
  {
    if v == 0 {
      assert Below(v) == 255;
    }
  }

  /** CALL then RET: the pushed return address comes back modulo 2^16 and SP
      is restored, also across the page wrap. */
  lemma Push16ThenPop16(s: Stk, w: int)
    requires Fits(s)
    ensures Pop16(Push16(s, w)) == (w % U16, Stk(Push16(s, w).mem, s.sp))
  {
    AboveBelow(s.sp);
    AboveBelow(Below(s.sp));
    Split16(w);
    var s1 := Push(s, Byte(w / 0x100));
    var s2 := Push(s1, Byte(w));
    assert s2.mem[0x100 + s1.sp] == Byte(w);
    assert s2.mem[0x100 + s.sp] == Byte(w / 0x100);
  }

  /** The stack page of `ram` with the pointer `p`, as the hardware sees it. */
  function StackOf(ram: seq<byte>, p: int): Stk
    requires ValidPointer(p)
  {
    Stk(ram, GetSp(p))
  }

  /** `PUSH` on the RAM array: store below the pointer, and move the pointer to
      the top of the page when it reaches $0100. */
  method PushByte(ram: array<byte>, p: int, data: int) returns (p': int)
    requires ram.Length >= 0x202 && ValidPointer(p)
    modifies ram
    ensures ValidPointer(p') && StackOf(ram[..], p') == Push(StackOf(old(ram[..]), p), Byte(data))
  {
    p' := p - 1;
    ram[p'] := Byte(data);
    if p' == 0x100 {
      p' := p' + 0x100;
    }
  }

  /** `POP` on the RAM array: read at the pointer and move it up; past the top of
      the page the byte comes from $0100 instead. */
  method PopByte(ram: array<byte>, p: int) returns (out: byte, p': int)
    requires ram.Length >= 0x202 && ValidPointer(p)
    ensures ValidPointer(p') && (out, StackOf(ram[..], p')) == Pop(StackOf(ram[..], p))
  {
    out := ram[p];
    p' := p + 1;
    if p' == 0x201 {
      out := ram[p' - 0x101];
      p' := p' - 0x100;
    }
  }

  /** `PUSH16` on the RAM array: both bytes at once below the pointer, or split
      around the page boundary. */
  method PushWord(ram: array<byte>, p: int, data: int) returns (p': int)
    requires ram.Length >= 0x202 && ValidPointer(p)
    modifies ram
    ensures ValidPointer(p') && StackOf(ram[..], p') == Push16(StackOf(old(ram[..]), p), data)
  {
    var addr := p - 2;
    p' := addr;
    if addr > 0x100 {
      ram[addr] := Byte(data);
      ram[addr + 1] := Byte(data / 0x100);
    } else {
      ram[Byte(addr) + 0x100] := Byte(data);
      ram[p' + 1] := Byte(data / 0x100);
      p' := p' + 0x100;
    }
  }

  /** RET's pop of the return address: a little-endian word at the pointer, or
      its two bytes from both ends of the page when the pointer is at $01FF or
      $0200. */
  method PopWord(ram: array<byte>, p: int) returns (w: int, p': int)
    requires ram.Length >= 0x202 && ValidPointer(p)
    ensures ValidPointer(p') && (w, StackOf(ram[..], p')) == Pop16(StackOf(ram[..], p))
  {
    var addr := p;
    w := ram[p + 1] as int * 0x100 + ram[p];
    p' := p + 2;
    if addr >= 0x1FF {
      w := ram[p' - 0x101] as int * 0x100 + ram[Byte(addr) + 0x100];
      p' := p' - 0x100;
    }
  }

  /** RETI as the hardware does it: pop the status byte, then the return
      address, each pop wrapping within page 1. */
  function ReturnFromInterrupt(s: Stk): (r: (byte, int, Stk))
    requires Fits(s)
    ensures 0 <= r.1 < U16 && r.2 == Stk(s.mem, Above(Above(Above(s.sp))))
  {
    var (psw, s1) := Pop(s);
    var (pc, s2) := Pop16(s1);
    (psw, pc, s2)
  }

  /** Three pushes use three different slots. */
  lemma ThreeSlots(v: byte)
    ensures Below(v) != v && Below(Below(v)) != v && Below(Below(v)) != Below(v)
  {
  }

  /** BRK (or an interrupt) pushes the return address and then the status; RETI
      gives both back and restores SP, for every SP. */
  lemma BreakThenReturn(s: Stk, ret: int, psw: byte)
    requires Fits(s)
    ensures var pushed := Push(Push16(s, ret), psw);
            ReturnFromInterrupt(pushed) == (psw, ret % U16, Stk(pushed.mem, s.sp))
  {
    var v1 := Below(s.sp);
    var v2 := Below(v1);
    AboveBelow(s.sp);
    AboveBelow(v1);
    AboveBelow(v2);
    ThreeSlots(s.sp);
    Split16(ret);
    var pushed := Push(Push16(s, ret), psw);
    assert pushed.mem[0x100 + v2] == psw;
    assert pushed.mem[0x100 + v1] == Byte(ret);
    assert pushed.mem[0x100 + s.sp] == Byte(ret / 0x100);
  }

  /** RETI on the RAM array, with the wrap of `POP` and of RET's pop. */
  method ReturnFromInterruptOn(ram: array<byte>, p: int) returns (psw: byte, pc: int, p': int)
    requires ram.Length >= 0x202 && ValidPointer(p)
    ensures ValidPointer(p')
    ensures (psw, pc, StackOf(ram[..], p')) == ReturnFromInterrupt(StackOf(ram[..], p))
  {
    var p1;
    psw, p1 := PopByte(ram, p);
    pc, p' := PopWord(ram, p1);
  }

  /** RETI as it is written (`RET1`): the status byte at the pointer, the return
      address after it, and the pointer moved up by three without the page wrap. */
  function ReturnFromInterruptAsWritten(mem: seq<byte>, p: int): (r: (byte, int, int))
    requires |mem| >= 0x203 && ValidPointer(p)
    ensures r.2 == p + 3
  {
    (mem[p], mem[p + 2] as int * 0x100 + mem[p + 1], p + 3)
  }

  /** BRK with SP = 0 wraps: its three pushes leave SP at 0xFD. */
  lemma BreakFromBottomWraps(s: Stk, ret: int, psw: byte)
    requires Fits(s) && s.sp == 0
    ensures Push(Push16(s, ret), psw).sp == 0xFD
  {
    assert Below(0) == 255 && Below(255) == 254 && Below(254) == 253;
  }

  /** RETI as written after a BRK with SP = 0 (so SP = 0xFD, see
      `BreakFromBottomWraps`): the pushes wrapped to the top of the page but
      the pops do not, so the pointer ends at $0201, outside the page, where
      the hardware is back at SP = 0; and the high byte of the return address
      comes from $0200 instead of $0100. */
  lemma ReturnAsWrittenLeavesPage(mem: seq<byte>)
    requires |mem| >= 0x203
    ensures ReturnFromInterrupt(Stk(mem, 0xFD)).2.sp == 0
    ensures ReturnFromInterruptAsWritten(mem, SetSp(0xFD)).2 == 0x201 && !ValidPointer(0x201)
  {
    assert Above(0xFD) == 0xFE && Above(0xFE) == 0xFF && Above(0xFF) == 0;
  }
}
