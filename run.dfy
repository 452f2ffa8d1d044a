/** The interpreter loop of snes_spc/SNES_SPC.cpp (`run_until_`) and
    `end_frame`: fetch an opcode, charge its cost from `m.cycle_table`, stop
    before an instruction that would run past the end of the burst, and
    otherwise dispatch to the instruction families of `Moves`, `Arith`, `WordOps`, `Flow` and `BitExec`. The cycle table and
    the byte the padding around RAM holds are parameters of the model. */
module Interpreter {
  import opened Bytes
  import opened Psw
  import opened Smp
  import opened Cpu
  import Stack
  import Machine
  import Moves
  import Arith
  import WordOps
  import Flow
  import BitExec

  /** The 8-bit transfers (groups 1-3). */
  predicate IsMove(op: byte)
  {
    op in {0xE5, 0xE6, 0xE7, 0xF4, 0xF5, 0xF6, 0xF7, 0xE4, 0xBF, 0xE8, 0xCD, 0x8D,
           0xF8, 0xF9, 0xE9, 0xEB, 0xFB, 0xEC, 0xC5, 0xC6, 0xC7, 0xD4, 0xD5, 0xD6, 0xD7,
           0xC4, 0x8F, 0xFA, 0xC9, 0xCC, 0xD8, 0xD9, 0xCB, 0xDB,
           0x7D, 0xDD, 0x5D, 0xFD, 0x9D, 0xBD, 0xAF}
  }

  /** The 8-bit arithmetic, logic, compare, increment, shift and XCN (groups
      4-7). */
  predicate IsArith(op: byte)
  {
    (op < 0xC0 && (IsAddrMode(op) || op % 0x20 in {0x08, 0x09, 0x18, 0x19})) ||
    op in {0xC8, 0x3E, 0x1E, 0xAD, 0x7E, 0x5E, 0xBC, 0x3D, 0xFC, 0x9C, 0x1D, 0xDC,
           0x9B, 0xBB, 0x8B, 0xAB, 0x8C, 0xAC, 0x1C, 0x3C, 0x5C, 0x7C,
           0x0B, 0x1B, 0x0C, 0x2B, 0x3B, 0x2C, 0x4B, 0x5B, 0x4C, 0x6B, 0x7B, 0x6C, 0x9F}
  }

  /** The 16-bit operations, MUL, DIV, DAA and DAS (groups 8-11). */
  predicate IsWord(op: byte)
  {
    op in {0xBA, 0xDA, 0x3A, 0x1A, 0x7A, 0x9A, 0x5A, 0xCF, 0x9E, 0xDF, 0xBE}
  }

  /** Branches, jumps, calls, returns, the stack, the flags and NOP (groups
      12-14, 16 and 17). */
  predicate IsFlow(op: byte)
  {
    IsConditional(op) || op in {0x5F, 0x1F} || Flow.IsCall(op) || op in {0x6F, 0x7F, 0x0D, 0x2D, 0x4D, 0x6D, 0x8E, 0xAE, 0xCE, 0xEE} ||
    Flow.IsFlagOp(op) || op == 0x00
  }

  /** The one-bit instructions (group 15). */
  predicate IsBitOp(op: byte)
  {
    op % 0x10 == 2 || op in {0x0E, 0x4E, 0xEA, 0xCA} || BitExec.IsCarryBitOp(op)
  }

  /** Every opcode belongs to one of the families, or is STOP or SLEEP: the
      `switch` of the loop has no hole. */
  lemma EveryOpcodeHandled(op: byte)
    ensures IsMove(op) || IsArith(op) || IsWord(op) || IsFlow(op) || IsBitOp(op) || op in {0xFF, 0xEF}
  {
    if op % 0x10 in {1, 2, 3} {
    } else if op % 0x20 in {0x04, 0x05, 0x06, 0x07, 0x08, 0x09, 0x14, 0x15, 0x16, 0x17, 0x18, 0x19} {
    } else {
      assert op % 0x10 !in {1, 2, 3};
    }
  }

  method ExecuteMove(s: Machine.Spc, r: Regs, op: byte, data: byte, time: int) returns (r': Regs)
    requires s.Valid() && Decoded(s.ram[..], r, data) && IsMove(op)
    modifies s.Repr
    ensures s.Valid() && ValidRegs(r') && s.Control() == old(s.Control())
  {
    if op in {0xE5, 0xE6, 0xE7, 0xF4, 0xF5, 0xF6, 0xF7} {
      r' := Moves.LoadA(s, r, op, data, time);
    } else if op == 0xE4 {
      r' := Moves.LoadADirect(s, r, data, time);
    } else if op == 0xBF {
      r' := Moves.LoadAIncrement(s, r, data, time);
    } else if op in {0xE8, 0xCD, 0x8D} {
      r' := Moves.LoadImmediate(r, op, data);
    } else if op in {0xF8, 0xF9, 0xE9, 0xEB, 0xFB, 0xEC} {
      r' := Moves.LoadIndex(s, r, op, data, time);
    } else if op in {0xC5, 0xC6, 0xC7, 0xD4, 0xD5, 0xD6, 0xD7} {
      r' := Moves.StoreA(s, r, op, data, time);
    } else if op == 0xC4 {
      r' := Moves.StoreADirect(s, r, data, time);
    } else if op in {0x8F, 0xFA} {
      r' := Moves.StoreDirect(s, r, op, data, time);
    } else if op in {0xC9, 0xCC} {
      r' := Moves.StoreIndexAbsolute(s, r, op, data, time);
    } else if op in {0xD8, 0xD9, 0xCB, 0xDB} {
      r' := Moves.StoreIndexDirect(s, r, op, data, time);
    } else if op == 0xAF {
      r' := Moves.StoreAIncrement(s, r, data, time);
    } else {
      r' := Moves.Transfer(r, op);
    }
  }

  method ExecuteArith(s: Machine.Spc, r: Regs, op: byte, data: byte, time: int) returns (r': Regs)
    requires s.Valid() && Decoded(s.ram[..], r, data) && IsArith(op)
    modifies s.Repr
    ensures s.Valid() && ValidRegs(r') && s.Control() == old(s.Control())
  {
    if op < 0xC0 && (IsAddrMode(op) || op % 0x20 == 0x08) {
      r' := Arith.AccumulatorOp(s, r, op, data, time);
    } else if op < 0xC0 && op % 0x20 in {0x09, 0x18, 0x19} {
      r' := Arith.MemoryOp(s, r, op, data, time);
    } else if op in {0xC8, 0x3E, 0x1E, 0xAD, 0x7E, 0x5E} {
      r' := Arith.CompareIndex(s, r, op, data, time);
    } else if op in {0xBC, 0x3D, 0xFC, 0x9C, 0x1D, 0xDC} {
      r' := Arith.StepRegister(r, op);
    } else if op in {0x9B, 0xBB, 0x8B, 0xAB, 0x8C, 0xAC} {
      r' := Arith.StepMemory(s, r, op, data, time);
    } else if op in {0x1C, 0x3C, 0x5C, 0x7C} {
      r' := Arith.ShiftA(r, op);
    } else if op == 0x9F {
      r' := Arith.ExchangeA(r);
    } else {
      r' := Arith.ShiftMemory(s, r, op, data, time);
    }
  }

  method ExecuteWord(s: Machine.Spc, r: Regs, op: byte, data: byte, time: int) returns (r': Regs)
    requires s.Valid() && Decoded(s.ram[..], r, data) && IsWord(op)
    modifies s.Repr
    ensures s.Valid() && ValidRegs(r') && s.Control() == old(s.Control())
  {
    if op == 0xBA {
      r' := WordOps.LoadWord(s, r, data, time);
    } else if op == 0xDA {
      r' := WordOps.StoreWord(s, r, data, time);
    } else if op in {0x3A, 0x1A} {
      r' := WordOps.StepWordMemory(s, r, op, data, time);
    } else if op in {0x7A, 0x9A} {
      r' := WordOps.AddSubtractWord(s, r, op, data, time);
    } else if op == 0x5A {
      r' := WordOps.CompareWordMemory(s, r, data, time);
    } else if op == 0xCF {
      r' := WordOps.MultiplyYA(r);
    } else if op == 0x9E {
      r' := WordOps.DivideYA(r);
    } else {
      r' := WordOps.AdjustA(r, op);
    }
  }

  /** The conditional branches, DBNZ Y and the compare-and-branch
      instructions; `refund` is the two cycles an untaken branch gives back. */
  predicate IsConditional(op: byte)
  {
    Flow.IsBranch(op) || op == 0xFE || Flow.IsCompareBranch(op)
  }

  method ExecuteConditional(s: Machine.Spc, r: Regs, op: byte, data: byte, time: int) returns (r': Regs, refund: int)
    requires s.Valid() && Decoded(s.ram[..], r, data) && IsConditional(op)
    modifies s.Repr
    ensures s.Valid() && ValidRegs(r') && s.Control() == old(s.Control())
    ensures refund == 0 || (refund == 2 && RefundsTwo(op))
    ensures Flow.IsBranch(op) ==> r' == Flow.Branch(r, op, data) && (refund == 2 <==> !Flow.Taken(r, op))
    ensures op == 0xFE ==> r' == Flow.DecrementBranch(r, data) && (refund == 2 <==> r'.y == 0)
    ensures Flow.IsCompareBranch(op) ==>
              var (v, _) := Flow.Compared(old(s.Abs()), s.cfg, r, op, data, time, s.dsp);
              refund == 2 <==> !Flow.CompareTaken(op, v, r.a)
  {
    refund := 0;
    if Flow.IsBranch(op) {
      Flow.BranchInReach(r, op, data);
      r' := Flow.Branch(r, op, data);
      if !Flow.Taken(r, op) {
        refund := 2;
      }
    } else if op == 0xFE {
      r' := Flow.DecrementBranch(r, data);
      if r'.y == 0 {
        refund := 2;
      }
    } else {
      var taken;
      r', taken := Flow.CompareBranch(s, r, op, data, time);
      if !taken {
        refund := 2;
      }
    }
  }

  /** Jumps, calls, returns, the stack, the flags and NOP. */
  method ExecuteControl(s: Machine.Spc, r: Regs, op: byte, data: byte) returns (r': Regs)
    requires s.Valid() && Decoded(s.ram[..], r, data) && IsFlow(op) && !IsConditional(op)
    modifies s.Repr
    ensures s.Valid() && ValidRegs(r') && s.Control() == old(s.Control())
  {
    if op in {0x5F, 0x1F} {
      r' := Flow.Jump(s.ram[..], r, op, data);
    } else if op == 0x0F {
      r' := Flow.Break(s, r, data);
    } else if Flow.IsCall(op) {
      r' := Flow.Call(s, r, op, data);
    } else if op == 0x6F {
      r' := Flow.Return(s, r);
    } else if op == 0x7F {
      r' := Flow.ReturnFromInterruptOp(s, r);
    } else if op in {0x0D, 0x2D, 0x4D, 0x6D} {
      r' := Flow.PushRegister(s, r, op);
    } else if op in {0x8E, 0xAE, 0xCE, 0xEE} {
      r' := Flow.PopRegister(s, r, op);
    } else if Flow.IsFlagOp(op) {
      r' := Flow.FlagOp(r, op);
    } else {
      r' := r;
    }
  }

  method ExecuteBitOp(s: Machine.Spc, r: Regs, op: byte, data: byte, time: int) returns (r': Regs)
    requires s.Valid() && Decoded(s.ram[..], r, data) && IsBitOp(op)
    modifies s.Repr
    ensures s.Valid() && ValidRegs(r') && s.Control() == old(s.Control())
  {
    if op % 0x10 == 2 {
      r' := BitExec.SetClearBit(s, r, op, data, time);
    } else if op in {0x0E, 0x4E} {
      r' := BitExec.TestSetBits(s, r, op, data, time);
    } else if op == 0xEA {
      r' := BitExec.FlipMemoryBit(s, r, data, time);
    } else if op == 0xCA {
      r' := BitExec.StoreCarryBit(s, r, data, time);
    } else {
      r' := BitExec.CarryBit(s, r, op, data, time);
    }
  }

  /** One instruction whose opcode `op` was fetched from `pc - 1`, inside
      $0000-$FFFF, at relative time `time`. STOP and SLEEP
      halt the CPU: `pc` goes back to the opcode and `m.cpu_error` is set.
      Every other instruction leaves the loop running, and the untaken
      branches give two cycles back. */
  method Execute(s: Machine.Spc, r: Regs, op: byte, data: byte, time: int) returns (r': Regs, refund: int, halt: bool)
    requires s.Valid() && Decoded(s.ram[..], r, data)
    modifies s.Repr
    ensures s.Valid() && ValidRegs(r')
    ensures halt <==> op in {0xFF, 0xEF}
    ensures halt ==> r' == r.(pc := r.pc - 1) && refund == 0 && s.ram[..] == old(s.ram[..])
    ensures refund == 0 || (refund == 2 && RefundsTwo(op))
    ensures Flow.IsBranch(op) ==> r' == Flow.Branch(r, op, data) && (refund == 2 <==> !Flow.Taken(r, op))
    ensures op == 0xFE ==> r' == Flow.DecrementBranch(r, data) && (refund == 2 <==> r'.y == 0)
    ensures Flow.IsCompareBranch(op) ==>
              var (v, _) := Flow.Compared(old(s.Abs()), s.cfg, r, op, data, time, s.dsp);
              refund == 2 <==> !Flow.CompareTaken(op, v, r.a)
    ensures s.cpuRegs == old(s.cpuRegs) && s.spcTime == old(s.spcTime) && s.extraClocks == old(s.extraClocks)
    ensures s.cpuError == (old(s.cpuError) || halt)
  {
    refund, halt := 0, false;
    if op in {0xFF, 0xEF} {
      r' := r.(pc := r.pc - 1);
      s.cpuError := true;
      halt := true;
    } else if IsConditional(op) {
      r', refund := ExecuteConditional(s, r, op, data, time);
    } else {
      r' := ExecuteOther(s, r, op, data, time);
    }
  }

  /** The families that never give cycles back: every opcode but STOP, SLEEP
      and the conditional branches. */
  method ExecuteOther(s: Machine.Spc, r: Regs, op: byte, data: byte, time: int) returns (r': Regs)
    requires s.Valid() && Decoded(s.ram[..], r, data) && !IsConditional(op) && op !in {0xFF, 0xEF}
    modifies s.Repr
    ensures s.Valid() && ValidRegs(r') && s.Control() == old(s.Control())
  {
    EveryOpcodeHandled(op);
    if IsMove(op) {
      r' := ExecuteMove(s, r, op, data, time);
    } else if IsArith(op) {
      r' := ExecuteArith(s, r, op, data, time);
    } else if IsWord(op) {
      r' := ExecuteWord(s, r, op, data, time);
    } else if IsFlow(op) {
      r' := ExecuteControl(s, r, op, data);
    } else {
      r' := ExecuteBitOp(s, r, op, data, time);
    }
  }

  /** STOP fetched outside $0000-$FFFF (from the padding, which holds STOP):
      `pc` wraps around into RAM and the loop goes on. */
  function WrapPc(r: Regs): (r': Regs)
    ensures r' == r.(pc := r'.pc) && 0 <= r'.pc < U16 && (r'.pc - r.pc) % U16 == 0
  {
    r.(pc := r.pc % U16)
  }

  /** One pass of the loop and its `switch`: fetch the
      opcode at `pc` and charge its cost. An instruction that does not fit
      before the end of the burst is not executed and its cost is refunded
      (`out_of_time`): nothing changes and the loop is `done`.
      Otherwise the instruction runs, or, for STOP fetched from the padding
      outside RAM, `pc` wraps around; the clock has then advanced by at least
      one cycle. STOP and SLEEP inside RAM halt with the clock at the end of
      the burst and `pc` on the halting opcode. */
  method Step(s: Machine.Spc, cycles: seq<int>, r: Regs, rel: int) returns (r': Regs, rel': int, done: bool, halt: bool)
    requires s.Valid() && ValidCycles(cycles) && s.cfg.padFill == StopOpcode
    requires ValidRegs(r) && rel <= 0
    modifies s.Repr
    ensures s.Valid() && ValidRegs(r') && rel' <= 0
    ensures s.cpuRegs == old(s.cpuRegs) && s.spcTime == old(s.spcTime) && s.extraClocks == old(s.extraClocks)
    ensures s.cpuError == (old(s.cpuError) || halt)
    ensures halt ==> done && rel' == 0 && 0 <= r'.pc < U16 && s.ram[r'.pc] in {0xFF, 0xEF}
    ensures done && !halt ==> rel' == rel && r' == r && s.Abs() == old(s.Abs()) && -11 <= rel
    ensures !done ==> rel' > rel
    ensures var op := Fetch(old(s.ram[..]), r.pc);
            (done && !halt <==> rel + cycles[op] > 0) &&
            (!done ==> rel' == rel + cycles[op] || (RefundsTwo(op) && rel' == rel + cycles[op] - 2)) &&
            (!done && Flow.IsBranch(op) ==> (rel' == rel + cycles[op] - 2 <==> !Flow.Taken(r, op)))
  {
    if !(0 <= r.pc < U16) {
      FetchOutsideMemory(s.Abs(), s.cfg, r.pc);
    }
    var op := Fetch(s.ram[..], r.pc);
    var cost := cycles[op];
    done, halt := false, false;
    if rel + cost > 0 {
      r', rel', done := r, rel, true;
    } else if op == StopOpcode && !(0 <= r.pc < U16) {
      r', rel' := WrapPc(r), rel + cost;
    } else {
      var refund;
      r', refund, halt := Execute(s, r.(pc := r.pc + 1), op, s.ram[r.pc + 1], rel + cost);
      if halt {
        rel', done := 0, true;
      } else {
        rel' := rel + cost - refund;
      }
    }
  }

  /** The epilogue of `run_until_`: save the registers in
      `m.cpu_regs`, move the clock to the time reached, and switch the DSP
      and timer clocks back to absolute times. */
  method Finish(s: Machine.Spc, r: Regs, rel: int)
    requires s.Valid() && ValidRegs(r)
    modifies s, s.timers
    ensures s.Valid() && s.cpuRegs == SaveRegs(r) && s.spcTime == old(s.spcTime) + rel
    ensures s.extraClocks == old(s.extraClocks) && s.cpuError == old(s.cpuError)
    ensures s.ram[..] == old(s.ram[..]) && s.dspTime == old(s.dspTime) - rel
    ensures 0 <= r.pc < U16 ==> s.cpuRegs.pc == r.pc
  {
    s.SaveCpu(SaveRegs(r), s.spcTime + rel);
    s.Rebase(-rel);
  }

  /** `run_until_`: switch the clocks to times relative to `endTime`, run
      instructions while their cost fits, then switch back and save the
      registers. The burst ends at most 11 clocks before `endTime`, since
      the instruction that did not fit costs at most 12, or exactly at
      `endTime` when STOP or SLEEP halted the CPU; `pc` is then saved on the
      halting opcode. */
  method RunUntil(s: Machine.Spc, cycles: seq<int>, endTime: int)
    requires s.Valid() && ValidCycles(cycles) && s.cfg.padFill == StopOpcode
    requires s.spcTime <= endTime
    modifies s.Repr
    ensures s.Valid()
    ensures endTime - 11 <= s.spcTime <= endTime
    ensures s.extraClocks == old(s.extraClocks) && (old(s.cpuError) ==> s.cpuError)
    ensures s.cpuError && !old(s.cpuError) ==>
              s.spcTime == endTime && s.ram[s.cpuRegs.pc] in {0xFF, 0xEF}
  {
    var rel := s.spcTime - endTime;
    s.spcTime := endTime;
    s.Rebase(rel);
    var r := LoadRegs(s.cpuRegs);
    var done, halted := false, false;
    while !done
      invariant s.Valid() && ValidRegs(r) && rel <= 0
      invariant s.spcTime == endTime && s.extraClocks == old(s.extraClocks)
      invariant s.cpuError == (old(s.cpuError) || halted)
      invariant halted ==> done && rel == 0 && 0 <= r.pc < U16 && s.ram[r.pc] in {0xFF, 0xEF}
      invariant done ==> -11 <= rel
      decreases !done, -rel
    {
      r, rel, done, halted := Step(s, cycles, r, rel);
    }
    ghost var ram := s.ram[..];
    Finish(s, r, rel);
    assert halted ==> s.ram[..][s.cpuRegs.pc] == ram[r.pc];
  }

  /** `end_frame`: catch the CPU up to `endTime` (if it is behind), start the
      next frame's clock at 0 so the CPU is at most 11 clocks behind it, carry
      `endTime` into `extra_clocks`, then catch the timers and the DSP up to
      the CPU. */
  method EndFrame(s: Machine.Spc, cycles: seq<int>, endTime: int)
    requires s.Valid() && ValidCycles(cycles) && s.cfg.padFill == StopOpcode
    modifies s.Repr
    ensures s.Valid()
    ensures old(s.spcTime) <= endTime ==> -11 <= s.spcTime <= 0
    ensures s.extraClocks == old(s.extraClocks) + endTime
    ensures forall i :: 0 <= i < 3 ==> s.timers[i].nextTime > 0
    ensures s.dspTime >= 0
  {
    if endTime > s.spcTime {
      RunUntil(s, cycles, endTime);
    }
    s.spcTime := s.spcTime - endTime;
    s.extraClocks := s.extraClocks + endTime;
    for i := 0 to 3
      invariant s.Valid() && s.extraClocks == old(s.extraClocks) + endTime
      invariant old(s.spcTime) <= endTime ==> -11 <= s.spcTime <= 0
      invariant forall j :: 0 <= j < i ==> s.timers[j].nextTime > 0
    {
      s.RunTimer(i, 0);
    }
    if s.dspTime < 0 {
      s.RunDsp(0);
    }
  }
}
