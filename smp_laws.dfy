/** What the register and memory router promises (snes_spc/SNES_SPC.cpp:81-504),
    proved about the functions of `Smp`. */
module SmpLaws {
  import opened Bytes
  import opened Bits
  import opened BitOps
  import Timers
  import opened Smp

  /** The side effects of $F0-$FF leave `REGS` and the RAM below the ROM alone. */
  lemma SmpRegFrame(st: State, cfg: Config, data: int, time: int, reg: int)
    requires Valid(st) && ValidConfig(cfg) && 0 <= reg < 16
    ensures var r := WriteSmpReg(st, cfg, data, time, reg);
            r.regs == st.regs && r.ram[..RomAddr] == st.ram[..RomAddr] &&
            r.ram[0x1_0000..] == st.ram[0x1_0000..]
  {
    var r := WriteSmpReg(st, cfg, data, time, reg);
    if reg == RControl {
      var in1 := if And(data, 0x10) != 0 then st.regsIn[RCpuIo0 := 0][RCpuIo0 + 1 := 0] else st.regsIn;
      var in2 := if And(data, 0x20) != 0 then in1[RCpuIo0 + 2 := 0][RCpuIo0 + 3 := 0] else in1;
      var st1 := st.(regsIn := in2, timers := ControlTimers(st.timers, data, time, 0));
      assert r == EnableRom(st1, cfg, And(data, 0x80));
      assert r.ram[..RomAddr] == st.ram[..RomAddr];
      assert r.ram[0x1_0000..] == st.ram[0x1_0000..];
    }
  }

  /** A write below the ROM area stores the byte in RAM, and for $F0-$FF also in
      `REGS`. */
  lemma WriteStoresByte(st: State, cfg: Config, data: int, addr: int, time: int)
    requires Valid(st) && ValidConfig(cfg) && 0 <= addr < RomAddr
    ensures Write(st, cfg, data, addr, time).ram[addr] == Byte(data)
    ensures 0xF0 <= addr < 0x100 ==> Write(st, cfg, data, addr, time).regs[addr - 0xF0] == Byte(data)
  {
    if 0xF0 <= addr < 0x100 {
      var reg := addr - 0xF0;
      var st2 := st.(ram := st.ram[addr := Byte(data)], regs := st.regs[reg := Byte(data)]);
      SmpRegFrame(st2, cfg, data, time, reg);
      assert st2.ram[addr] == st2.ram[..RomAddr][addr];
    }
  }

  /** $F2 and the ports $F4-$F7 act as plain storage when written: the byte
      lands in RAM and `REGS` and nothing else changes. */
  lemma PlainRegisterWrite(st: State, cfg: Config, data: int, addr: int, time: int)
    requires Valid(st) && ValidConfig(cfg) && (addr == 0xF2 || 0xF4 <= addr <= 0xF7)
    ensures Write(st, cfg, data, addr, time) ==
              st.(ram := st.ram[addr := Byte(data)], regs := st.regs[addr - 0xF0 := Byte(data)])
  {
    SelectorPicksRegisters(addr - 0xF0);
  }

  /** A write to $F3 runs the DSP up to `time` and then reaches `dsp.write`
      exactly when $F2 names one of the 128 DSP registers; nothing but RAM,
      `REGS` and the DSP side changes. */
  lemma DspDataWrite(st: State, cfg: Config, data: int, time: int)
    requires Valid(st) && ValidConfig(cfg)
    ensures var r := Write(st, cfg, data, 0xF3, time);
            r.dspLog == st.dspLog + [RunCall(time - st.dspTime)] +
                        (if st.regs[RDspAddr] <= 0x7F then [WriteCall(st.regs[RDspAddr], data)] else []) &&
            r == st.(ram := st.ram[0xF3 := Byte(data)], regs := st.regs[RDspData := Byte(data)],
                     dspTime := time, dspLog := r.dspLog)
  {
    SelectorPicksRegisters(RDspData);
  }

  /** While the ROM is shown, a write under it goes to `hi_ram` and the CPU
      still sees the ROM byte; while it is hidden, the write shows in RAM too. */
  lemma WriteUnderRom(st: State, cfg: Config, data: int, i: int, time: int)
    requires Valid(st) && ValidConfig(cfg) && 0 <= i < RomSize
    ensures var r := Write(st, cfg, data, RomAddr + i, time);
            r.hiRam[i] == Byte(data) &&
            r.ram[RomAddr + i] == (if st.romEnabled != 0 then cfg.rom[i] else Byte(data))
  {
  }

  /** A write past $FFFF leaves the padding byte in place; the data goes to
      the wrapped-around address in page 0. */
  lemma WrappedWrite(st: State, cfg: Config, data: int, addr: int, time: int)
    requires Valid(st) && ValidConfig(cfg) && 0x1_0000 <= addr < RamSize
    ensures var r := Write(st, cfg, data, addr, time);
            r.ram[addr] == cfg.padFill && r.ram[addr - 0x1_0000] == Byte(data)
  {
    var low := addr - 0x1_0000;
    var st1 := st.(ram := st.ram[addr := Byte(data)][addr := cfg.padFill]);
    assert Write(st, cfg, data, addr, time) == Write(st1, cfg, data, low, time);
    WriteStoresByte(st1, cfg, data, low, time);
    var st2 := st1.(ram := st1.ram[low := Byte(data)]);
    if 0xF0 <= low < 0x100 {
      var st3 := st2.(regs := st2.regs[low - 0xF0 := Byte(data)]);
      SmpRegFrame(st3, cfg, data, time, low - 0xF0);
      assert st3.ram[addr] == st3.ram[0x1_0000..][low];
    }
  }

  /** A write to $FA-$FC sets the period of its timer to the data, 0 meaning
      256; when the period does not change, nothing but RAM and `REGS` does. */
  lemma TargetWrite(st: State, cfg: Config, data: int, i: int, time: int)
    requires Valid(st) && ValidConfig(cfg) && 0 <= i < 3
    ensures var r := Write(st, cfg, data, 0xFA + i, time);
            r.timers[i].period == Timers.IfZeroThen256(data) &&
            r.timers[i].enabled == st.timers[i].enabled &&
            (forall k :: 0 <= k < 3 && k != i ==> r.timers[k] == st.timers[k]) &&
            r == st.(ram := r.ram, regs := r.regs, timers := r.timers) &&
            (st.timers[i].period == Timers.IfZeroThen256(data) ==> r.timers == st.timers) &&
            (st.timers[i].period != Timers.IfZeroThen256(data) ==>
               r.timers == st.timers[i := Timers.RunTimer(st.timers[i], time).(period := Timers.IfZeroThen256(data))])
  {
    SelectorPicksRegisters(RT0Target + i);
  }

  /** A write to $FD-$FF clears the counter of its timer after catching it up to
      just before the write, unless the write carries `NoReadBeforeWrite`. */
  lemma OutWrite(st: State, cfg: Config, data: int, i: int, time: int)
    requires Valid(st) && ValidConfig(cfg) && 0 <= i < 3
    ensures var r := Write(st, cfg, data, 0xFD + i, time);
            r == st.(ram := r.ram, regs := r.regs, timers := r.timers) &&
            (data < NoReadBeforeWrite / 2 ==>
               r.timers == st.timers[i := Timers.RunTimer(st.timers[i], time - 1).(counter := 0)]) &&
            (data >= NoReadBeforeWrite / 2 ==> r.timers == st.timers)
  {
    SelectorPicksRegisters(RT0Out + i);
  }

  /** The loop of a control write handles each timer from `i` on by its own bit
      and leaves the timers before `i`. */
  lemma {:induction false} ControlTimersEach(timers: seq<Timers.Timer>, data: int, time: int, i: nat, k: int)
    requires |timers| == 3 && i <= 3 && 0 <= k < 3
    requires forall j :: 0 <= j < 3 ==> Timers.Valid(timers[j])
    ensures ControlTimers(timers, data, time, i)[k] ==
              if k < i then timers[k] else ControlTimer(timers[k], Bit(data, k), time)
    decreases 3 - i
  {
    if i < 3 {
      var next := timers[i := ControlTimer(timers[i], Bit(data, i), time)];
      ControlTimersEach(next, data, time, i + 1, k);
    }
  }

  /** A write to the control register $F1: bit 4 clears input ports 0 and 1,
      bit 5 ports 2 and 3; timer `k` ends up enabled exactly when bit `k` is
      set, restarts from 0 only when it was disabled before, and is left alone
      when its bit does not change; bit 7 shows or hides the ROM. */
  lemma ControlWrite(st: State, cfg: Config, data: int, time: int, k: int)
    requires Valid(st) && ValidConfig(cfg) && 0 <= k < 3
    ensures var r := Write(st, cfg, data, 0xF1, time);
            r.regsIn[RCpuIo0] == (if Bit(data, 4) then 0 else st.regsIn[RCpuIo0]) &&
            r.regsIn[RCpuIo0 + 1] == (if Bit(data, 4) then 0 else st.regsIn[RCpuIo0 + 1]) &&
            r.regsIn[RCpuIo0 + 2] == (if Bit(data, 5) then 0 else st.regsIn[RCpuIo0 + 2]) &&
            r.regsIn[RCpuIo0 + 3] == (if Bit(data, 5) then 0 else st.regsIn[RCpuIo0 + 3]) &&
            r.timers[k].enabled == Bit(data, k) &&
            (!st.timers[k].enabled && Bit(data, k) ==> r.timers[k].divider == 0 && r.timers[k].counter == 0) &&
            (st.timers[k].enabled == Bit(data, k) ==> r.timers[k] == st.timers[k]) &&
            (st.timers[k].enabled != Bit(data, k) ==>
               var caught := Timers.RunTimer(st.timers[k], time);
               r.timers[k].nextTime == caught.nextTime && r.timers[k].period == caught.period &&
               r.timers[k].prescaler == caught.prescaler &&
               (!Bit(data, k) ==> r.timers[k].divider == caught.divider && r.timers[k].counter == caught.counter)) &&
            (r.romEnabled != 0) == Bit(data, 7)
  {
    SelectorPicksRegisters(RControl);
    SmallPowers();
    AndSingle(data, 4);
    AndSingle(data, 5);
    AndSingle(data, 7);
    ControlTimersEach(st.timers, data, time, 0, k);
  }

  /** Outside $F0-$FF and below $10000 a read returns the RAM byte and changes
      nothing. */
  lemma ReadRam(st: State, addr: int, time: int, dsp: DspReader)
    requires Valid(st) && (0 <= addr < 0xF0 || 0x100 <= addr < 0x1_0000)
    ensures Read(st, addr, time, dsp) == (st.ram[addr] as int, st)
  {
  }

  /** A read of $F0-$FC other than $F3 changes nothing; $F2 gives back the DSP
      address last written and the others the bytes in `REGS_IN`. */
  lemma ReadRegister(st: State, reg: int, time: int, dsp: DspReader)
    requires Valid(st) && 0 <= reg < RT0Out && reg != RDspData
    ensures Read(st, 0xF0 + reg, time, dsp) ==
              ((if reg == RDspAddr then st.regs[RDspAddr] else st.regsIn[reg]) as int, st)
  {
  }

  /** A read of $F3 runs the DSP up to `time` and reads the DSP register that
      $F2 names, ignoring its top bit. */
  lemma ReadDspData(st: State, time: int, dsp: DspReader)
    requires Valid(st)
    ensures var (v, r) := Read(st, 0xF3, time, dsp);
            var addr := And(st.regs[RDspAddr], 0x7F);
            var ran := st.dspLog + [RunCall(time - st.dspTime)];
            r == st.(dspTime := time, dspLog := ran + [ReadCall(addr)]) && v == dsp(ran, addr) as int
  {
  }

  /** A read of $FD-$FF returns the 4-bit counter of its timer brought up to
      `time`, and clears it; nothing else changes. */
  lemma TimerRead(st: State, i: int, time: int, dsp: DspReader)
    requires Valid(st) && 0 <= i < 3
    ensures var (v, r) := Read(st, 0xFD + i, time, dsp);
            var t := Timers.RunTimer(st.timers[i], time);
            0 <= v < 16 && v == t.counter && r == st.(timers := st.timers[i := t.(counter := 0)])
  {
  }

  /** Two reads of a timer output at the same time: the second gives 0. */
  lemma SecondTimerRead(st: State, i: int, time: int, dsp: DspReader)
    requires Valid(st) && 0 <= i < 3
    ensures Read(Read(st, 0xFD + i, time, dsp).1, 0xFD + i, time, dsp).0 == 0
  {
    TimerRead(st, i, time, dsp);
    var r := Read(st, 0xFD + i, time, dsp).1;
    TimerRead(r, i, time, dsp);
    Timers.SecondReadIsZero(st.timers[i], time);
  }

  /** A read past $FFFF is the read of the same address in page 0. */
  lemma WrappedRead(st: State, addr: int, time: int, dsp: DspReader)
    requires Valid(st) && 0x1_0000 <= addr < RamSize
    ensures Read(st, addr, time, dsp) == Read(st, addr - 0x1_0000, time, dsp)
  {
  }

  /** No read changes RAM, `REGS`, `REGS_IN`, `hi_ram` or the ROM setting. */
  lemma ReadKeepsMemory(st: State, addr: int, time: int, dsp: DspReader)
    requires Valid(st) && 0 <= addr < RamSize
    ensures var r := Read(st, addr, time, dsp).1;
            r.ram == st.ram && r.regs == st.regs && r.regsIn == st.regsIn &&
            r.hiRam == st.hiRam && r.romEnabled == st.romEnabled
    decreases addr
  {
    if addr >= 0x1_0000 {
      WrappedRead(st, addr, time, dsp);
      ReadKeepsMemory(st, addr - 0x1_0000, time, dsp);
    }
  }

  /** Plain RAM reads back what was written, at any later time. */
  lemma WriteThenReadRam(st: State, cfg: Config, data: int, addr: int, t1: int, t2: int, dsp: DspReader)
    requires Valid(st) && ValidConfig(cfg) && (0 <= addr < 0xF0 || 0x100 <= addr < RomAddr)
    ensures Read(Write(st, cfg, data, addr, t1), addr, t2, dsp).0 == Byte(data)
  {
    WriteStoresByte(st, cfg, data, addr, t1);
    ReadRam(Write(st, cfg, data, addr, t1), addr, t2, dsp);
  }

  /** $F8 and $F9 behave as RAM: the byte written is the byte read. */
  lemma WriteThenReadPort(st: State, cfg: Config, data: int, reg: int, t1: int, t2: int, dsp: DspReader)
    requires Valid(st) && ValidConfig(cfg) && (reg == 8 || reg == 9)
    ensures Read(Write(st, cfg, data, 0xF0 + reg, t1), 0xF0 + reg, t2, dsp).0 == Byte(data)
  {
    SelectorPicksRegisters(reg);
    ReadRegister(Write(st, cfg, data, 0xF0 + reg, t1), reg, t2, dsp);
  }

  /** No write disturbs the padding after $FFFF: a write past $FFFF puts the
      pad fill back before it wraps around. */
  lemma WriteKeepsPadding(st: State, cfg: Config, data: int, addr: int, time: int)
    requires Valid(st) && ValidConfig(cfg) && 0 <= addr < RamSize && Padded(st, cfg)
    ensures Padded(Write(st, cfg, data, addr, time), cfg)
    decreases addr
  {
    var st1 := st.(ram := st.ram[addr := Byte(data)]);
    if 0xF0 <= addr < 0x100 {
      var st2 := st1.(regs := st1.regs[addr - 0xF0 := Byte(data)]);
      SmpRegFrame(st2, cfg, data, time, addr - 0xF0);
      var r := Write(st, cfg, data, addr, time);
      forall a | 0x1_0000 <= a < RamSize
        ensures r.ram[a] == cfg.padFill
      {
        assert r.ram[a] == r.ram[0x1_0000..][a - 0x1_0000];
      }
    } else if addr >= 0x1_0000 {
      var st3 := st.(ram := st1.ram[addr := cfg.padFill]);
      assert Write(st, cfg, data, addr, time) == Write(st3, cfg, data, addr - 0x1_0000, time);
      WriteKeepsPadding(st3, cfg, data, addr - 0x1_0000, time);
    }
  }
}
