/** The emulator object of snes_spc/SNES_SPC.cpp as it is updated in place:
    RAM, `REGS`, `REGS_IN`, `hi_ram` and the timers are arrays, and every
    router operation is a method proved to leave the object in the state the
    matching function of `Smp` computes. */
module Machine {
  import opened Bytes
  import opened Bits
  import opened BitOps
  import Timers
  import opened Smp
  import SmpLaws

  /** `m.cpu_regs`: the CPU registers kept between bursts. */
  datatype CpuRegs = CpuRegs(pc: int, a: byte, x: byte, y: byte, psw: byte, sp: byte)

  predicate ValidCpuRegs(r: CpuRegs)
  {
    0 <= r.pc < U16
  }

  class Spc {
    const cfg: Config
    /** The DSP's answers to register reads; its own state is not modelled. */
    const dsp: DspReader
    const ram: array<byte>
    const regs: array<byte>
    const regsIn: array<byte>
    const hiRam: array<byte>
    const timers: array<Timers.Timer>
    var romEnabled: int
    var dspTime: int
    /** The calls made on the DSP so far. */
    var dspLog: seq<DspCall>
    var spcTime: int
    var extraClocks: int
    var cpuRegs: CpuRegs
    /** Set once the CPU has executed STOP or SLEEP. */
    var cpuError: bool
    ghost const Repr: set<object>

    /** The object's memory and timer state as an `Smp.State` value. */
    function Abs(): State
      reads this, ram, regs, regsIn, hiRam, timers
    {
      State(ram[..], regs[..], regsIn[..], hiRam[..], timers[..], romEnabled, dspTime, dspLog)
    }

    /** The fields the loop keeps apart from memory and the timers: the saved
        registers, the clock, the clocks carried over and the error flag. */
    function Control(): (CpuRegs, int, int, bool)
      reads this
    {
      (cpuRegs, spcTime, extraClocks, cpuError)
    }

    /** The arrays are distinct and have the sizes of the emulator's buffers. */
    ghost predicate Shape()
      reads this, Repr
    {
      Repr == {this, ram, regs, regsIn, hiRam, timers} &&
      ram != regs && ram != regsIn && ram != hiRam && regs != regsIn && regs != hiRam &&
      regsIn != hiRam && ValidConfig(cfg) && Smp.Valid(Abs()) && ValidCpuRegs(cpuRegs)
    }

    ghost predicate Valid()
      reads this, Repr
    {
      Shape() && Padded(Abs(), cfg)
    }

    /** A zeroed emulator with the padding filled; the emulator's own reset and
        snapshot loading are not part of this model. */
    constructor (cfg: Config, dsp: DspReader)
      requires ValidConfig(cfg)
      ensures Valid() && this.cfg == cfg && this.dsp == dsp
    {
      this.cfg := cfg;
      this.dsp := dsp;
      var mem := new byte[RamSize](a => if a >= 0x1_0000 then cfg.padFill else 0);
      assert forall a :: 0x1_0000 <= a < RamSize ==> mem[..][a] == cfg.padFill;
      var idle := Timers.Timer(0, 1, 256, 0, false, 0);
      ram := mem;
      regs := new byte[16];
      regsIn := new byte[16];
      hiRam := new byte[RomSize];
      timers := new Timers.Timer[3](_ => idle);
      romEnabled := 0;
      dspTime := 0;
      dspLog := [];
      spcTime := 0;
      extraClocks := 0;
      cpuRegs := CpuRegs(0, 0, 0, 0, 0, 0);
      cpuError := false;
      Repr := {this, ram, regs, regsIn, hiRam, timers};
    }

    /** The first `memcpy` of `enable_rom`: the visible bytes at $FFC0 into
        `hi_ram`. */
    method SaveVisible()
      requires ram.Length == RamSize && hiRam.Length == RomSize && ram != hiRam
      modifies hiRam
      ensures hiRam[..] == ram[RomAddr..RomAddr + RomSize]
    {
      for i := 0 to RomSize
        invariant hiRam[..i] == ram[RomAddr..RomAddr + i]
      {
        hiRam[i] := ram[RomAddr + i];
      }
    }

    /** The second `memcpy` of `enable_rom`: `src` over the bytes at $FFC0. */
    method Show(src: seq<byte>)
      requires ram.Length == RamSize && |src| == RomSize
      modifies ram
      ensures ram[..] == Overlay(old(ram[..]), src)
    {
      for i := 0 to RomSize
        invariant forall a :: 0 <= a < RamSize ==>
                    ram[a] == if RomAddr <= a < RomAddr + i then src[a - RomAddr] else old(ram[a])
      {
        ram[RomAddr + i] := src[i];
      }
    }

    /** `enable_rom`: on a change, save the visible bytes at $FFC0 into
        `hi_ram` when enabling, then copy the ROM or `hi_ram` over them. */
    method EnableRom(enable: int)
      requires Valid()
      modifies this, ram, hiRam
      ensures Valid() && Abs() == Smp.EnableRom(old(Abs()), cfg, enable)
      ensures Control() == old(Control())
    {
      if romEnabled != enable {
        romEnabled := enable;
        if enable != 0 {
          SaveVisible();
        }
        Show(if enable != 0 then cfg.rom else hiRam[..]);
      }
    }

    /** The end of a burst: the registers go back to `m.cpu_regs` and the
        clock to the time reached. */
    method SaveCpu(saved: CpuRegs, time: int)
      requires Valid() && ValidCpuRegs(saved)
      modifies this
      ensures Valid() && Abs() == old(Abs()) && cpuRegs == saved && spcTime == time
      ensures extraClocks == old(extraClocks) && cpuError == old(cpuError)
    {
      cpuRegs := saved;
      spcTime := time;
    }

    /** `run_timer` on timer `i`. */
    method RunTimer(i: int, time: int)
      requires Valid() && 0 <= i < 3
      modifies timers
      ensures Valid() && Abs() == RunTimerAt(old(Abs()), i, time)
    {
      timers[i] := Timers.RunTimer(timers[i], time);
    }

    /** `RUN_DSP`: run the DSP for the clocks since it last ran. */
    method RunDsp(time: int)
      requires Valid()
      modifies this
      ensures Valid() && Abs() == Smp.RunDsp(old(Abs()), time)
      ensures Control() == old(Control())
    {
      var count := time - dspTime;
      dspTime := time;
      dspLog := dspLog + [RunCall(count)];
    }

    /** Move the DSP clock and every timer's next tick by `delta`: the
        prologue and epilogue of `run_until_` switch between absolute times
        and times relative to the end of the burst. */
    method Rebase(delta: int)
      requires Valid()
      modifies this, timers
      ensures Valid() && dspTime == old(dspTime) + delta
      ensures forall i :: 0 <= i < 3 ==>
                timers[i] == old(timers[i]).(nextTime := old(timers[i].nextTime) + delta)
      ensures ram[..] == old(ram[..]) && regs[..] == old(regs[..]) && regsIn[..] == old(regsIn[..])
      ensures hiRam[..] == old(hiRam[..]) && romEnabled == old(romEnabled) && dspLog == old(dspLog)
      ensures Control() == old(Control())
    {
      dspTime := dspTime + delta;
      timers[0] := timers[0].(nextTime := timers[0].nextTime + delta);
      timers[1] := timers[1].(nextTime := timers[1].nextTime + delta);
      timers[2] := timers[2].(nextTime := timers[2].nextTime + delta);
    }

    /** `dsp_write`: run the DSP up to `time`, then pass the write on when $F2
        names one of the 128 DSP registers. */
    method DspWrite(data: int, time: int)
      requires Valid()
      modifies this
      ensures Valid() && Abs() == Smp.DspWrite(old(Abs()), data, time)
      ensures Control() == old(Control())
    {
      RunDsp(time);
      if regs[RDspAddr] <= 0x7F {
        dspLog := dspLog + [WriteCall(regs[RDspAddr], data)];
      }
    }

    /** `dsp_read`: run the DSP up to `time`, then read register `$F2 & $7F`. */
    method DspRead(time: int) returns (v: byte)
      requires Valid()
      modifies this
      ensures Valid() && (v, Abs()) == Smp.DspRead(old(Abs()), time, dsp)
      ensures Control() == old(Control())
    {
      RunDsp(time);
      var addr := And(regs[RDspAddr], 0x7F);
      v := dsp(dspLog, addr);
      dspLog := dspLog + [ReadCall(addr)];
    }

    /** The loop of a control write over the three timers. */
    method ControlTimers(data: int, time: int)
      requires Valid()
      modifies timers
      ensures Valid() && timers[..] == Smp.ControlTimers(old(timers[..]), data, time, 0)
    {
      for i := 0 to 3
        invariant forall k :: 0 <= k < 3 ==> Timers.Valid(timers[k])
        modifies timers
        invariant Smp.ControlTimers(timers[..], data, time, i) ==
                  Smp.ControlTimers(old(timers[..]), data, time, 0)
      {
        var t := timers[i];
        var enabled := Bit(data, i);
        if t.enabled != enabled {
          t := Timers.RunTimer(t, time);
          t := t.(enabled := enabled);
          if enabled {
            t := t.(divider := 0, counter := 0);
          }
          timers[i] := t;
        }
      }
    }

    /** The part of `cpu_write_smp_reg_` for the control register: port
        clears, the timers, then the ROM. */
    method WriteControl(data: int, time: int)
      requires Valid()
      modifies this, ram, regsIn, hiRam, timers
      ensures Valid() && Abs() == Smp.WriteControl(old(Abs()), cfg, data, time)
      ensures Control() == old(Control())
    {
      if And(data, 0x10) != 0 {
        regsIn[RCpuIo0] := 0;
        regsIn[RCpuIo0 + 1] := 0;
      }
      if And(data, 0x20) != 0 {
        regsIn[RCpuIo0 + 2] := 0;
        regsIn[RCpuIo0 + 3] := 0;
      }
      ControlTimers(data, time);
      EnableRom(And(data, 0x80));
    }

    /** `cpu_write_smp_reg_`: timer targets and outputs, the RAM-like
        registers 8 and 9, and the control register. */
    method WriteSmpRegOther(data: int, time: int, reg: int)
      requires Valid() && 0 <= reg < 16
      modifies this, ram, regsIn, hiRam, timers
      ensures Valid() && Abs() == Smp.WriteSmpRegOther(old(Abs()), cfg, data, time, reg)
      ensures Control() == old(Control())
    {
      if RT0Target <= reg < RT0Target + 3 {
        var i := reg - RT0Target;
        var period := Timers.IfZeroThen256(data);
        if timers[i].period != period {
          var t := Timers.RunTimer(timers[i], time);
          timers[i] := t.(period := period);
        }
      } else if RT0Out <= reg < RT0Out + 3 {
        var i := reg - RT0Out;
        if data < NoReadBeforeWrite / 2 {
          var t := Timers.RunTimer(timers[i], time - 1);
          timers[i] := t.(counter := 0);
        }
      } else if reg == 8 || reg == 9 {
        regsIn[reg] := Byte(data);
      } else if reg == RControl {
        WriteControl(data, time);
      }
    }

    /** `cpu_write_smp_reg`: $F3 goes to the DSP, the rest on. */
    method WriteSmpReg(data: int, time: int, reg: int)
      requires Valid() && 0 <= reg < 16
      modifies this, ram, regsIn, hiRam, timers
      ensures Valid() && Abs() == Smp.WriteSmpReg(old(Abs()), cfg, data, time, reg)
      ensures Control() == old(Control())
    {
      if reg == RDspData {
        DspWrite(data, time);
      } else {
        WriteSmpRegOther(data, time, reg);
      }
    }

    /** `cpu_write`: store the byte, then the register window and the memory
        at $FFC0 and above. */
    method Write(data: int, addr: int, time: int)
      requires Valid() && 0 <= addr < RamSize
      modifies this, ram, regs, regsIn, hiRam, timers
      ensures Valid() && Abs() == Smp.Write(old(Abs()), cfg, data, addr, time)
      ensures Control() == old(Control())
      decreases addr, 1
    {
      SmpLaws.WriteKeepsPadding(Abs(), cfg, data, addr, time);
      ram[addr] := Byte(data);
      var reg := addr - 0xF0;
      if reg >= 0 {
        if reg < 16 {
          regs[reg] := Byte(data);
          if RunsRegisterWrite(reg) {
            WriteSmpReg(data, time, reg);
          }
        } else {
          var i := reg - (RomAddr - 0xF0);
          if i >= 0 {
            WriteHigh(data, i, time);
          }
        }
      }
    }

    /** `cpu_write_high`: `hi_ram` under the ROM, with the ROM byte put back
        while it is shown; past $FFFF the padding is put back and the write
        wraps to page 0. */
    method WriteHigh(data: int, i: int, time: int)
      requires Shape() && 0 <= i && RomAddr + i < RamSize
      requires forall a :: 0x1_0000 <= a < RamSize && a != RomAddr + i ==> ram[a] == cfg.padFill
      modifies this, ram, regs, regsIn, hiRam, timers
      ensures Valid() && Abs() == Smp.WriteHigh(old(Abs()), cfg, data, i, time)
      ensures Control() == old(Control())
      decreases RomAddr + i, 0
    {
      if i < RomSize {
        hiRam[i] := Byte(data);
        if romEnabled != 0 {
          ram[i + RomAddr] := cfg.rom[i];
        }
      } else {
        ram[i + RomAddr] := cfg.padFill;
        Write(data, i + RomAddr - 0x1_0000, time);
      }
    }

    /** `cpu_read_smp_reg`. */
    method ReadSmpReg(reg: int, time: int) returns (v: int)
      requires Valid() && 0 <= reg < 16
      modifies this
      ensures Valid() && (v, Abs()) == Smp.ReadSmpReg(old(Abs()), reg, time, dsp)
      ensures Control() == old(Control())
    {
      v := regsIn[reg];
      var d := reg - RDspAddr;
      if Unsigned(d) <= 1 {
        v := regs[RDspAddr];
        if Unsigned(d) == 1 {
          var b := DspRead(time);
          v := b;
        }
      }
    }

    /** `cpu_read`: RAM, the timer outputs, the other registers, and the
        wrap-around past $FFFF. */
    method Read(addr: int, time: int) returns (v: int)
      requires Valid() && 0 <= addr < RamSize
      modifies this, timers
      ensures Valid() && (v, Abs()) == Smp.Read(old(Abs()), addr, time, dsp)
      ensures Control() == old(Control())
      decreases addr
    {
      v := ram[addr];
      var reg := addr - 0xF0;
      if reg >= 0 {
        reg := reg - 0x10;
        if Unsigned(reg) >= 0xFF00 {
          reg := reg + 0x10 - RT0Out;
          if Unsigned(reg) < 3 {
            var t := timers[reg];
            if time >= t.nextTime {
              t := Timers.RunTimer(t, time);
            }
            v := t.counter;
            timers[reg] := t.(counter := 0);
          } else if reg < 0 {
            v := ReadSmpReg(reg + RT0Out, time);
          } else {
            v := Read(reg + (RT0Out + 0xF0 - 0x1_0000), time);
          }
        }
      }
    }
  }
}
