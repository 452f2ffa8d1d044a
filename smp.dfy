/** The SMP side of the emulator as values: RAM, the two register files, the
    IPL-ROM overlay, the timers and the bridge to the DSP, with the register
    and memory router of snes_spc/SNES_SPC.cpp:81-504 as functions on them.
    The `Machine` module runs the same operations in place on arrays and is
    proved to agree with these functions. */
module Smp {
  import opened Bytes
  import opened Bits
  import opened BitOps
  import opened Timers

  /** Where the 64-byte IPL ROM appears and how long it is. */
  const RomAddr: int := 0xFFC0
  const RomSize: int := 64
  /** The emulated RAM: 64 KiB and the padding after it that catches accesses
      which run past $FFFF. */
  const RamSize: int := 0x1_0100
  /** Added to data the CPU writes without reading first (read-modify-write
      instructions); a timer output register ignores such writes. */
  const NoReadBeforeWrite: int := 0x2000

  /** Indices into the register files for $F0-$FF. */
  const RTest: int := 0x0
  const RControl: int := 0x1
  const RDspAddr: int := 0x2
  const RDspData: int := 0x3
  const RCpuIo0: int := 0x4
  const RT0Target: int := 0xA
  const RT0Out: int := 0xD

  /** A call the emulator makes on the DSP: run it for some clocks, read or
      write one of its registers. */
  datatype DspCall = RunCall(clocks: int) | ReadCall(addr: int) | WriteCall(addr: int, data: int)

  /** What a DSP register read returns, given every call made on the DSP so far. */
  type DspReader = (seq<DspCall>, int) -> byte

  /** The parts the emulator is given rather than computes: the IPL ROM image
      and the byte that fills the padding. */
  datatype Config = Config(rom: seq<byte>, padFill: byte)

  predicate ValidConfig(cfg: Config)
  {
    |cfg.rom| == RomSize
  }

  /** `REGS` holds what the CPU last wrote to $F0-$FF, `REGS_IN` what it reads
      back from the ports and the RAM-like registers 8 and 9. `romEnabled` is
      the integer last passed to `enable_rom` (nonzero: the ROM is shown).
      Times are relative, as the emulator keeps them while the CPU runs. */
  datatype State = State(ram: seq<byte>, regs: seq<byte>, regsIn: seq<byte>, hiRam: seq<byte>,
                         timers: seq<Timer>, romEnabled: int, dspTime: int, dspLog: seq<DspCall>)

  ghost predicate Valid(st: State)
  {
    |st.ram| == RamSize && |st.regs| == 16 && |st.regsIn| == 16 && |st.hiRam| == RomSize &&
    |st.timers| == 3 && Timers.Valid(st.timers[0]) && Timers.Valid(st.timers[1]) &&
    Timers.Valid(st.timers[2])
  }

  /** The padding after $FFFF holds the pad fill; a CPU that runs off the end
      of memory fetches it. */
  ghost predicate Padded(st: State, cfg: Config)
    requires Valid(st)
  {
    forall a :: 0x1_0000 <= a < RamSize ==> st.ram[a] == cfg.padFill
  }

  /** The 64 bytes at $FFC0 as the CPU sees them. */
  function Visible(st: State): (r: seq<byte>)
    requires Valid(st)
    ensures |r| == RomSize
  {
    st.ram[RomAddr..RomAddr + RomSize]
  }

  /** `ram` with the 64 bytes at $FFC0 replaced by `block`. */
  function Overlay(ram: seq<byte>, block: seq<byte>): (r: seq<byte>)
    requires |ram| == RamSize && |block| == RomSize
    ensures |r| == RamSize && r[RomAddr..RomAddr + RomSize] == block
    ensures forall a :: 0 <= a < RamSize && !(RomAddr <= a < RomAddr + RomSize) ==> r[a] == ram[a]
  {
    ram[..RomAddr] + block + ram[RomAddr + RomSize..]
  }

  /** `enable_rom`: on a change, enabling saves the visible bytes in `hi_ram`
      and shows the ROM; disabling shows `hi_ram` again. */
  function EnableRom(st: State, cfg: Config, enable: int): (r: State)
    requires Valid(st) && ValidConfig(cfg)
    ensures Valid(r) && r.romEnabled == enable
    ensures st.romEnabled == enable ==> r == st
    ensures st.romEnabled != enable && enable != 0 ==>
              r.hiRam == Visible(st) && Visible(r) == cfg.rom
    ensures st.romEnabled != enable && enable == 0 ==>
              r.hiRam == st.hiRam && Visible(r) == st.hiRam
    ensures r.regs == st.regs && r.regsIn == st.regsIn && r.timers == st.timers
    ensures r.dspTime == st.dspTime && r.dspLog == st.dspLog
    ensures forall a :: 0 <= a < RamSize && !(RomAddr <= a < RomAddr + RomSize) ==> r.ram[a] == st.ram[a]
  {
    if st.romEnabled == enable then st
    else
      var hi := if enable != 0 then Visible(st) else st.hiRam;
      st.(romEnabled := enable, hiRam := hi, ram := Overlay(st.ram, if enable != 0 then cfg.rom else hi))
  }

  /** Switching the ROM on and off again gives back the RAM that was visible. */
  lemma EnableThenDisableRom(st: State, cfg: Config)
    requires Valid(st) && ValidConfig(cfg) && st.romEnabled == 0
    ensures EnableRom(EnableRom(st, cfg, 0x80), cfg, 0).ram == st.ram
  {
    var on := EnableRom(st, cfg, 0x80);
    var off := EnableRom(on, cfg, 0);
    assert off.ram == Overlay(on.ram, Visible(st));
    assert st.ram == st.ram[..RomAddr] + Visible(st) + st.ram[RomAddr + RomSize..];
  }

  /** `run_timer` on timer `i`. */
  function RunTimerAt(st: State, i: int, time: int): (r: State)
    requires Valid(st) && 0 <= i < 3
    ensures Valid(r) && r == st.(timers := r.timers)
    ensures r.timers == st.timers[i := Timers.RunTimer(st.timers[i], time)]
  {
    st.(timers := st.timers[i := Timers.RunTimer(st.timers[i], time)])
  }

  /** `RUN_DSP`: run the DSP for the clocks since it last ran, up to `time`. */
  function RunDsp(st: State, time: int): (r: State)
    ensures r == st.(dspTime := time, dspLog := st.dspLog + [RunCall(time - st.dspTime)])
  {
    st.(dspTime := time, dspLog := st.dspLog + [RunCall(time - st.dspTime)])
  }

  /** `dsp_write`: catch the DSP up, then pass the write on, but only for the
      128 DSP registers ($F2 below $80). */
  function DspWrite(st: State, data: int, time: int): (r: State)
    requires Valid(st)
    ensures Valid(r) && r.dspTime == time
    ensures r.dspLog == st.dspLog + [RunCall(time - st.dspTime)] +
                        (if st.regs[RDspAddr] <= 0x7F then [WriteCall(st.regs[RDspAddr], data)] else [])
    ensures r == st.(dspTime := r.dspTime, dspLog := r.dspLog)
  {
    var ran := RunDsp(st, time);
    if st.regs[RDspAddr] <= 0x7F then ran.(dspLog := ran.dspLog + [WriteCall(st.regs[RDspAddr], data)])
    else ran
  }

  /** `dsp_read`: catch the DSP up, then read register `$F2 & $7F`. */
  function DspRead(st: State, time: int, dsp: DspReader): (r: (byte, State))
    requires Valid(st)
    ensures Valid(r.1) && r.1.dspTime == time
    ensures r.1 == st.(dspTime := time, dspLog := r.1.dspLog)
    ensures var addr := And(st.regs[RDspAddr], 0x7F);
            r.1.dspLog == st.dspLog + [RunCall(time - st.dspTime), ReadCall(addr)] &&
            r.0 == dsp(st.dspLog + [RunCall(time - st.dspTime)], addr)
  {
    var ran := RunDsp(st, time);
    var addr := And(st.regs[RDspAddr], 0x7F);
    (dsp(ran.dspLog, addr), ran.(dspLog := ran.dspLog + [ReadCall(addr)]))
  }

  /** A C `unsigned` view of an `int`, for the range checks that compare a
      possibly negative difference as unsigned. */
  function Unsigned(x: int): (r: int)
    ensures 0 <= r < U32 && (0 <= x < U32 ==> r == x) && (-U32 <= x < 0 ==> r == x + U32)
  {
    x % U32
  }

  /** A write to the target register of timer `i`: a new period (0 means 256)
      first brings the timer up to `time` under the old one. */
  function WriteTarget(st: State, data: int, time: int, i: int): (r: State)
    requires Valid(st) && 0 <= i < 3
    ensures Valid(r) && r == st.(timers := r.timers)
    ensures r.timers[i].period == IfZeroThen256(data)
    ensures st.timers[i].period == IfZeroThen256(data) ==> r == st
    ensures st.timers[i].period != IfZeroThen256(data) ==>
              r.timers == st.timers[i := Timers.RunTimer(st.timers[i], time).(period := IfZeroThen256(data))]
  {
    var period := IfZeroThen256(data);
    if st.timers[i].period != period then
      var t := Timers.RunTimer(st.timers[i], time);
      st.(timers := st.timers[i := t.(period := period)])
    else
      st
  }

  /** A write to the output register of timer `i`: unless the CPU wrote without
      reading first, the timer is brought up to just before `time` and its
      counter cleared. */
  function WriteOut(st: State, data: int, time: int, i: int): (r: State)
    requires Valid(st) && 0 <= i < 3
    ensures Valid(r) && r == st.(timers := r.timers)
    ensures data < NoReadBeforeWrite / 2 ==>
              r.timers == st.timers[i := Timers.RunTimer(st.timers[i], time - 1).(counter := 0)]
    ensures data >= NoReadBeforeWrite / 2 ==> r == st
  {
    if data < NoReadBeforeWrite / 2 then
      st.(timers := st.timers[i := Timers.RunTimer(st.timers[i], time - 1).(counter := 0)])
    else
      st
  }

  /** The control register's effect on one timer: only a change of its enable
      bit matters; the timer is brought up to `time` under the old setting,
      and switching it on restarts its divider and counter. */
  function ControlTimer(t: Timer, enabled: bool, time: int): (r: Timer)
    requires Timers.Valid(t)
    ensures Timers.Valid(r) && r.enabled == enabled
    ensures t.enabled == enabled ==> r == t
    ensures t.enabled != enabled ==>
              var caught := Timers.RunTimer(t, time);
              r.nextTime == caught.nextTime && r.prescaler == t.prescaler && r.period == t.period &&
              (enabled ==> r.divider == 0 && r.counter == 0) &&
              (!enabled ==> r.divider == caught.divider && r.counter == caught.counter)
  {
    if t.enabled != enabled then
      var t1 := Timers.RunTimer(t, time);
      if enabled then t1.(enabled := enabled, divider := 0, counter := 0)
      else t1.(enabled := enabled)
    else
      t
  }

  /** The loop over the timers of a control write, from timer `i` on; timer `k`
      follows bit `k` of the data (`data >> k & 1`). */
  function ControlTimers(timers: seq<Timer>, data: int, time: int, i: nat): (r: seq<Timer>)
    requires |timers| == 3 && i <= 3
    requires forall k :: 0 <= k < 3 ==> Timers.Valid(timers[k])
    ensures |r| == 3 && forall k :: 0 <= k < 3 ==> Timers.Valid(r[k])
    decreases 3 - i
  {
    if i == 3 then timers
    else ControlTimers(timers[i := ControlTimer(timers[i], Bit(data, i), time)], data, time, i + 1)
  }

  /** A write to the control register: clear input ports 0/1 (bit 4) and 2/3
      (bit 5), switch the timers (bits 0-2) and the ROM (bit 7). */
  function WriteControl(st: State, cfg: Config, data: int, time: int): (r: State)
    requires Valid(st) && ValidConfig(cfg)
    ensures Valid(r)
  {
    var in1 := if And(data, 0x10) != 0 then st.regsIn[RCpuIo0 := 0][RCpuIo0 + 1 := 0] else st.regsIn;
    var in2 := if And(data, 0x20) != 0 then in1[RCpuIo0 + 2 := 0][RCpuIo0 + 3 := 0] else in1;
    var st1 := st.(regsIn := in2, timers := ControlTimers(st.timers, data, time, 0));
    EnableRom(st1, cfg, And(data, 0x80))
  }

  /** `cpu_write_smp_reg_`: the registers with side effects other than $F3. */
  function WriteSmpRegOther(st: State, cfg: Config, data: int, time: int, reg: int): (r: State)
    requires Valid(st) && ValidConfig(cfg) && 0 <= reg < 16
    ensures Valid(r)
  {
    if RT0Target <= reg < RT0Target + 3 then WriteTarget(st, data, time, reg - RT0Target)
    else if RT0Out <= reg < RT0Out + 3 then WriteOut(st, data, time, reg - RT0Out)
    else if reg == 8 || reg == 9 then st.(regsIn := st.regsIn[reg := Byte(data)])
    else if reg == RControl then WriteControl(st, cfg, data, time)
    else st
  }

  /** `cpu_write_smp_reg`: $F3 goes to the DSP, the rest to `WriteSmpRegOther`. */
  function WriteSmpReg(st: State, cfg: Config, data: int, time: int, reg: int): (r: State)
    requires Valid(st) && ValidConfig(cfg) && 0 <= reg < 16
    ensures Valid(r)
  {
    if reg == RDspData then DspWrite(st, data, time) else WriteSmpRegOther(st, cfg, data, time, reg)
  }

  /** `cpu_write`: the byte always lands in RAM; $F0-$FF also land in `REGS`
      and, for the registers the selector picks, have their side effects;
      $FFC0 and above go on to `WriteHigh`. */
  function Write(st: State, cfg: Config, data: int, addr: int, time: int): (r: State)
    requires Valid(st) && ValidConfig(cfg) && 0 <= addr < RamSize
    ensures Valid(r)
    decreases addr, 1
  {
    var st1 := st.(ram := st.ram[addr := Byte(data)]);
    var reg := addr - 0xF0;
    if reg >= 0 then
      if reg < 16 then
        var st2 := st1.(regs := st1.regs[reg := Byte(data)]);
        if RunsRegisterWrite(reg) then WriteSmpReg(st2, cfg, data, time, reg) else st2
      else
        var i := reg - (RomAddr - 0xF0);
        if i >= 0 then WriteHigh(st1, cfg, data, i, time) else st1
    else
      st1
  }

  /** `cpu_write_high`: under the ROM a write goes to `hi_ram`, and while the
      ROM is shown its byte is put back; past $FFFF the padding is put back
      and the write wraps around to page 0. */
  function WriteHigh(st: State, cfg: Config, data: int, i: int, time: int): (r: State)
    requires Valid(st) && ValidConfig(cfg) && 0 <= i && RomAddr + i < RamSize
    ensures Valid(r)
    decreases RomAddr + i, 0
  {
    if i < RomSize then
      var st1 := st.(hiRam := st.hiRam[i := Byte(data)]);
      if st.romEnabled != 0 then st1.(ram := st1.ram[RomAddr + i := cfg.rom[i]]) else st1
    else
      var st1 := st.(ram := st.ram[RomAddr + i := cfg.padFill]);
      Write(st1, cfg, data, RomAddr + i - 0x1_0000, time)
  }

  /** `cpu_read_smp_reg`: `REGS_IN`, except that $F2 reads back the DSP address
      and $F3 reads the DSP. */
  function ReadSmpReg(st: State, reg: int, time: int, dsp: DspReader): (r: (int, State))
    requires Valid(st) && 0 <= reg < 16
    ensures Valid(r.1) && 0 <= r.0 < 256
  {
    var result := st.regsIn[reg];
    var d := reg - RDspAddr;
    if Unsigned(d) <= 1 then
      if Unsigned(d) == 1 then
        var (v, st1) := DspRead(st, time, dsp);
        (v as int, st1)
      else
        (st.regs[RDspAddr] as int, st)
    else
      (result as int, st)
  }

  /** `cpu_read`: RAM, except $F0-$FF and the addresses past $FFFF. A timer
      output register ($FD-$FF) is brought up to `time`, read and cleared;
      past $FFFF the read wraps around to page 0. */
  function Read(st: State, addr: int, time: int, dsp: DspReader): (r: (int, State))
    requires Valid(st) && 0 <= addr < RamSize
    ensures Valid(r.1) && 0 <= r.0 < 256
    decreases addr
  {
    var result := st.ram[addr] as int;
    var reg := addr - 0xF0;
    if reg >= 0 then
      var reg1 := reg - 0x10;
      if Unsigned(reg1) >= 0xFF00 then
        var reg2 := reg1 + 0x10 - RT0Out;
        if Unsigned(reg2) < 3 then
          var t := Timers.RunTimer(st.timers[reg2], time);
          (t.counter, st.(timers := st.timers[reg2 := t.(counter := 0)]))
        else if reg2 < 0 then
          ReadSmpReg(st, reg2 + RT0Out, time, dsp)
        else
          Read(st, reg2 + (RT0Out + 0xF0 - 0x1_0000), time, dsp)
      else
        (result, st)
    else
      (result, st)
  }
}
