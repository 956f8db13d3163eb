/** Src/nst112.c: the NST112 temperature sensor read over a bit-banged I2C bus. The
    line itself is an oracle: the levels SDA shows at the master's successive samples,
    high once the device says nothing more (the pin has its pull-up enabled). Pin
    modes, clock pulses and delays are not modelled; what the master puts on and
    takes off the wire is recorded as a trace of events. */
module Nst112 {
  import opened Bytes
  import opened Text
  import TempFormat

  // ---------------------------------------------------------------------------
  // Bit order. Bytes are integers: for a byte `b`, `b & 0x80` is `b >= 128`, and
  // the `uint8_t` shift `b <<= 1` is `(2 * b) % 256`.

  /** The low n bits of v, most significant first. */
  function ToBits(v: nat, n: nat): (bits: seq<bool>)
    ensures |bits| == n
  {
    if n == 0 then [] else ToBits(v / 2, n - 1) + [v % 2 == 1]
  }

  /** 2^n. */
  function Pow2(n: nat): (r: nat)
    ensures r >= 1
  {
    if n == 0 then 1 else 2 * Pow2(n - 1)
  }

  /** The eight bits of `b`, most significant first, as i2c_write_byte sends them. */
  function MsbFirst(b: byte): (bits: seq<bool>)
    ensures |bits| == 8
  {
    ToBits(b, 8)
  }

  /** The number i2c_read_byte assembles from sampled bits: shift left, then set the
      new bottom bit (the shift leaves it clear, so the or is an increment). */
  function Assemble(bits: seq<bool>): (v: nat)
    ensures v < Pow2(|bits|)
  {
    if bits == [] then 0
    else 2 * Assemble(bits[..|bits| - 1]) + (if bits[|bits| - 1] then 1 else 0)
  }

  /** Reading back what is written gives the number ... */
  lemma {:induction false} AssembleToBits(v: nat, n: nat)
    requires v < Pow2(n)
    ensures Assemble(ToBits(v, n)) == v
  {
    if n > 0 {
      var bits := ToBits(v, n);
      assert bits[..n - 1] == ToBits(v / 2, n - 1);
      AssembleToBits(v / 2, n - 1);
    }
  }

  /** ... and writing out what is read gives the bits. */
  lemma {:induction false} ToBitsAssemble(bits: seq<bool>)
    ensures ToBits(Assemble(bits), |bits|) == bits
  {
    if bits != [] {
      var front := bits[..|bits| - 1];
      ToBitsAssemble(front);
      assert bits == front + [bits[|bits| - 1]];
    }
  }

  lemma AssembleMsbFirst(b: byte)
    ensures Assemble(MsbFirst(b)) == b
  {
    Pow7();
    assert Pow2(8) == 256;
    AssembleToBits(b, 8);
  }

  /** A leading bit weighs 2^|t|. */
  lemma {:induction false} AssembleCons(a: bool, t: seq<bool>)
    ensures Assemble([a] + t) == (if a then Pow2(|t|) else 0) + Assemble(t)
    decreases |t|
  {
    if t != [] {
      var front := t[..|t| - 1];
      assert ([a] + t)[..|t|] == [a] + front;
      AssembleCons(a, front);
    }
  }

  /** One step of i2c_write_byte: the top bit of an 8-bit window is its first bit,
      and shifting the window left brings in a zero at the bottom. */
  lemma ShiftStep(s: seq<bool>)
    requires |s| == 8
    ensures (Assemble(s) >= 128) == s[0]
    ensures (2 * Assemble(s)) % 256 == Assemble(s[1..] + [false])
  {
    Pow7();
    var t := s[1..];
    assert s == [s[0]] + t;
    AssembleCons(s[0], t);
    var a := Assemble(t);
    assert a < 128;
    assert Assemble(s) == (if s[0] then 128 else 0) + a;
    assert (t + [false])[..7] == t;
    assert Assemble(t + [false]) == 2 * a;
    DropTopBit(s[0], a);
  }

  lemma DropTopBit(top: bool, a: int)
    requires 0 <= a < 128
    ensures (2 * ((if top then 128 else 0) + a)) % 256 == 2 * a
  {
    if top {
      assert 2 * (128 + a) == 256 + 2 * a;
    }
  }

  // ---------------------------------------------------------------------------
  // The 12-bit reading.

  /** `((uint16_t)msb << 8) | lsb` */
  function Raw(msb: byte, lsb: byte): (raw: nat)
    ensures raw < 0x1_0000
  {
    msb * 256 + lsb
  }

  /** NST112_ReadTempQ4's conversion: `t12 = raw >> 4`; when bit 11 (`t12 & 0x0800`)
      is set, `t12 | 0xF000` (the top four bits are clear, so the or is a sum) read
      back as `int16_t`. */
  function DecodeQ4(msb: byte, lsb: byte): (q: TempFormat.i16)
  {
    var t12 := Raw(msb, lsb) / 16;
    if (t12 / 0x800) % 2 == 1 then TempFormat.Wrap16(t12 + 0xF000) else t12
  }

  /** The reading is a 12-bit two's-complement number ... */
  lemma DecodeRange(msb: byte, lsb: byte)
    ensures -2048 <= DecodeQ4(msb, lsb) <= 2047
  {
    var t12 := Raw(msb, lsb) / 16;
    assert t12 < 4096;
    if (t12 / 0x800) % 2 == 1 {
      assert 0x800 <= t12;
      SignExtend(t12);
    }
  }

  /** Setting the top four bits of a 12-bit value with bit 11 set gives a negative int16_t. */
  lemma SignExtend(t12: int)
    requires 0x800 <= t12 < 0x1000
    ensures TempFormat.Wrap16(t12 + 0xF000) == t12 - 0x1000
  {
    assert (t12 + 0xF000 + 0x8000) % 0x1_0000 == t12 + 0xF000 + 0x8000 - 0x1_0000;
  }

  /** ... it is the 16-bit register read as signed and shifted right arithmetically
      by four ... */
  lemma DecodeIsArithShift(msb: byte, lsb: byte)
    ensures DecodeQ4(msb, lsb) == TempFormat.Wrap16(Raw(msb, lsb)) / 16
  {
    var raw := Raw(msb, lsb);
    var t12 := raw / 16;
    assert (t12 / 0x800) % 2 == 1 <==> raw >= 0x8000;
    if raw >= 0x8000 {
      assert TempFormat.Wrap16(raw) == raw as int - 0x1_0000;
      assert (raw as int - 0x1_0000) / 16 == t12 as int - 0x1000;
    }
  }

  /** ... so the low four bits do not matter ... */
  lemma DecodeIgnoresLowNibble(msb: byte, lsb: byte)
    ensures DecodeQ4(msb, lsb) == DecodeQ4(msb, lsb - lsb % 16)
  {
    assert Raw(msb, lsb) / 16 == Raw(msb, lsb - lsb % 16) / 16;
  }

  /** The register image of a Q4 reading, as the sensor presents it. */
  function EncodeQ4(q: int): (r: (byte, byte))
    requires -2048 <= q <= 2047
  {
    var raw := ((q + 4096) % 4096) * 16;
    (raw / 256, raw % 256)
  }

  /** ... and every reading decodes to itself. */
  lemma DecodeEncode(q: int)
    requires -2048 <= q <= 2047
    ensures DecodeQ4(EncodeQ4(q).0, EncodeQ4(q).1) == q
  {
    var u := (q + 4096) % 4096;
    var raw := u * 16;
    assert Raw(raw / 256, raw % 256) == raw;
    assert raw / 16 == u;
    assert (u / 0x800) % 2 == 1 <==> q < 0;
  }

  /** 25.0625 C is 401 sixteenths; also -0.0625 C and both ends of the range. */
  lemma DecodeExamples()
    ensures DecodeQ4(0x19, 0x10) == 401
    ensures DecodeQ4(0xFF, 0xF0) == -1
    ensures DecodeQ4(0x7F, 0xF0) == 2047 && DecodeQ4(0x80, 0x00) == -2048
  {
  }

  // ---------------------------------------------------------------------------
  // The wire.

  /** Start and stop conditions, a bit the master drives while SCL is high, and a
      bit it samples from SDA. */
  datatype Event = Start | Stop | Drive(level: bool) | Sample(level: bool)

  function Drives(bits: seq<bool>): (es: seq<Event>)
    ensures |es| == |bits|
  {
    seq(|bits|, i requires 0 <= i < |bits| => Drive(bits[i]))
  }

  function Samples(bits: seq<bool>): (es: seq<Event>)
    ensures |es| == |bits|
  {
    seq(|bits|, i requires 0 <= i < |bits| => Sample(bits[i]))
  }

  /** The level of the i-th sample from now: the device's, or the pull-up's. */
  function Level(levels: seq<bool>, i: nat): bool
  {
    if i < |levels| then levels[i] else true
  }

  /** The next n samples. */
  function Levels(levels: seq<bool>, n: nat): (r: seq<bool>)
    ensures |r| == n
  {
    seq(n, i requires 0 <= i < n => Level(levels, i))
  }

  /** The line after n samples. */
  function Drop(levels: seq<bool>, n: nat): seq<bool>
  {
    if n <= |levels| then levels[n..] else []
  }

  lemma DropLevel(levels: seq<bool>, n: nat, i: nat)
    ensures Level(Drop(levels, n), i) == Level(levels, n + i)
  {
  }

  lemma DropDrop(levels: seq<bool>, n: nat, m: nat)
    ensures Drop(Drop(levels, n), m) == Drop(levels, n + m)
  {
  }

  /** One byte written: eight bits out, then the acknowledge sampled. */
  function WriteWire(b: byte, high: bool): seq<Event>
  {
    Drives(MsbFirst(b)) + [Sample(high)]
  }

  /** One byte read: eight bits in, then the master's ACK (low) or NACK (high). */
  function ReadWire(bits: seq<bool>, ack: bool): seq<Event>
  {
    Samples(bits) + [Drive(!ack)]
  }

  /** The sensor's 7-bit address, and the address bytes for writing and reading. */
  const I2C_ADDR: byte := 0x48
  const ADDR_W: byte := I2C_ADDR * 2
  const ADDR_R: byte := I2C_ADDR * 2 + 1
  /** The pointer register of the temperature. */
  const TEMP_REG: byte := 0x00

  lemma AddressBytes()
    ensures ADDR_W == 0x90 && ADDR_R == 0x91
  {
  }

  /** NST112_ReadTempQ4's result for the line `levels`: a NACK (SDA high) on the write
      address gives 3, on the pointer byte 4, on the read address 5, else 0. */
  function LadderCode(levels: seq<bool>): (r: int)
  {
    if Level(levels, 0) then 3
    else if Level(levels, 1) then 4
    else if Level(levels, 2) then 5
    else 0
  }

  /** The samples the transaction takes. */
  function Consumed(levels: seq<bool>): nat
  {
    match LadderCode(levels)
    case 3 => 1
    case 4 => 2
    case 5 => 3
    case _ => 19
  }

  /** The reading on success: the byte sampled with ACK, then the one with NACK. */
  function Reading(levels: seq<bool>): TempFormat.i16
  {
    DecodeQ4(Assemble(Levels(Drop(levels, 3), 8)), Assemble(Levels(Drop(levels, 11), 8)))
  }

  /** The pointer write: start, write address, pointer register. */
  function Prologue(levels: seq<bool>): seq<Event>
  {
    [Start] + WriteWire(ADDR_W, Level(levels, 0)) + WriteWire(TEMP_REG, Level(levels, 1))
  }

  /** Everything NST112_ReadTempQ4 puts on the wire for the line `levels`: the start,
      the write address, what follows it, and the stop. */
  function Wire(levels: seq<bool>): (w: seq<Event>)
  {
    [Start] + WriteWire(ADDR_W, Level(levels, 0)) + AfterAddress(levels) + [Stop]
  }

  /** What follows the write address: nothing after a NACK on it; else the pointer
      byte, and unless that is NACKed too, a repeated start and the read address, and
      when that is ACKed the two data bytes. */
  function AfterAddress(levels: seq<bool>): seq<Event>
  {
    match LadderCode(levels)
    case 3 => []
    case 4 => WriteWire(TEMP_REG, true)
    case 5 => WriteWire(TEMP_REG, false) + [Start] + WriteWire(ADDR_R, true)
    case _ =>
      WriteWire(TEMP_REG, false) + [Start] + WriteWire(ADDR_R, false)
      + ReadWire(Levels(Drop(levels, 3), 8), true) + ReadWire(Levels(Drop(levels, 11), 8), false)
  }

  /** Whatever the device answers, the transaction opens with a start condition and
      releases the bus with a stop condition, and the first byte on the wire is the
      write address. */
  lemma WireFrames(levels: seq<bool>)
    ensures var w := Wire(levels);
      && |w| >= 11 && w[0] == Start && w[|w| - 1] == Stop
      && w[1..9] == Drives(MsbFirst(ADDR_W))
  {
    var h := Level(levels, 0);
    var w := Wire(levels);
    assert w == [Start] + WriteWire(ADDR_W, h) + AfterAddress(levels) + [Stop];
    assert w[1..9] == WriteWire(ADDR_W, h)[..8];
  }

  /** A device that acknowledges all three bytes and then shifts out the register
      image of `q` is read as `q`. */
  lemma DeviceReply(q: int, rest: seq<bool>)
    requires -2048 <= q <= 2047
    ensures var (hi, lo) := EncodeQ4(q);
      var levels := [false, false, false] + MsbFirst(hi) + MsbFirst(lo) + rest;
      LadderCode(levels) == 0 && Reading(levels) == q
  {
    var (hi, lo) := EncodeQ4(q);
    var levels := [false, false, false] + MsbFirst(hi) + MsbFirst(lo) + rest;
    assert Levels(Drop(levels, 3), 8) == MsbFirst(hi);
    assert Levels(Drop(levels, 11), 8) == MsbFirst(lo);
    AssembleMsbFirst(hi);
    AssembleMsbFirst(lo);
    DecodeEncode(q);
  }

  /** With no device on the bus the pull-up NACKs the address. */
  lemma NoDevice()
    ensures LadderCode([]) == 3 && Wire([]) == [Start] + WriteWire(ADDR_W, true) + [Stop]
  {
  }

  /** The two-wire bus as the master sees it. */
  class I2cBus {
    var levels: seq<bool>
    var trace: seq<Event>

    constructor(levels: seq<bool>)
      ensures this.levels == levels && trace == []
    {
      this.levels := levels;
      trace := [];
    }

    /** i2c_start */
    method StartCondition()
      modifies this
      ensures levels == old(levels) && trace == old(trace) + [Start]
    {
      trace := trace + [Start];
    }

    /** i2c_stop */
    method StopCondition()
      modifies this
      ensures levels == old(levels) && trace == old(trace) + [Stop]
    {
      trace := trace + [Stop];
    }

    /** One clock pulse with SDA driven to `level`. */
    method DriveBit(level: bool)
      modifies this
      ensures levels == old(levels) && trace == old(trace) + [Drive(level)]
    {
      trace := trace + [Drive(level)];
    }

    /** One clock pulse with SDA released, read while SCL is high (sda_read). */
    method SampleBit() returns (high: bool)
      modifies this
      ensures high == Level(old(levels), 0) && levels == Drop(old(levels), 1)
      ensures trace == old(trace) + [Sample(high)]
    {
      high := if levels == [] then true else levels[0];
      levels := if levels == [] then [] else levels[1..];
      trace := trace + [Sample(high)];
    }

    /** i2c_write_byte: the bits of `b` from the top, then the acknowledge, which is
        1 exactly when the device pulls SDA low. */
    method WriteByte(b: byte) returns (ack: bool)
      modifies this
      ensures ack == !Level(old(levels), 0) && levels == Drop(old(levels), 1)
      ensures trace == old(trace) + WriteWire(b, Level(old(levels), 0))
    {
      ghost var bits := MsbFirst(b);
      var x: int := b;
      var i := 0;
      AssembleMsbFirst(b);
      assert bits[0..] + Falses(0) == bits;
      while i < 8
        invariant 0 <= i <= 8 && levels == old(levels)
        invariant x == Assemble(bits[i..] + Falses(i))
        invariant trace == old(trace) + Drives(bits[..i])
      {
        WriteStep(bits, i, x);
        DriveBit(x >= 128);
        x := (2 * x) % 256;
        i := i + 1;
      }
      assert bits[..8] == bits;
      var high := SampleBit();
      ack := !high;
    }

    /** One step of i2c_read_byte: `b <<= 1`, then `b |= 1` when SDA reads high. */
    method ShiftIn(v: int) returns (w: int)
      requires 0 <= v < 128
      modifies this
      ensures w == 2 * v + (if Level(old(levels), 0) then 1 else 0)
      ensures levels == Drop(old(levels), 1) && trace == old(trace) + [Sample(Level(old(levels), 0))]
    {
      w := (2 * v) % 256;
      var high := SampleBit();
      if high {
        w := w + 1;
      }
    }

    /** i2c_read_byte: eight samples assembled from the top, then ACK (SDA low) when
        `ack` is set and NACK otherwise. */
    method ReadByte(ack: bool) returns (b: byte)
      modifies this
      ensures b == Assemble(Levels(old(levels), 8)) && levels == Drop(old(levels), 8)
      ensures trace == old(trace) + ReadWire(Levels(old(levels), 8), ack)
    {
      ghost var line := levels;
      ghost var bits := Levels(line, 8);
      var v: int := 0;
      var i := 0;
      while i < 8
        invariant 0 <= i <= 8 && levels == Drop(line, i)
        invariant v == Assemble(bits[..i])
        invariant trace == old(trace) + Samples(bits[..i])
      {
        ReadStep(line, i, v);
        v := ShiftIn(v);
        i := i + 1;
      }
      assert bits[..8] == bits;
      Pow7();
      b := v;
      DriveBit(!ack);
    }
  }

  /** What one clock of i2c_write_byte puts on the wire, and what the shift leaves. */
  lemma WriteStep(bits: seq<bool>, i: nat, x: int)
    requires |bits| == 8 && i < 8 && x == Assemble(bits[i..] + Falses(i))
    ensures (x >= 128) == bits[i]
    ensures (2 * x) % 256 == Assemble(bits[i + 1..] + Falses(i + 1))
    ensures Drives(bits[..i + 1]) == Drives(bits[..i]) + [Drive(bits[i])]
  {
    var s := bits[i..] + Falses(i);
    ShiftStep(s);
    assert s[0] == bits[i];
    assert s[1..] + [false] == bits[i + 1..] + Falses(i + 1);
    assert bits[..i + 1][..i] == bits[..i];
  }

  /** What one sample adds to the byte being read and to the trace. */
  lemma ReadStep(line: seq<bool>, i: nat, v: int)
    requires i < 8 && v == Assemble(Levels(line, 8)[..i])
    ensures v < 128 && Level(Drop(line, i), 0) == Levels(line, 8)[i]
    ensures Drop(Drop(line, i), 1) == Drop(line, i + 1)
    ensures 2 * v + (if Level(Drop(line, i), 0) then 1 else 0) == Assemble(Levels(line, 8)[..i + 1])
    ensures Samples(Levels(line, 8)[..i + 1]) == Samples(Levels(line, 8)[..i]) + [Sample(Level(Drop(line, i), 0))]
  {
    var bits := Levels(line, 8);
    DropLevel(line, i, 0);
    DropDrop(line, i, 1);
    PowBound(i);
    assert bits[..i + 1][..i] == bits[..i];
  }

  function Falses(n: nat): (r: seq<bool>)
    ensures |r| == n && forall i :: 0 <= i < n ==> !r[i]
  {
    seq(n, _ => false)
  }

  lemma {:induction false} PowBound(i: nat)
    requires i < 8
    ensures Pow2(i) <= 128
    decreases 8 - i
  {
    if i < 7 {
      PowBound(i + 1);
    } else {
      Pow7();
    }
  }

  lemma Pow7()
    ensures Pow2(7) == 128
  {
  }

  /** The `int16_t` the caller's `out_q4` points to. */
  class Q4Cell {
    var value: TempFormat.i16

    constructor(v: TempFormat.i16)
      ensures value == v
    {
      value := v;
    }
  }

  /** NST112_ReadTempQ4: 2 for a NULL pointer without touching the bus; otherwise one
      transaction, stopped early with 3, 4 or 5 at the first NACK, or 0 with the
      reading stored through the pointer. */
  method ReadTempQ4(bus: I2cBus, out: Q4Cell?) returns (r: int)
    modifies bus, out
    ensures out == null ==> r == 2 && bus.levels == old(bus.levels) && bus.trace == old(bus.trace)
    ensures out != null ==> r == LadderCode(old(bus.levels))
    ensures out != null ==> bus.trace == old(bus.trace) + Wire(old(bus.levels))
    ensures out != null ==> bus.levels == Drop(old(bus.levels), Consumed(old(bus.levels)))
    ensures out != null && r != 0 ==> out.value == old(out.value)
    ensures out != null && r == 0 ==> out.value == Reading(old(bus.levels))
  {
    if out == null {
      return 2;
    }
    ghost var line := bus.levels;
    ghost var t0 := bus.trace;
    r := PointerPhase(bus);
    if r != 0 {
      return r;
    }
    var msb, lsb;
    r, msb, lsb := ReadPhase(bus, line, t0);
    if r != 0 {
      return r;
    }
    StoreReading(out, msb, lsb);
  }

  /** The end of NST112_ReadTempQ4: the 12-bit reading, sign-extended, stored through
      the pointer. */
  method StoreReading(out: Q4Cell, msb: byte, lsb: byte)
    modifies out
    ensures out.value == DecodeQ4(msb, lsb)
  {
    var raw: int := msb as int * 256 + lsb as int;
    var t12: int := raw / 16;
    if (t12 / 0x800) % 2 == 1 {
      t12 := TempFormat.Wrap16(t12 + 0xF000);
    }
    out.value := t12;
  }

  /** Start, write address, pointer register; a stop and 3 or 4 on a NACK. */
  method PointerPhase(bus: I2cBus) returns (r: int)
    modifies bus
    ensures r == 0 <==> LadderCode(old(bus.levels)) !in {3, 4}
    ensures r != 0 ==> r == LadderCode(old(bus.levels))
    ensures r != 0 ==> bus.trace == old(bus.trace) + Wire(old(bus.levels))
    ensures r != 0 ==> bus.levels == Drop(old(bus.levels), Consumed(old(bus.levels)))
    ensures r == 0 ==> bus.trace == old(bus.trace) + Prologue(old(bus.levels))
    ensures r == 0 ==> bus.levels == Drop(old(bus.levels), 2)
  {
    ghost var line := bus.levels;
    ghost var t0 := bus.trace;
    bus.StartCondition();
    var ack := bus.WriteByte(ADDR_W);
    ghost var w1 := [Start] + WriteWire(ADDR_W, Level(line, 0));
    Append(t0, [Start], WriteWire(ADDR_W, Level(line, 0)));
    if !ack {
      bus.StopCondition();
      Case3(line);
      Append(t0, w1, [Stop]);
      return 3;
    }
    DropLevel(line, 1, 0);
    ack := bus.WriteByte(TEMP_REG);
    DropDrop(line, 1, 1);
    Append(t0, w1, WriteWire(TEMP_REG, Level(line, 1)));
    if !ack {
      bus.StopCondition();
      Case4(line);
      Append(t0, Prologue(line), [Stop]);
      return 4;
    }
    r := 0;
  }

  /** Repeated start, read address (a stop and 5 on a NACK), the two data bytes and
      the stop. */
  method ReadPhase(bus: I2cBus, ghost line: seq<bool>, ghost t0: seq<Event>) returns (r: int, msb: byte, lsb: byte)
    requires LadderCode(line) !in {3, 4}
    requires bus.levels == Drop(line, 2) && bus.trace == t0 + Prologue(line)
    modifies bus
    ensures r == LadderCode(line) && bus.trace == t0 + Wire(line) && bus.levels == Drop(line, Consumed(line))
    ensures r == 0 ==> DecodeQ4(msb, lsb) == Reading(line)
  {
    DropLevel(line, 2, 0);
    bus.StartCondition();
    var ack := bus.WriteByte(ADDR_R);
    DropDrop(line, 2, 1);
    ghost var p := Prologue(line) + [Start];
    Append(t0, Prologue(line), [Start]);
    Append(t0, p, WriteWire(ADDR_R, Level(line, 2)));
    if !ack {
      bus.StopCondition();
      Case5(line);
      Append(t0, p + WriteWire(ADDR_R, true), [Stop]);
      return 5, 0, 0;
    }
    ghost var q := p + WriteWire(ADDR_R, false);
    msb := bus.ReadByte(true);
    DropDrop(line, 3, 8);
    Append(t0, q, ReadWire(Levels(Drop(line, 3), 8), true));
    ghost var q2 := q + ReadWire(Levels(Drop(line, 3), 8), true);
    lsb := bus.ReadByte(false);
    DropDrop(line, 11, 8);
    Append(t0, q2, ReadWire(Levels(Drop(line, 11), 8), false));
    bus.StopCondition();
    Append(t0, q2 + ReadWire(Levels(Drop(line, 11), 8), false), [Stop]);
    Case0(line);
    r := 0;
  }

  lemma Append(t: seq<Event>, a: seq<Event>, b: seq<Event>)
    ensures t + a + b == t + (a + b)
  {
  }

  lemma Case3(line: seq<bool>)
    requires Level(line, 0)
    ensures LadderCode(line) == 3 && Consumed(line) == 1
    ensures Wire(line) == [Start] + WriteWire(ADDR_W, true) + [Stop]
  {
  }

  lemma Case4(line: seq<bool>)
    requires !Level(line, 0) && Level(line, 1)
    ensures LadderCode(line) == 4 && Consumed(line) == 2
    ensures Wire(line) == Prologue(line) + [Stop]
  {
  }

  lemma Case5(line: seq<bool>)
    requires !Level(line, 0) && !Level(line, 1) && Level(line, 2)
    ensures LadderCode(line) == 5 && Consumed(line) == 3
    ensures Wire(line) == Prologue(line) + [Start] + WriteWire(ADDR_R, true) + [Stop]
  {
  }

  lemma Case0(line: seq<bool>)
    requires !Level(line, 0) && !Level(line, 1) && !Level(line, 2)
    ensures LadderCode(line) == 0 && Consumed(line) == 19
    ensures Wire(line) == Prologue(line) + [Start] + WriteWire(ADDR_R, false)
      + ReadWire(Levels(Drop(line, 3), 8), true) + ReadWire(Levels(Drop(line, 11), 8), false)
      + [Stop]
  {
  }
}
