/** The two transports of the SSD1306 driver (Adafruit_SSD1306.cpp): 4-wire SPI, in hardware
    or bit-banged, and I2C. Every pin write, SPI transfer and Wire call is an event appended
    to the connection's trace. The controller's side of each bus is modelled as a receiver
    that turns a trace back into the command and data bytes it delivers; the framing lemmas
    show that what the driver sends is what the controller receives. */
module Transport {
  import opened Profiles

  /** An Arduino pin number (int8_t); -1 stands for "not connected". */
  type Pin = v: int | -0x80 <= v < 0x80

  predicate Connected(p: Pin)
  {
    p >= 0
  }

  datatype Line = Cs | Dc | Sclk | Sid | Rst

  datatype Event =
    | Level(line: Line, high: bool)  // a digital pin driven high or low
    | SpiStart                       // SPI.begin() with the bus settings
    | SpiTransfer(b: Byte)           // SPI.transfer(b)
    | WireStart                      // Wire.begin()
    | WireBegin(addr: Byte)          // Wire.beginTransmission(addr)
    | WireWrite(b: Byte)             // Wire.write(b)
    | WireEnd                        // Wire.endTransmission()

  /** The connection's hardware: which SPI pins are used, or the I2C address
      (an I2c object holds no address until begin() stores one; it starts as 0 here). */
  datatype Bus =
    | Spi(hwSpi: bool, sid: Pin, sclk: Pin, dc: Pin, cs: Pin)
    | I2c(addr: Byte)

  /** I2C control byte before a command: Co = 0, D/C# = 0. */
  const I2C_COMMAND_CONTROL: Byte := 0x00
  /** I2C control byte before display data: Co = 0, D/C# = 1. */
  const I2C_DATA_CONTROL: Byte := 0x40
  /** Display-data bytes per I2C transaction. */
  const I2C_CHUNK: nat := 16

  // ---------------------------------------------------------------------------
  // The events each operation emits

  /** The mask of the bit sent n-th by the bit-banging loop (0x80, 0x40, ..., 0x01, then 0). */
  function MsbMask(n: int): Byte
    requires 0 <= n <= 8
  {
    [0x80, 0x40, 0x20, 0x10, 0x08, 0x04, 0x02, 0x01, 0x00][n]
  }

  lemma MsbMaskStep(n: int)
    requires 0 <= n <= 8
    ensures MsbMask(n) == 0 <==> n == 8
    ensures n < 8 ==> MsbMask(n) >> 1 == MsbMask(n + 1)
  {
    MsbMaskValues();
  }

  lemma MsbMaskValues()
    ensures MsbMask(0) == 0x80 && MsbMask(1) == 0x40 && MsbMask(2) == 0x20 && MsbMask(3) == 0x10
    ensures MsbMask(4) == 0x08 && MsbMask(5) == 0x04 && MsbMask(6) == 0x02 && MsbMask(7) == 0x01
    ensures MsbMask(8) == 0x00
  {
  }

  /** One clock of the software SPI: clock low, data line set to the bit, clock high. */
  function ClockBit(v: bool): seq<Event>
  {
    [Level(Sclk, false), Level(Sid, v), Level(Sclk, true)]
  }

  /** Clocking out the given bits, first to last. */
  function ClockBits(bs: seq<bool>): seq<Event>
  {
    if |bs| == 0 then [] else ClockBits(bs[..|bs| - 1]) + ClockBit(bs[|bs| - 1])
  }

  /** The bits of d in the order the bit-banging loop sends them, most significant first. */
  function BitsOf(d: Byte): (r: seq<bool>)
    ensures |r| == 8
  {
    seq(8, i requires 0 <= i < 8 => d & MsbMask(i) != 0)
  }

  /** What fastSPIwrite(d) emits. */
  function ByteEvents(hwSpi: bool, d: Byte): seq<Event>
  {
    if hwSpi then [SpiTransfer(d)] else ClockBits(BitsOf(d))
  }

  /** fastSPIwrite for each byte in turn. */
  function SpiBytes(hwSpi: bool, data: seq<Byte>): seq<Event>
  {
    if |data| == 0 then []
    else SpiBytes(hwSpi, data[..|data| - 1]) + ByteEvents(hwSpi, data[|data| - 1])
  }

  /** Wire.write for each byte in turn. */
  function WireWrites(data: seq<Byte>): seq<Event>
  {
    if |data| == 0 then [] else WireWrites(data[..|data| - 1]) + [WireWrite(data[|data| - 1])]
  }

  /** One I2C data transaction: the data control byte and the bytes. */
  function I2cChunk(addr: Byte, data: seq<Byte>): seq<Event>
  {
    [WireBegin(addr), WireWrite(I2C_DATA_CONTROL)] + WireWrites(data) + [WireEnd]
  }

  /** The data split into transactions of 16 bytes. */
  function I2cChunks(addr: Byte, data: seq<Byte>): seq<Event>
    requires |data| % I2C_CHUNK == 0
  {
    if |data| == 0 then []
    else I2cChunks(addr, data[..|data| - I2C_CHUNK]) + I2cChunk(addr, data[|data| - I2C_CHUNK..])
  }

  /** What command(c) emits on each bus. */
  function CommandEvents(bus: Bus, c: Byte): seq<Event>
  {
    match bus
    case Spi(hw, _, _, _, _) =>
      [Level(Cs, true), Level(Dc, false), Level(Cs, false)] + ByteEvents(hw, c) + [Level(Cs, true)]
    case I2c(addr) =>
      [WireBegin(addr), WireWrite(I2C_COMMAND_CONTROL), WireWrite(c), WireEnd]
  }

  /** command(c) for each byte in turn. */
  function CommandsEvents(bus: Bus, cs: seq<Byte>): seq<Event>
  {
    if |cs| == 0 then [] else CommandsEvents(bus, cs[..|cs| - 1]) + CommandEvents(bus, cs[|cs| - 1])
  }

  lemma CommandsEventsSnoc(bus: Bus, cs: seq<Byte>, c: Byte)
    ensures CommandsEvents(bus, cs + [c]) == CommandsEvents(bus, cs) + CommandEvents(bus, c)
  {
    assert (cs + [c])[..|cs|] == cs;
  }

  /** What writeBuffer(data, |data|) emits on each bus. */
  function DataEvents(bus: Bus, data: seq<Byte>): seq<Event>
    requires bus.I2c? ==> |data| % I2C_CHUNK == 0
  {
    match bus
    case Spi(hw, _, _, _, _) =>
      [Level(Cs, true), Level(Dc, true), Level(Cs, false)] + SpiBytes(hw, data) + [Level(Cs, true)]
    case I2c(addr) => I2cChunks(addr, data)
  }

  /** One more byte of an SPI data frame appended to a trace. */
  lemma SpiBytesStep(t0: seq<Event>, hwSpi: bool, data: seq<Byte>, i: nat)
    requires i < |data|
    ensures t0 + SpiBytes(hwSpi, data[..i + 1]) == t0 + SpiBytes(hwSpi, data[..i]) + ByteEvents(hwSpi, data[i])
  {
    assert data[..i + 1][..i] == data[..i];
  }

  /** An SPI data frame appended to a trace, piece by piece. */
  lemma SpiDataFrame(t0: seq<Event>, bus: Bus, data: seq<Byte>)
    requires bus.Spi?
    ensures t0 + [Level(Cs, true), Level(Dc, true), Level(Cs, false)] + SpiBytes(bus.hwSpi, data) + [Level(Cs, true)]
         == t0 + DataEvents(bus, data)
  {
  }

  // ---------------------------------------------------------------------------
  // The connection object

  /** What Connection::begin emits: Wire started on I2C, the SPI peripheral on hardware
      SPI, nothing recorded for software SPI. */
  function StartEvents(bus: Bus): seq<Event>
  {
    if bus.I2c? then [WireStart] else if bus.hwSpi then [SpiStart] else []
  }

  class Connection {
    var bus: Bus
    const rst: Pin
    /** Every event emitted so far, oldest first. */
    var trace: seq<Event>

    /** Software SPI on the given data, clock, data/command and chip-select pins. */
    constructor SoftwareSpi(sid: Pin, sclk: Pin, dc: Pin, rst: Pin, cs: Pin)
      ensures bus == Spi(false, sid, sclk, dc, cs) && this.rst == rst && trace == []
    {
      bus := Spi(false, sid, sclk, dc, cs);
      this.rst := rst;
      trace := [];
    }

    /** Hardware SPI: the data and clock pins are the SPI peripheral's, recorded as -1. */
    constructor HardwareSpi(dc: Pin, rst: Pin, cs: Pin)
      ensures bus == Spi(true, -1, -1, dc, cs) && this.rst == rst && trace == []
    {
      bus := Spi(true, -1, -1, dc, cs);
      this.rst := rst;
      trace := [];
    }

    /** I2C with a reset pin. */
    constructor I2cWithReset(rst: Pin)
      ensures bus.I2c? && this.rst == rst && trace == []
    {
      bus := I2c(0);
      this.rst := rst;
      trace := [];
    }

    /** I2C without a reset pin. */
    constructor I2cNoReset()
      ensures bus.I2c? && !Connected(rst) && trace == []
    {
      bus := I2c(0);
      rst := -1;
      trace := [];
    }

    /** Connection::begin: hardware SPI starts the peripheral; I2C stores the address and
        starts Wire; software SPI only sets pin directions, which the trace does not record. */
    method Begin(i2caddr: Byte)
      modifies this
      ensures bus == (if old(bus).I2c? then I2c(i2caddr) else old(bus))
      ensures trace == old(trace) + StartEvents(bus)
    {
      if bus.I2c? {
        bus := I2c(i2caddr);
        trace := trace + [WireStart];
      } else if bus.hwSpi {
        trace := trace + [SpiStart];
      }
    }

    /** Drives the reset line. */
    method SetReset(high: bool)
      modifies this
      ensures bus == old(bus) && trace == old(trace) + [Level(Rst, high)]
    {
      trace := trace + [Level(Rst, high)];
    }

    /** Spi::fastSPIwrite: one SPI transfer, or eight clocks from the most significant bit down. */
    method FastSpiWrite(d: Byte)
      requires bus.Spi?
      modifies this
      ensures bus == old(bus) && trace == old(trace) + ByteEvents(bus.hwSpi, d)
    {
      if bus.hwSpi {
        trace := trace + [SpiTransfer(d)];
      } else {
        var bit: Byte := 0x80;
        ghost var n := 0;
        while bit != 0
          invariant 0 <= n <= 8 && bit == MsbMask(n)
          invariant bus == old(bus) && trace == old(trace) + ClockBits(BitsOf(d)[..n])
          decreases 8 - n
        {
          MsbMaskStep(n);
          trace := trace + [Level(Sclk, false), Level(Sid, d & bit != 0), Level(Sclk, true)];
          assert BitsOf(d)[..n + 1][..n] == BitsOf(d)[..n];
          bit := bit >> 1;
          n := n + 1;
        }
        MsbMaskStep(n);
        assert BitsOf(d)[..n] == BitsOf(d);
      }
    }

    /** Connection::command: on SPI one byte framed by chip select with D/C low;
        on I2C one transaction of the command control byte and the byte. */
    method Command(c: Byte)
      modifies this
      ensures bus == old(bus) && trace == old(trace) + CommandEvents(bus, c)
    {
      if bus.Spi? {
        ghost var before := trace;
        trace := trace + [Level(Cs, true), Level(Dc, false), Level(Cs, false)];
        FastSpiWrite(c);
        trace := trace + [Level(Cs, true)];
        assert trace == before + ([Level(Cs, true), Level(Dc, false), Level(Cs, false)] + ByteEvents(bus.hwSpi, c) + [Level(Cs, true)]);
      } else {
        trace := trace + [WireBegin(bus.addr), WireWrite(I2C_COMMAND_CONTROL), WireWrite(c), WireEnd];
      }
    }

    /** Connection::writeBuffer: the first n bytes of buf as display data, through the
        transport's own writeBuffer. */
    method WriteBuffer(buf: array<Byte>, n: int)
      requires 0 <= n <= buf.Length && n < 0x1_0000
      requires bus.I2c? ==> n % I2C_CHUNK == 0
      modifies this
      ensures bus == old(bus) && trace == old(trace) + DataEvents(bus, buf[..n])
    {
      if bus.Spi? {
        SpiWriteBuffer(buf, n);
      } else {
        I2cWriteBuffer(buf, n);
      }
    }

    /** Spi::writeBuffer: one chip-select frame with D/C high around all n bytes. */
    method SpiWriteBuffer(buf: array<Byte>, n: int)
      requires bus.Spi? && 0 <= n <= buf.Length
      modifies this
      ensures bus == old(bus) && trace == old(trace) + DataEvents(bus, buf[..n])
    {
      trace := trace + [Level(Cs, true), Level(Dc, true), Level(Cs, false)];
      ghost var start := trace;
      var i := 0;
      while i < n
        invariant 0 <= i <= n && bus == old(bus)
        invariant trace == start + SpiBytes(bus.hwSpi, buf[..i])
      {
        FastSpiWrite(buf[i]);
        SpiBytesStep(start, bus.hwSpi, buf[..], i);
        assert buf[..][..i] == buf[..i] && buf[..][..i + 1] == buf[..i + 1];
        i := i + 1;
      }
      trace := trace + [Level(Cs, true)];
      SpiDataFrame(old(trace), bus, buf[..n]);
    }

    /** I2c::writeBuffer: the inner loop always sends 16 bytes per transaction, so n must be
        a multiple of 16 (every profile's buffer size is). */
    method I2cWriteBuffer(buf: array<Byte>, n: int)
      requires bus.I2c? && 0 <= n <= buf.Length && n < 0x1_0000 && n % I2C_CHUNK == 0
      modifies this
      ensures bus == old(bus) && trace == old(trace) + DataEvents(bus, buf[..n])
    {
      var addr := bus.addr;
      var i := 0;
      while i < n
        invariant 0 <= i <= n && i % I2C_CHUNK == 0 && bus == old(bus)
        invariant trace == old(trace) + I2cChunks(addr, buf[..i])
      {
        ghost var first := i;
        ChunkFits(i, n);
        trace := trace + [WireBegin(addr), WireWrite(I2C_DATA_CONTROL)];
        ghost var opening := trace;
        var x := 0;
        while x < 16
          invariant 0 <= x <= 16 && i == first + x && first + 16 <= n && bus == old(bus)
          invariant trace == opening + WireWrites(buf[first..i])
        {
          trace := trace + [WireWrite(buf[i])];
          WireWritesExtend(opening, buf[..], first, i);
          i := i + 1;
          x := x + 1;
        }
        i := i - 1;
        trace := trace + [WireEnd];
        i := i + 1;
        I2cChunksExtend(old(trace), addr, buf[..], first);
      }
    }
  }

  /** A whole chunk fits between a chunk boundary and a later multiple of the chunk size. */
  lemma ChunkFits(i: int, n: int)
    requires 0 <= i < n && i % I2C_CHUNK == 0 && n % I2C_CHUNK == 0
    ensures i + I2C_CHUNK <= n && (i + I2C_CHUNK) % I2C_CHUNK == 0
  {
    assert i == (i / I2C_CHUNK) * I2C_CHUNK && n == (n / I2C_CHUNK) * I2C_CHUNK;
    assert i / I2C_CHUNK < n / I2C_CHUNK;
  }

  lemma WireWritesExtend(t0: seq<Event>, data: seq<Byte>, lo: nat, hi: nat)
    requires lo <= hi < |data|
    ensures t0 + WireWrites(data[lo..hi + 1]) == t0 + WireWrites(data[lo..hi]) + [WireWrite(data[hi])]
  {
    assert data[lo..hi + 1][..hi - lo] == data[lo..hi];
  }

  lemma I2cChunksExtend(t0: seq<Event>, addr: Byte, data: seq<Byte>, k: nat)
    requires k + I2C_CHUNK <= |data| && k % I2C_CHUNK == 0
    ensures t0 + I2cChunks(addr, data[..k + I2C_CHUNK])
         == t0 + I2cChunks(addr, data[..k]) + [WireBegin(addr), WireWrite(I2C_DATA_CONTROL)]
            + WireWrites(data[k..k + I2C_CHUNK]) + [WireEnd]
  {
    var pre := data[..k + I2C_CHUNK];
    assert pre[..k] == data[..k];
    assert pre[k..] == data[k..k + I2C_CHUNK];
  }

  // ---------------------------------------------------------------------------
  // The controller's side: what it receives

  /** A byte as the controller takes it: a command, or display data for its RAM. */
  datatype Frame = Cmd(b: Byte) | Data(b: Byte)

  function FrameOf(dcHigh: bool, b: Byte): Frame
  {
    if dcHigh then Data(b) else Cmd(b)
  }

  function Cmds(cs: seq<Byte>): (r: seq<Frame>)
    ensures |r| == |cs| && forall i | 0 <= i < |cs| :: r[i] == Cmd(cs[i])
  {
    if |cs| == 0 then [] else Cmds(cs[..|cs| - 1]) + [Cmd(cs[|cs| - 1])]
  }

  function Datas(ds: seq<Byte>): (r: seq<Frame>)
    ensures |r| == |ds| && forall i | 0 <= i < |ds| :: r[i] == Data(ds[i])
  {
    if |ds| == 0 then [] else Datas(ds[..|ds| - 1]) + [Data(ds[|ds| - 1])]
  }

  /** The SPI receiver: chip select, the D/C# line, the clock and data lines as last seen,
      the bits of the byte in progress (most significant first) and the bytes taken so far. */
  datatype SpiDevice = SpiDevice(
    selected: bool, dcHigh: bool, sclkHigh: bool, sidHigh: bool,
    bits: seq<bool>, frames: seq<Frame>)

  /** The byte whose bits, most significant first, are b. */
  function FromBits(b: seq<bool>): Byte
    requires |b| == 8
  {
    (if b[0] then 0x80 else 0) | (if b[1] then 0x40 else 0) | (if b[2] then 0x20 else 0) |
    (if b[3] then 0x10 else 0) | (if b[4] then 0x08 else 0) | (if b[5] then 0x04 else 0) |
    (if b[6] then 0x02 else 0) | (if b[7] then 0x01 else 0)
  }

  /** Reassembling the bits sent gives the byte back. */
  lemma FromBitsOf(d: Byte)
    ensures FromBits(BitsOf(d)) == d
  {
    MsbMaskValues();
  }

  /** Deselecting clears the bits in progress; a rising clock edge while selected takes the
      data line as the next bit and the eighth bit completes a byte; a hardware transfer is a
      whole byte. */
  function SpiStep(st: SpiDevice, e: Event): SpiDevice
  {
    match e
    case Level(line, h) =>
      (match line
       case Cs => if h then st.(selected := false, bits := []) else st.(selected := true)
       case Dc => st.(dcHigh := h)
       case Sid => st.(sidHigh := h)
       case Sclk =>
         if h && !st.sclkHigh && st.selected then
           var bits := st.bits + [st.sidHigh];
           if |bits| == 8
           then st.(sclkHigh := true, bits := [], frames := st.frames + [FrameOf(st.dcHigh, FromBits(bits))])
           else st.(sclkHigh := true, bits := bits)
         else st.(sclkHigh := h)
       case Rst => st)
    case SpiTransfer(b) =>
      if st.selected then st.(frames := st.frames + [FrameOf(st.dcHigh, b)]) else st
    case _ => st
  }

  function SpiRun(st: SpiDevice, evs: seq<Event>): SpiDevice
    decreases |evs|
  {
    if |evs| == 0 then st else SpiRun(SpiStep(st, evs[0]), evs[1..])
  }

  lemma {:induction false} SpiRunConcat(st: SpiDevice, a: seq<Event>, b: seq<Event>)
    ensures SpiRun(st, a + b) == SpiRun(SpiRun(st, a), b)
    decreases |a|
  {
    if |a| > 0 {
      assert (a + b)[0] == a[0] && (a + b)[1..] == a[1..] + b;
      SpiRunConcat(SpiStep(st, a[0]), a[1..], b);
    } else {
      assert a + b == b;
    }
  }

  lemma SpiRunThree(st: SpiDevice, e1: Event, e2: Event, e3: Event)
    ensures SpiRun(st, [e1, e2, e3]) == SpiStep(SpiStep(SpiStep(st, e1), e2), e3)
  {
    var s1 := SpiStep(st, e1);
    var s2 := SpiStep(s1, e2);
    assert [e1, e2, e3][1..] == [e2, e3];
    assert [e2, e3][1..] == [e3];
    assert [e3][1..] == [];
    assert SpiRun(st, [e1, e2, e3]) == SpiRun(s1, [e2, e3]);
    assert SpiRun(s1, [e2, e3]) == SpiRun(s2, [e3]);
    assert SpiRun(s2, [e3]) == SpiRun(SpiStep(s2, e3), []);
  }

  /** One clock while selected takes the data bit; the eighth completes the byte. */
  lemma ClockBitEffect(st: SpiDevice, v: bool)
    requires st.selected
    ensures var bits := st.bits + [v];
      SpiRun(st, ClockBit(v)) ==
        if |bits| == 8
        then st.(sclkHigh := true, sidHigh := v, bits := [], frames := st.frames + [FrameOf(st.dcHigh, FromBits(bits))])
        else st.(sclkHigh := true, sidHigh := v, bits := bits)
  {
    SpiRunThree(st, Level(Sclk, false), Level(Sid, v), Level(Sclk, true));
  }

  /** Fewer than eight clocks while selected only collect bits. */
  lemma {:induction false} ClockBitsCollect(st: SpiDevice, bs: seq<bool>)
    requires st.selected && |st.bits| + |bs| < 8
    ensures SpiRun(st, ClockBits(bs)).selected && SpiRun(st, ClockBits(bs)).dcHigh == st.dcHigh
    ensures SpiRun(st, ClockBits(bs)).bits == st.bits + bs
    ensures SpiRun(st, ClockBits(bs)).frames == st.frames
    decreases |bs|
  {
    if |bs| > 0 {
      var init := bs[..|bs| - 1];
      ClockBitsCollect(st, init);
      SpiRunConcat(st, ClockBits(init), ClockBit(bs[|bs| - 1]));
      ClockBitEffect(SpiRun(st, ClockBits(init)), bs[|bs| - 1]);
      assert st.bits + init + [bs[|bs| - 1]] == st.bits + bs;
    } else {
      assert st.bits + bs == st.bits;
    }
  }

  /** Eight clocks while selected deliver d, with the D/C# line deciding command or data. */
  lemma BitBangDelivers(st: SpiDevice, d: Byte)
    requires st.selected && st.bits == []
    ensures SpiRun(st, ClockBits(BitsOf(d))).frames == st.frames + [FrameOf(st.dcHigh, d)]
    ensures SpiRun(st, ClockBits(BitsOf(d))).selected && SpiRun(st, ClockBits(BitsOf(d))).bits == []
    ensures SpiRun(st, ClockBits(BitsOf(d))).dcHigh == st.dcHigh
  {
    var bs := BitsOf(d);
    var init := bs[..7];
    assert ClockBits(bs) == ClockBits(init) + ClockBit(bs[7]);
    ClockBitsCollect(st, init);
    var mid := SpiRun(st, ClockBits(init));
    SpiRunConcat(st, ClockBits(init), ClockBit(bs[7]));
    ClockBitEffect(mid, bs[7]);
    assert mid.bits + [bs[7]] == bs;
    FromBitsOf(d);
  }

  /** fastSPIwrite(d) while selected delivers d and leaves the receiver between bytes. */
  lemma ByteDelivered(st: SpiDevice, hwSpi: bool, d: Byte)
    requires st.selected && st.bits == []
    ensures SpiRun(st, ByteEvents(hwSpi, d)).frames == st.frames + [FrameOf(st.dcHigh, d)]
    ensures SpiRun(st, ByteEvents(hwSpi, d)).selected && SpiRun(st, ByteEvents(hwSpi, d)).bits == []
    ensures SpiRun(st, ByteEvents(hwSpi, d)).dcHigh == st.dcHigh
  {
    if hwSpi {
      assert [SpiTransfer(d)][1..] == [];
    } else {
      BitBangDelivers(st, d);
    }
  }

  lemma {:induction false} SpiBytesDelivered(st: SpiDevice, hwSpi: bool, data: seq<Byte>)
    requires st.selected && st.bits == [] && st.dcHigh
    ensures SpiRun(st, SpiBytes(hwSpi, data)).frames == st.frames + Datas(data)
    ensures SpiRun(st, SpiBytes(hwSpi, data)).selected && SpiRun(st, SpiBytes(hwSpi, data)).bits == []
    ensures SpiRun(st, SpiBytes(hwSpi, data)).dcHigh
    decreases |data|
  {
    if |data| > 0 {
      var init := data[..|data| - 1];
      SpiBytesDelivered(st, hwSpi, init);
      SpiRunConcat(st, SpiBytes(hwSpi, init), ByteEvents(hwSpi, data[|data| - 1]));
      ByteDelivered(SpiRun(st, SpiBytes(hwSpi, init)), hwSpi, data[|data| - 1]);
    }
  }

  /** The I2C receiver: its own address, whether the current transaction is addressed to it,
      whether a control byte is due, the D/C# and Co bits of the last control byte, and the
      bytes taken so far. */
  datatype I2cDevice = I2cDevice(
    own: Byte, active: bool, awaitControl: bool, dcHigh: bool, co: bool, frames: seq<Frame>)

  /** A transaction starts with a control byte (bit 7 Co, bit 6 D/C#); with Co = 0 every
      further byte of the transaction is of that kind. */
  function I2cStep(st: I2cDevice, e: Event): I2cDevice
  {
    match e
    case WireBegin(a) => st.(active := a == st.own, awaitControl := true)
    case WireWrite(b) =>
      if !st.active then st
      else if st.awaitControl then st.(awaitControl := false, dcHigh := b & 0x40 != 0, co := b & 0x80 != 0)
      else st.(frames := st.frames + [FrameOf(st.dcHigh, b)], awaitControl := st.co)
    case WireEnd => st.(active := false)
    case _ => st
  }

  function I2cRun(st: I2cDevice, evs: seq<Event>): I2cDevice
    decreases |evs|
  {
    if |evs| == 0 then st else I2cRun(I2cStep(st, evs[0]), evs[1..])
  }

  lemma {:induction false} I2cRunConcat(st: I2cDevice, a: seq<Event>, b: seq<Event>)
    ensures I2cRun(st, a + b) == I2cRun(I2cRun(st, a), b)
    decreases |a|
  {
    if |a| > 0 {
      assert (a + b)[0] == a[0] && (a + b)[1..] == a[1..] + b;
      I2cRunConcat(I2cStep(st, a[0]), a[1..], b);
    } else {
      assert a + b == b;
    }
  }

  lemma I2cRunTwo(st: I2cDevice, e1: Event, e2: Event)
    ensures I2cRun(st, [e1, e2]) == I2cStep(I2cStep(st, e1), e2)
  {
    var s1 := I2cStep(st, e1);
    assert [e1, e2][1..] == [e2];
    assert [e2][1..] == [];
    assert I2cRun(st, [e1, e2]) == I2cRun(s1, [e2]);
    assert I2cRun(s1, [e2]) == I2cRun(I2cStep(s1, e2), []);
  }

  lemma I2cRunOne(st: I2cDevice, e: Event)
    ensures I2cRun(st, [e]) == I2cStep(st, e)
  {
    assert [e][1..] == [];
  }

  lemma {:induction false} WireWritesDelivered(st: I2cDevice, data: seq<Byte>)
    requires st.active && !st.awaitControl && !st.co && st.dcHigh
    ensures I2cRun(st, WireWrites(data)) == st.(frames := st.frames + Datas(data))
    decreases |data|
  {
    if |data| > 0 {
      var init := data[..|data| - 1];
      WireWritesDelivered(st, init);
      I2cRunConcat(st, WireWrites(init), [WireWrite(data[|data| - 1])]);
    }
  }

  lemma {:induction false} I2cChunksDelivered(st: I2cDevice, data: seq<Byte>)
    requires |data| % I2C_CHUNK == 0
    ensures I2cRun(st, I2cChunks(st.own, data)).frames == st.frames + Datas(data)
    ensures I2cRun(st, I2cChunks(st.own, data)).own == st.own
    decreases |data|
  {
    if |data| > 0 {
      var init, last := data[..|data| - I2C_CHUNK], data[|data| - I2C_CHUNK..];
      I2cChunksDelivered(st, init);
      var mid := I2cRun(st, I2cChunks(st.own, init));
      I2cRunConcat(st, I2cChunks(st.own, init), I2cChunk(st.own, last));
      var ready := mid.(active := true, awaitControl := false, dcHigh := true, co := false);
      I2cRunTwo(mid, WireBegin(st.own), WireWrite(I2C_DATA_CONTROL));
      I2cRunOne(I2cRun(ready, WireWrites(last)), WireEnd);
      I2cRunConcat(mid, [WireBegin(st.own), WireWrite(I2C_DATA_CONTROL)], WireWrites(last) + [WireEnd]);
      I2cRunConcat(ready, WireWrites(last), [WireEnd]);
      WireWritesDelivered(ready, last);
      assert I2cChunk(st.own, last) == [WireBegin(st.own), WireWrite(I2C_DATA_CONTROL)] + (WireWrites(last) + [WireEnd]);
      assert Datas(data) == Datas(init) + Datas(last);
    }
  }

  // ---------------------------------------------------------------------------
  // Round trips: the controller receives exactly what the driver sent

  /** What the controller attached to `bus` takes from a trace, starting from `st`
      (for I2C, a controller answering to the bus address). */
  function Received(bus: Bus, spi: SpiDevice, i2c: I2cDevice, evs: seq<Event>): seq<Frame>
  {
    if bus.Spi? then SpiRun(spi, evs).frames else I2cRun(i2c, evs).frames
  }

  /** Raising chip select, setting D/C# and lowering chip select: selected, between bytes. */
  lemma SpiSelect(st: SpiDevice, dc: bool)
    ensures SpiRun(st, [Level(Cs, true), Level(Dc, dc), Level(Cs, false)])
         == st.(selected := true, bits := [], dcHigh := dc)
  {
    SpiRunThree(st, Level(Cs, true), Level(Dc, dc), Level(Cs, false));
  }

  /** Raising chip select deselects and drops any partial byte. */
  lemma SpiDeselect(st: SpiDevice)
    ensures SpiRun(st, [Level(Cs, true)]) == st.(selected := false, bits := [])
  {
    assert [Level(Cs, true)][1..] == [];
  }

  lemma SpiCommandDelivered(bus: Bus, spi: SpiDevice, c: Byte)
    requires bus.Spi?
    ensures SpiRun(spi, CommandEvents(bus, c)).frames == spi.frames + [Cmd(c)]
    ensures !SpiRun(spi, CommandEvents(bus, c)).selected
  {
    var head := [Level(Cs, true), Level(Dc, false), Level(Cs, false)];
    var body := ByteEvents(bus.hwSpi, c);
    var s1 := spi.(selected := true, bits := [], dcHigh := false);
    SpiSelect(spi, false);
    ByteDelivered(s1, bus.hwSpi, c);
    SpiRunConcat(spi, head, body + [Level(Cs, true)]);
    SpiRunConcat(s1, body, [Level(Cs, true)]);
    SpiDeselect(SpiRun(s1, body));
    assert CommandEvents(bus, c) == head + (body + [Level(Cs, true)]);
  }

  lemma I2cCommandDelivered(bus: Bus, i2c: I2cDevice, c: Byte)
    requires bus.I2c? && i2c.own == bus.addr
    ensures I2cRun(i2c, CommandEvents(bus, c)) == i2c.(active := false, awaitControl := false,
      dcHigh := false, co := false, frames := i2c.frames + [Cmd(c)])
  {
    var head := [WireBegin(bus.addr), WireWrite(I2C_COMMAND_CONTROL)];
    var tail := [WireWrite(c), WireEnd];
    assert CommandEvents(bus, c) == head + tail;
    I2cRunConcat(i2c, head, tail);
    I2cRunTwo(i2c, head[0], head[1]);
    I2cRunTwo(I2cRun(i2c, head), tail[0], tail[1]);
  }

  /** A command reaches the controller as one command byte, whatever state the receiver was in
      (chip select is raised first on SPI; a fresh transaction begins on I2C). */
  lemma CommandDelivered(bus: Bus, spi: SpiDevice, i2c: I2cDevice, c: Byte)
    requires bus.I2c? ==> i2c.own == bus.addr
    ensures Received(bus, spi, i2c, CommandEvents(bus, c)) == Received(bus, spi, i2c, []) + [Cmd(c)]
    ensures bus.Spi? ==> !SpiRun(spi, CommandEvents(bus, c)).selected
    ensures bus.I2c? ==> I2cRun(i2c, CommandEvents(bus, c)).own == i2c.own
  {
    if bus.Spi? {
      SpiCommandDelivered(bus, spi, c);
    } else {
      I2cCommandDelivered(bus, i2c, c);
    }
  }

  lemma {:induction false} CommandsDelivered(bus: Bus, spi: SpiDevice, i2c: I2cDevice, cs: seq<Byte>)
    requires bus.I2c? ==> i2c.own == bus.addr
    ensures Received(bus, spi, i2c, CommandsEvents(bus, cs)) == Received(bus, spi, i2c, []) + Cmds(cs)
    ensures bus.I2c? ==> I2cRun(i2c, CommandsEvents(bus, cs)).own == i2c.own
    decreases |cs|
  {
    if |cs| > 0 {
      var init := cs[..|cs| - 1];
      CommandsDelivered(bus, spi, i2c, init);
      var evs := CommandsEvents(bus, init);
      SpiRunConcat(spi, evs, CommandEvents(bus, cs[|cs| - 1]));
      I2cRunConcat(i2c, evs, CommandEvents(bus, cs[|cs| - 1]));
      CommandDelivered(bus, SpiRun(spi, evs), I2cRun(i2c, evs), cs[|cs| - 1]);
    }
  }

  lemma SpiDataDelivered(bus: Bus, spi: SpiDevice, data: seq<Byte>)
    requires bus.Spi?
    ensures SpiRun(spi, DataEvents(bus, data)).frames == spi.frames + Datas(data)
  {
    var head := [Level(Cs, true), Level(Dc, true), Level(Cs, false)];
    var body := SpiBytes(bus.hwSpi, data);
    var s1 := spi.(selected := true, bits := [], dcHigh := true);
    SpiSelect(spi, true);
    SpiBytesDelivered(s1, bus.hwSpi, data);
    SpiRunConcat(spi, head, body + [Level(Cs, true)]);
    SpiRunConcat(s1, body, [Level(Cs, true)]);
    SpiDeselect(SpiRun(s1, body));
    assert DataEvents(bus, data) == head + (body + [Level(Cs, true)]);
  }

  /** A writeBuffer reaches the controller as the same bytes, in order, all as display data. */
  lemma DataDelivered(bus: Bus, spi: SpiDevice, i2c: I2cDevice, data: seq<Byte>)
    requires bus.I2c? ==> i2c.own == bus.addr && |data| % I2C_CHUNK == 0
    ensures Received(bus, spi, i2c, DataEvents(bus, data)) == Received(bus, spi, i2c, []) + Datas(data)
  {
    if bus.Spi? {
      SpiDataDelivered(bus, spi, data);
    } else {
      I2cChunksDelivered(i2c, data);
    }
  }

  /** Commands followed by a buffer write arrive as those commands and then that data. */
  lemma CommandsThenDataDelivered(bus: Bus, spi: SpiDevice, i2c: I2cDevice, cs: seq<Byte>, data: seq<Byte>)
    requires bus.I2c? ==> i2c.own == bus.addr && |data| % I2C_CHUNK == 0
    ensures Received(bus, spi, i2c, CommandsEvents(bus, cs) + DataEvents(bus, data))
         == Received(bus, spi, i2c, []) + Cmds(cs) + Datas(data)
  {
    var evs := CommandsEvents(bus, cs);
    CommandsDelivered(bus, spi, i2c, cs);
    SpiRunConcat(spi, evs, DataEvents(bus, data));
    I2cRunConcat(i2c, evs, DataEvents(bus, data));
    DataDelivered(bus, SpiRun(spi, evs), I2cRun(i2c, evs), data);
  }

  /** The I2C framing of a command is the two-byte transaction [0x00, c]; data goes out in
      |data| / 16 transactions, each 0x40 and then 16 consecutive bytes. */
  lemma {:induction false} I2cChunkCount(addr: Byte, data: seq<Byte>)
    requires |data| % I2C_CHUNK == 0
    ensures |I2cChunks(addr, data)| == (|data| / I2C_CHUNK) * (I2C_CHUNK + 3)
    decreases |data|
  {
    if |data| > 0 {
      I2cChunkCount(addr, data[..|data| - I2C_CHUNK]);
      WireWritesLength(data[|data| - I2C_CHUNK..]);
    }
  }

  lemma {:induction false} WireWritesLength(data: seq<Byte>)
    ensures |WireWrites(data)| == |data|
    ensures forall i | 0 <= i < |data| :: WireWrites(data)[i] == WireWrite(data[i])
    decreases |data|
  {
    if |data| > 0 {
      WireWritesLength(data[..|data| - 1]);
    }
  }
}
