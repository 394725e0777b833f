/** The MCP3208 driver (`Mcp3208::read` in src/hardware/mod.rs) composed with a model of the converter
    on the other end of the wires. */
module Mcp3208 {
  import opened Spi
  import opened Wire

  datatype ReadResult = Reading(value: bv16) | NoNullBit | GpioError

  /** The three bytes that ask for channel `channel`, single-ended. */
  function CommandBytes(channel: bv8): seq<bv8> {
    [0x6 | (channel >> 2), (channel & 0x3) << 6, 0]
  }

  function FromBigEndian(hi: bv8, lo: bv8): bv16 {
    ((hi as bv16) << 8) | (lo as bv16)
  }

  /** What the driver makes of the three bytes received. */
  function Decode(b1: bv8, b2: bv8): ReadResult {
    if b1 & 0x10 != 0 then NoNullBit else Reading(FromBigEndian(b1 & 0x0F, b2))
  }

  /** The levels sampled during a read that begins at `t`. */
  function Sampled(miso: Trace -> bool, t: Trace, dev: nat, channel: bv8): (r: seq<bool>)
    ensures |r| == 24
  {
    ReadBits(miso, t + [Cs(dev, false)], Bits(CommandBytes(channel)))
  }

  /** `Mcp3208::read`, whatever is connected. If no pin fails, the level sampled at the twelfth bit decides:
      a high one is reported as a missing null bit, and after a low one the reading is the twelve bits
      sampled after it, high bit first. */
  method Read(bus: Bus, dev: nat, channel: bv8) returns (r: ReadResult)
    requires channel < 8
    modifies bus
    ensures r.GpioError? ==> old(bus.trace) <= bus.trace < TransferTrace(bus.miso, old(bus.trace), dev, CommandBytes(channel))
                             && bus.faulty(bus.trace)
    ensures !r.GpioError? ==>
              && bus.trace == TransferTrace(bus.miso, old(bus.trace), dev, CommandBytes(channel))
              && r == Decode(ReceivedByte(bus.miso, old(bus.trace), dev, CommandBytes(channel), 1),
                             ReceivedByte(bus.miso, old(bus.trace), dev, CommandBytes(channel), 2))
    ensures !r.GpioError? ==> (r == NoNullBit <==> Sampled(bus.miso, old(bus.trace), dev, channel)[11])
    ensures r.Reading? ==> r.value < 4096
    ensures r.Reading? ==>
              forall n :: 12 <= n < 24 ==> Sampled(bus.miso, old(bus.trace), dev, channel)[n] == WideBit(r.value, 23 - n)
  {
    hide TransferTrace, ReceivedByte, Sampled, WideBit, Decode, Or;
    DecodeSampled(bus.miso, bus.trace, dev, channel);
    var outgoing := [0x6 | (channel >> 2), (channel & 0x3) << 6, 0];
    var incoming := new bv8[3](_ => 0);
    var ok := Transfer(bus, dev, outgoing, incoming);
    if !ok {
      return GpioError;
    }
    OrZero(ReceivedByte(bus.miso, old(bus.trace), dev, CommandBytes(channel), 1));
    OrZero(ReceivedByte(bus.miso, old(bus.trace), dev, CommandBytes(channel), 2));
    r := DecodeIncoming(incoming);
  }

  /** The null-bit check, the mask and the big-endian value. */
  method DecodeIncoming(incoming: array<bv8>) returns (r: ReadResult)
    requires incoming.Length == 3
    modifies incoming
    ensures r == Decode(old(incoming[1]), old(incoming[2]))
    ensures !r.GpioError? && (r.Reading? ==> r.value < 4096)
  {
    TwelveBits(incoming[1], incoming[2]);
    if incoming[1] & 0x10 != 0 {
      return NoNullBit;
    }
    incoming[1] := incoming[1] & 0x0F;
    return Reading(FromBigEndian(incoming[1], incoming[2]));
  }

  lemma OrZero(b: bv8)
    ensures Or(0, b) == b
  {
  }

  lemma TwelveBits(b1: bv8, b2: bv8)
    ensures FromBigEndian(b1 & 0x0F, b2) < 4096
  {
  }

  // ---------------------------------------------------------------------------------------------
  // The converter
  // ---------------------------------------------------------------------------------------------

  type TwelveBit = x: bv16 | x < 4096

  /** The values at the inputs: for each mode (single-ended or not) and channel, a twelve-bit sample. */
  type Inputs = (bool, bv8) -> TwelveBit

  /** The converter sees its chip select, the clock and its data input. It starts afresh when its chip
      select falls, and only then. While selected it ignores zeros until a start bit, then latches four
      more bits on rising edges (single-ended or differential, and the channel, high bit first). It
      counts falling edges from the one after the last of them. On the second it holds the sample of
      the selected input and puts a null bit on the output, and on each later one the next bit of that
      sample, high bit first. */
  datatype Slave = Slave(selected: bool, clk: bool, din: bool, latched: seq<bool>, falls: nat, held: TwelveBit)

  const OFF := Slave(false, false, false, [], 0, 0)

  function Latch(s: Slave): seq<bool> {
    if s.latched == [] then (if s.din then [true] else [])
    else if |s.latched| < 5 then s.latched + [s.din]
    else s.latched
  }

  /** A falling clock edge once the command is complete. */
  function Fall(s: Slave, inputs: Inputs): Slave
    requires |s.latched| == 5
  {
    s.(falls := s.falls + 1,
       held := if s.falls == 1 then inputs(s.latched[1], Channel(s.latched[2], s.latched[3], s.latched[4])) else s.held)
  }

  function React(s: Slave, me: nat, op: PinOp, inputs: Inputs): Slave {
    match op
    case Cs(d, level) =>
      if d != me then s
      else if level then s.(selected := false)
      else if s.selected then s
      else s.(selected := true, latched := [], falls := 0)
    case Mosi(v) => s.(din := v)
    case Miso(_) => s
    case Clk(true) => if s.selected && !s.clk then s.(clk := true, latched := Latch(s)) else s.(clk := true)
    case Clk(false) =>
      if s.selected && s.clk && |s.latched| == 5 then Fall(s, inputs).(clk := false)
      else s.(clk := false)
  }

  /** The converter after a history of the bus. Its inputs change with time: `analog` says what they are
      at each point of the history. */
  function SlaveAfter(t: Trace, me: nat, analog: Trace -> Inputs): Slave {
    if t == [] then OFF else React(SlaveAfter(t[..|t| - 1], me, analog), me, t[|t| - 1], analog(t))
  }

  /** Bit `k` of a twelve-bit value. */
  function WideBit(x: bv16, k: nat): bool
    requires k < 12
  {
    if k < 6 then
      (if k == 0 then x & 1 != 0 else if k == 1 then x & 2 != 0 else if k == 2 then x & 4 != 0
       else if k == 3 then x & 8 != 0 else if k == 4 then x & 16 != 0 else x & 32 != 0)
    else
      (if k == 6 then x & 64 != 0 else if k == 7 then x & 128 != 0 else if k == 8 then x & 256 != 0
       else if k == 9 then x & 512 != 0 else if k == 10 then x & 1024 != 0 else x & 2048 != 0)
  }

  function Channel(d2: bool, d1: bool, d0: bool): bv8 {
    (if d2 then 4 else 0) | (if d1 then 2 else 0) | (if d0 then 1 else 0)
  }

  datatype Drive = HighZ | Low | Level(bit: bool)

  /** What the converter drives onto MISO: nothing until the null bit, nothing we rely on after B0. */
  function Output(s: Slave): Drive {
    if !s.selected || |s.latched| != 5 || s.falls < 2 || s.falls > 14 then HighZ
    else if s.falls == 2 then Low
    else Level(WideBit(s.held, 14 - s.falls))
  }

  predicate Follows(level: bool, d: Drive) {
    match d
    case HighZ => true
    case Low => !level
    case Level(b) => level == b
  }

  /** From the history `t` up to `w`, MISO follows the converter whenever it drives the line; otherwise it
      floats and may be anything. */
  ghost predicate Wired(miso: Trace -> bool, me: nat, analog: Trace -> Inputs, t: Trace, w: Trace) {
    forall u | t <= u <= w :: Follows(miso(u), Output(SlaveAfter(u, me, analog)))
  }

  // ---------------------------------------------------------------------------------------------
  // One bit, and then twenty-four
  // ---------------------------------------------------------------------------------------------

  /** The converter after one more bit of a transfer, with the clock low before and after, when the
      inputs at its falling edge are `inputs`. */
  function AfterBit(s: Slave, out: bool, inputs: Inputs): Slave {
    var up := s.(din := out, latched := Latch(s.(din := out)));
    if |up.latched| == 5 then Fall(up, inputs) else up
  }

  lemma ReactSnoc(t: Trace, me: nat, analog: Trace -> Inputs, op: PinOp)
    ensures SlaveAfter(t + [op], me, analog) == React(SlaveAfter(t, me, analog), me, op, analog(t + [op]))
  {
    assert (t + [op])[..|t + [op]| - 1] == t;
  }

  /** While the bit is sampled the converter has latched it but not yet seen its falling edge. */
  lemma SlaveUp(t: Trace, me: nat, analog: Trace -> Inputs, out: bool)
    requires SlaveAfter(t, me, analog).selected && !SlaveAfter(t, me, analog).clk
    ensures var s := SlaveAfter(t, me, analog);
      SlaveAfter(t + [Mosi(out), Clk(true)], me, analog) == s.(din := out, clk := true, latched := Latch(s.(din := out)))
  {
    hide Latch, Fall, SlaveAfter;
    var a := t + [Mosi(out)];
    ReactSnoc(t, me, analog, Mosi(out));
    ReactSnoc(a, me, analog, Clk(true));
    assert t + [Mosi(out), Clk(true)] == a + [Clk(true)];
  }

  lemma SlaveBit(miso: Trace -> bool, t: Trace, me: nat, analog: Trace -> Inputs, out: bool)
    requires SlaveAfter(t, me, analog).selected && !SlaveAfter(t, me, analog).clk
    ensures SlaveAfter(BitTrace(miso, t, out), me, analog)
         == AfterBit(SlaveAfter(t, me, analog), out, analog(BitTrace(miso, t, out)))
  {
    hide Latch, Fall, SlaveAfter, AfterBit;
    var b := t + [Mosi(out), Clk(true)];
    var c := b + [Miso(miso(b))];
    SlaveUp(t, me, analog, out);
    ReactSnoc(b, me, analog, Miso(miso(b)));
    ReactSnoc(c, me, analog, Clk(false));
    assert BitTrace(miso, t, out) == c + [Clk(false)];
    EdgeAfterBit(SlaveAfter(t, me, analog), me, out, analog(c + [Clk(false)]));
  }

  lemma EdgeAfterBit(s: Slave, me: nat, out: bool, inputs: Inputs)
    requires s.selected && !s.clk
    ensures React(s.(din := out, clk := true, latched := Latch(s.(din := out))), me, Clk(false), inputs) == AfterBit(s, out, inputs)
  {
    hide Latch;
  }

  /** The bits of the command: five zeros, the start bit, single-ended, the channel, fourteen zeros. */
  predicate IsCommand(bits: seq<bool>, d2: bool, d1: bool, d0: bool) {
    && |bits| == 24
    && (forall i :: 0 <= i < 5 ==> !bits[i])
    && bits[5] && bits[6] && bits[7] == d2 && bits[8] == d1 && bits[9] == d0
  }

  /** The converter just before bit `n` of a command. */
  function Expected(n: nat, d2: bool, d1: bool, d0: bool): (seq<bool>, nat) {
    (if n <= 5 then [] else [true, true, d2, d1, d0][..if n >= 10 then 5 else n - 5],
     if n < 10 then 0 else n - 9)
  }

  /** The converter through the command: after `n` bits it has latched and counted as expected, and from
      the eleventh on it holds the sample the selected input had at the end of that bit. */
  lemma {:induction false} CommandProgress(miso: Trace -> bool, s: Trace, me: nat, analog: Trace -> Inputs,
                                           bits: seq<bool>, d2: bool, d1: bool, d0: bool, n: nat)
    requires IsCommand(bits, d2, d1, d0) && n <= 24
    requires var a := SlaveAfter(s, me, analog); a.selected && !a.clk && a.latched == [] && a.falls == 0
    ensures var a := SlaveAfter(BitsTrace(miso, s, bits[..n]), me, analog);
      && a.selected && !a.clk && (a.latched, a.falls) == Expected(n, d2, d1, d0)
      && (n >= 11 ==> a.held == analog(BitsTrace(miso, s, bits[..11]))(true, Channel(d2, d1, d0)))
    decreases n
  {
    hide BitTrace, SlaveAfter, AfterBit, Expected, Channel;
    if n > 0 {
      CommandProgress(miso, s, me, analog, bits, d2, d1, d0, n - 1);
      assert bits[..n][..n - 1] == bits[..n - 1] && bits[..n][n - 1] == bits[n - 1];
      var before := BitsTrace(miso, s, bits[..n - 1]);
      SlaveBit(miso, before, me, analog, bits[n - 1]);
      NextExpected(SlaveAfter(before, me, analog), bits, d2, d1, d0, n - 1, analog(BitsTrace(miso, s, bits[..n])));
    } else {
      assert bits[..0] == [];
      NothingExpected(d2, d1, d0);
    }
  }

  lemma NothingExpected(d2: bool, d1: bool, d0: bool)
    ensures Expected(0, d2, d1, d0) == ([], 0)
  {
  }

  lemma NextExpected(a: Slave, bits: seq<bool>, d2: bool, d1: bool, d0: bool, n: nat, inputs: Inputs)
    requires IsCommand(bits, d2, d1, d0) && n < 24 && a.selected && !a.clk
    requires (a.latched, a.falls) == Expected(n, d2, d1, d0)
    ensures var b := AfterBit(a, bits[n], inputs);
      && b.selected && !b.clk && (b.latched, b.falls) == Expected(n + 1, d2, d1, d0)
      && b.held == if n == 10 then inputs(true, Channel(d2, d1, d0)) else a.held
  {
    hide Channel;
    if n < 5 {
      assert !bits[n];
    } else if n < 10 {
      hide Latch;
      NextLatched(a.(din := bits[n]), d2, d1, d0, n - 5);
    } else {
      assert [true, true, d2, d1, d0][..5] == [true, true, d2, d1, d0];
    }
  }

  lemma NextLatched(a: Slave, d2: bool, d1: bool, d0: bool, k: nat)
    requires k < 5 && a.latched == [true, true, d2, d1, d0][..k] && a.din == [true, true, d2, d1, d0][k]
    ensures Latch(a) == [true, true, d2, d1, d0][..k + 1]
  {
    var all := [true, true, d2, d1, d0];
    assert all[..k] + [all[k]] == all[..k + 1];
  }

  /** The channel number is what the three bits of the command carry. */
  lemma ChannelBits(channel: bv8)
    requires channel < 8
    ensures Channel(Bit(channel, 2), Bit(channel, 1), Bit(channel, 0)) == channel
    ensures IsCommand(Bits(CommandBytes(channel)), Bit(channel, 2), Bit(channel, 1), Bit(channel, 0))
  {
    hide Bit, ByteBits, Channel, Bits;
    ChannelNumber(channel);
    FirstByte(channel);
    SecondByte(channel);
    BitsThree(0x6 | (channel >> 2), (channel & 0x3) << 6, 0);
  }

  lemma BitsThree(a: bv8, b: bv8, c: bv8)
    ensures Bits([a, b, c]) == ByteBits(a) + ByteBits(b) + ByteBits(c)
  {
    hide ByteBits;
    assert [a, b, c][..2] == [a, b] && [a, b][..1] == [a] && [a][..0] == [];
    assert Bits([a]) == [] + ByteBits(a);
    assert Bits([a, b]) == Bits([a]) + ByteBits(b);
  }

  lemma ChannelNumber(channel: bv8)
    requires channel < 8
    ensures Channel(Bit(channel, 2), Bit(channel, 1), Bit(channel, 0)) == channel
  {
  }

  lemma FirstByte(channel: bv8)
    requires channel < 8
    ensures var b := ByteBits(0x6 | (channel >> 2));
      !b[0] && !b[1] && !b[2] && !b[3] && !b[4] && b[5] && b[6] && b[7] == Bit(channel, 2)
  {
  }

  lemma SecondByte(channel: bv8)
    requires channel < 8
    ensures var b := ByteBits((channel & 0x3) << 6); b[0] == Bit(channel, 1) && b[1] == Bit(channel, 0)
  {
  }

  // ---------------------------------------------------------------------------------------------
  // End to end
  // ---------------------------------------------------------------------------------------------

  /** The history at which the converter holds the sample, in a read that begins at `t`. */
  function HoldAt(miso: Trace -> bool, t: Trace, me: nat, channel: bv8): Trace {
    BitsTrace(miso, t + [Cs(me, false)], Bits(CommandBytes(channel))[..11])
  }

  /** The sample the selected input has then. */
  function SampleOf(miso: Trace -> bool, t: Trace, me: nat, analog: Trace -> Inputs, channel: bv8): TwelveBit {
    analog(HoldAt(miso, t, me, channel))(true, channel)
  }

  /** While bit `n` of the command is sampled, from the null bit on, the converter has the whole command,
      has seen `n - 9` falling edges since, and holds the sample. */
  lemma SlaveAtBit(miso: Trace -> bool, t: Trace, me: nat, analog: Trace -> Inputs, channel: bv8, n: nat)
    returns (up: Trace)
    requires channel < 8 && 11 <= n < 24 && !SlaveAfter(t, me, analog).clk && !SlaveAfter(t, me, analog).selected
    ensures |Bits(CommandBytes(channel))| == 24 && t <= up <= TransferTrace(miso, t, me, CommandBytes(channel))
    ensures ReadBits(miso, t + [Cs(me, false)], Bits(CommandBytes(channel)))[n] == miso(up)
    ensures var a := SlaveAfter(up, me, analog);
      a.selected && |a.latched| == 5 && a.falls == n - 9 && a.held == SampleOf(miso, t, me, analog, channel)
  {
    hide BitTrace, BitsTrace, Bits, CommandBytes, Bit, IsCommand, ReadBits, SlaveAfter, Channel;
    var s, bits := t + [Cs(me, false)], Bits(CommandBytes(channel));
    var d2, d1, d0 := Bit(channel, 2), Bit(channel, 1), Bit(channel, 0);
    ReactSnoc(t, me, analog, Cs(me, false));
    ChannelBits(channel);
    CommandLength(bits, d2, d1, d0);
    CommandProgress(miso, s, me, analog, bits, d2, d1, d0, n);
    var b := BitsTrace(miso, s, bits[..n]);
    SlaveUp(b, me, analog, bits[n]);
    ReadAt(miso, s, bits, n);
    up := b + [Mosi(bits[n]), Clk(true)];
    WithinTransfer(miso, t, me, CommandBytes(channel), n);
    assert |[true, true, d2, d1, d0][..5]| == 5;
  }

  /** The history while bit `n` is sampled is a part of the transfer. */
  lemma WithinTransfer(miso: Trace -> bool, t: Trace, me: nat, outgoing: seq<bv8>, n: nat)
    requires n < |Bits(outgoing)|
    ensures var bits := Bits(outgoing);
      t <= BitsTrace(miso, t + [Cs(me, false)], bits[..n]) + [Mosi(bits[n]), Clk(true)] <= TransferTrace(miso, t, me, outgoing)
  {
    hide BitsTrace, Bits;
    var s, bits := t + [Cs(me, false)], Bits(outgoing);
    BitInside(miso, s, bits, n);
    TransferContains(miso, t, me, outgoing, n + 1);
    var b := BitsTrace(miso, s, bits[..n]);
    assert b + [Mosi(bits[n]), Clk(true)] <= BitTrace(miso, b, bits[n]);
  }

  /** What the driver samples at bit `n` of the command: the null bit at 11, then B11 down to B0. */
  lemma SampledBit(miso: Trace -> bool, t: Trace, me: nat, analog: Trace -> Inputs, channel: bv8, n: nat)
    requires channel < 8 && 11 <= n < 24
    requires Wired(miso, me, analog, t, TransferTrace(miso, t, me, CommandBytes(channel)))
    requires !SlaveAfter(t, me, analog).clk && !SlaveAfter(t, me, analog).selected
    ensures var s := t + [Cs(me, false)]; var bits := Bits(CommandBytes(channel));
      |bits| == 24 &&
      ReadBits(miso, s, bits)[n] == (n > 11 && WideBit(SampleOf(miso, t, me, analog, channel), 23 - if n > 11 then n else 12))
  {
    hide BitTrace, BitsTrace, Bits, CommandBytes, WideBit, ReadBits, TransferTrace, SlaveAfter, SampleOf;
    var up := SlaveAtBit(miso, t, me, analog, channel, n);
    assert Follows(miso(up), Output(SlaveAfter(up, me, analog)));
  }

  lemma CommandLength(bits: seq<bool>, d2: bool, d1: bool, d0: bool)
    requires IsCommand(bits, d2, d1, d0)
    ensures |bits| == 24
  {
  }

  /** The converter's clock is the bus clock, and it is selected while its chip select is low. */
  lemma {:induction false} SamePins(t: Trace, me: nat, analog: Trace -> Inputs)
    ensures SlaveAfter(t, me, analog).clk == PinsAfter(t).clk
    ensures SlaveAfter(t, me, analog).selected <==> me in PinsAfter(t).low
    decreases |t|
  {
    hide Latch, Channel;
    if t != [] {
      SamePins(t[..|t| - 1], me, analog);
    }
  }

  /** The second byte received carries the null bit and the high bits of `x`, the third its low bits. */
  predicate HighByteOf(b: bv8, x: bv16) {
    b & 0x10 == 0 && (b & 0x0F) as bv16 == x >> 8
  }

  predicate LowByteOf(b: bv8, x: bv16) {
    ((x >> 8) << 8) | (b as bv16) == x
  }

  lemma DecodeBytes(b1: bv8, b2: bv8, x: bv16)
    requires HighByteOf(b1, x) && LowByteOf(b2, x)
    ensures Decode(b1, b2) == Reading(x)
  {
  }

  /** Decoding thirteen bits: a null bit and a twelve-bit value, with anything in the three bits
      before them, gives the value. */
  lemma DecodeBits(x: bv16, b1: seq<bool>, b2: seq<bool>)
    requires x < 4096 && |b1| == 8 && |b2| == 8 && !b1[3]
    requires forall i :: 4 <= i < 8 ==> b1[i] == WideBit(x, 15 - i)
    requires forall i :: 0 <= i < 8 ==> b2[i] == WideBit(x, 7 - i)
    ensures Decode(Pack(b1, 8), Pack(b2, 8)) == Reading(x)
  {
    hide Pack, PackEight, WideBit, Mask, Decode, HighByteOf, LowByteOf;
    PackAll(b1);
    PackAll(b2);
    HighByte(x, b1[0], b1[1], b1[2]);
    LowByte(x);
    DecodeBytes(Pack(b1, 8), Pack(b2, 8), x);
  }

  /** What the driver makes of the levels it sampled, whatever they are. */
  lemma DecodeSampled(miso: Trace -> bool, t: Trace, dev: nat, channel: bv8)
    ensures var sampled := Sampled(miso, t, dev, channel);
      var r := Decode(ReceivedByte(miso, t, dev, CommandBytes(channel), 1), ReceivedByte(miso, t, dev, CommandBytes(channel), 2));
      && (r == NoNullBit <==> sampled[11]) && !r.GpioError?
      && (r.Reading? ==> forall n :: 12 <= n < 24 ==> sampled[n] == WideBit(r.value, 23 - n))
  {
    hide ReadBits, Bits, Pack, Decode, WideBit;
    var sampled := Sampled(miso, t, dev, channel);
    var b1, b2 := sampled[8..16], sampled[16..24];
    DecodeAny(b1, b2);
    var r := Decode(Pack(b1, 8), Pack(b2, 8));
    if r.Reading? {
      forall n | 12 <= n < 24 ensures sampled[n] == WideBit(r.value, 23 - n) {
        assert sampled[n] == if n < 16 then b1[n - 8] else b2[n - 16];
      }
    }
  }

  function LowNibble(b: bv8): bv8 {
    b & 0x0F
  }

  predicate NullBitHigh(b: bv8) {
    b & 0x10 != 0
  }

  lemma DecodeShape(p: bv8, q: bv8)
    ensures Decode(p, q) == if NullBitHigh(p) then NoNullBit else Reading(FromBigEndian(LowNibble(p), q))
  {
  }

  /** Any sixteen levels: the fourth is the null bit, the last twelve are the value. */
  lemma DecodeAny(b1: seq<bool>, b2: seq<bool>)
    requires |b1| == 8 && |b2| == 8
    ensures var r := Decode(Pack(b1, 8), Pack(b2, 8));
      && (r == NoNullBit <==> b1[3]) && !r.GpioError?
      && (r.Reading? ==>
            && WideBit(r.value, 11) == b1[4] && WideBit(r.value, 10) == b1[5]
            && WideBit(r.value, 9) == b1[6] && WideBit(r.value, 8) == b1[7]
            && WideBit(r.value, 7) == b2[0] && WideBit(r.value, 6) == b2[1] && WideBit(r.value, 5) == b2[2]
            && WideBit(r.value, 4) == b2[3] && WideBit(r.value, 3) == b2[4] && WideBit(r.value, 2) == b2[5]
            && WideBit(r.value, 1) == b2[6] && WideBit(r.value, 0) == b2[7])
  {
    hide Pack, FromBigEndian, WideBit, Decode, NullBitHigh, LowNibble;
    DecodeShape(Pack(b1, 8), Pack(b2, 8));
    HighByteBits(b1, Pack(b2, 8));
    LowByteBits(LowNibble(Pack(b1, 8)), b2);
  }

  lemma HighByteBits(b: seq<bool>, low: bv8)
    requires |b| == 8
    ensures NullBitHigh(Pack(b, 8)) <==> b[3]
    ensures var x := FromBigEndian(LowNibble(Pack(b, 8)), low);
      WideBit(x, 11) == b[4] && WideBit(x, 10) == b[5] && WideBit(x, 9) == b[6] && WideBit(x, 8) == b[7]
  {
    hide Pack, PackEight, FromBigEndian, WideBit, NullBitHigh, LowNibble;
    PackAll(b);
    NullBit(b[0], b[1], b[2], b[3], b[4], b[5], b[6], b[7]);
    HighBits(b[0], b[1], b[2], b[3], b[4], b[5], b[6], b[7], low);
  }

  lemma LowByteBits(high: bv8, b: seq<bool>)
    requires |b| == 8
    ensures var x := FromBigEndian(high, Pack(b, 8));
      && WideBit(x, 7) == b[0] && WideBit(x, 6) == b[1] && WideBit(x, 5) == b[2] && WideBit(x, 4) == b[3]
      && WideBit(x, 3) == b[4] && WideBit(x, 2) == b[5] && WideBit(x, 1) == b[6] && WideBit(x, 0) == b[7]
  {
    hide Pack, PackEight, FromBigEndian, WideBit;
    PackAll(b);
    LowBits(high, b[0], b[1], b[2], b[3], b[4], b[5], b[6], b[7]);
  }

  lemma NullBit(c0: bool, c1: bool, c2: bool, c3: bool, c4: bool, c5: bool, c6: bool, c7: bool)
    ensures NullBitHigh(PackEight(c0, c1, c2, c3, c4, c5, c6, c7)) <==> c3
  {
  }

  lemma HighBits(c0: bool, c1: bool, c2: bool, c3: bool, c4: bool, c5: bool, c6: bool, c7: bool, low: bv8)
    ensures var x := FromBigEndian(LowNibble(PackEight(c0, c1, c2, c3, c4, c5, c6, c7)), low);
      WideBit(x, 11) == c4 && WideBit(x, 10) == c5 && WideBit(x, 9) == c6 && WideBit(x, 8) == c7
  {
  }

  lemma LowBits(high: bv8, c0: bool, c1: bool, c2: bool, c3: bool, c4: bool, c5: bool, c6: bool, c7: bool)
    ensures var x := FromBigEndian(high, PackEight(c0, c1, c2, c3, c4, c5, c6, c7));
      && WideBit(x, 7) == c0 && WideBit(x, 6) == c1 && WideBit(x, 5) == c2 && WideBit(x, 4) == c3
      && WideBit(x, 3) == c4 && WideBit(x, 2) == c5 && WideBit(x, 1) == c6 && WideBit(x, 0) == c7
  {
  }

  function PackEight(c0: bool, c1: bool, c2: bool, c3: bool, c4: bool, c5: bool, c6: bool, c7: bool): bv8 {
    (if c0 then 128 else 0) | (if c1 then 64 else 0) | (if c2 then 32 else 0) | (if c3 then 16 else 0)
    | (if c4 then 8 else 0) | (if c5 then 4 else 0) | (if c6 then 2 else 0) | (if c7 then 1 else 0)
  }

  lemma PackAll(b: seq<bool>)
    requires |b| == 8
    ensures Pack(b, 8) == PackEight(b[0], b[1], b[2], b[3], b[4], b[5], b[6], b[7])
  {
    assert Pack(b, 1) == Or(0, if b[0] then 128 else 0);
    assert Pack(b, 2) == Or(Pack(b, 1), if b[1] then 64 else 0);
    assert Pack(b, 3) == Or(Pack(b, 2), if b[2] then 32 else 0);
    assert Pack(b, 4) == Or(Pack(b, 3), if b[3] then 16 else 0);
    assert Pack(b, 5) == Or(Pack(b, 4), if b[4] then 8 else 0);
    assert Pack(b, 6) == Or(Pack(b, 5), if b[5] then 4 else 0);
    assert Pack(b, 7) == Or(Pack(b, 6), if b[6] then 2 else 0);
    assert Pack(b, 8) == Or(Pack(b, 7), if b[7] then 1 else 0);
  }

  lemma HighByte(x: bv16, c0: bool, c1: bool, c2: bool)
    requires x < 4096
    ensures HighByteOf(PackEight(c0, c1, c2, false, WideBit(x, 11), WideBit(x, 10), WideBit(x, 9), WideBit(x, 8)), x)
  {
  }

  lemma LowByte(x: bv16)
    requires x < 4096
    ensures LowByteOf(PackEight(WideBit(x, 7), WideBit(x, 6), WideBit(x, 5), WideBit(x, 4),
                                WideBit(x, 3), WideBit(x, 2), WideBit(x, 1), WideBit(x, 0)), x)
  {
  }

  /** A fault-free read of any channel 0 to 7 through the wires returns exactly the twelve-bit sample the
      converter held in that read, whatever the inputs do before and after and whatever the floating line
      reads before the null bit. */
  lemma {:induction false} EndToEnd(miso: Trace -> bool, t: Trace, me: nat, analog: Trace -> Inputs, channel: bv8)
    requires channel < 8 && PinsAfter(t) == REST
    requires Wired(miso, me, analog, t, TransferTrace(miso, t, me, CommandBytes(channel)))
    ensures Decode(ReceivedByte(miso, t, me, CommandBytes(channel), 1), ReceivedByte(miso, t, me, CommandBytes(channel), 2))
         == Reading(SampleOf(miso, t, me, analog, channel))
  {
    hide BitsTrace, Bits, ReadBits, Decode, Pack, WideBit, Wired, TransferTrace, SlaveAfter, SampleOf;
    SamePins(t, me, analog);
    var sampled := ReadBits(miso, t + [Cs(me, false)], Bits(CommandBytes(channel)));
    var x := SampleOf(miso, t, me, analog, channel);
    forall n | 11 <= n < 24
      ensures sampled[n] == (n > 11 && WideBit(x, 23 - if n > 11 then n else 12))
    {
      SampledBit(miso, t, me, analog, channel, n);
    }
    var b1, b2 := sampled[8..16], sampled[16..24];
    forall i | 4 <= i < 8 ensures b1[i] == WideBit(x, 15 - i) { assert b1[i] == sampled[8 + i]; }
    forall i | 0 <= i < 8 ensures b2[i] == WideBit(x, 7 - i) { assert b2[i] == sampled[16 + i]; }
    assert b1[3] == sampled[11];
    DecodeBits(x, b1, b2);
  }

  /** The driver and the converter together: on a bus at rest, a read either fails on a pin or returns
      the sample, and leaves the bus at rest if it succeeds. */
  method ReadWired(bus: Bus, me: nat, channel: bv8, ghost analog: Trace -> Inputs) returns (r: ReadResult)
    requires channel < 8 && PinsAfter(bus.trace) == REST
    requires Wired(bus.miso, me, analog, bus.trace, TransferTrace(bus.miso, bus.trace, me, CommandBytes(channel)))
    modifies bus
    ensures r == Reading(SampleOf(bus.miso, old(bus.trace), me, analog, channel)) || r == GpioError
    ensures r.Reading? ==> PinsAfter(bus.trace) == REST
                           && bus.trace == TransferTrace(bus.miso, old(bus.trace), me, CommandBytes(channel))
    ensures (forall t :: !bus.faulty(t)) ==> r.Reading?
  {
    hide BitsTrace, Bits, ReadBits, Decode, Wired, TransferTrace, ReceivedByte, SampleOf;
    EndToEnd(bus.miso, bus.trace, me, analog, channel);
    TransferOnWire(bus.miso, bus.trace, me, CommandBytes(channel));
    r := Read(bus, me, channel);
  }

  // ---------------------------------------------------------------------------------------------
  // Many reads
  // ---------------------------------------------------------------------------------------------

  /** A read of a channel of a device. */
  datatype ReadRequest = ReadRequest(dev: nat, channel: bv8)

  function Requests(asked: seq<ReadRequest>): seq<Request> {
    seq(|asked|, i requires 0 <= i < |asked| => Request(asked[i].dev, CommandBytes(asked[i].channel)))
  }

  /** What read `k` of a fault-free run of reads returns. */
  function ResultOf(miso: Trace -> bool, asked: seq<ReadRequest>, k: nat): ReadResult
    requires k < |asked|
  {
    var t, r := SessionTrace(miso, Requests(asked[..k])), asked[k];
    Decode(ReceivedByte(miso, t, r.dev, CommandBytes(r.channel), 1), ReceivedByte(miso, t, r.dev, CommandBytes(r.channel), 2))
  }

  /** Many converters on one bus, each with its own inputs that change all the time: in any fault-free
      run of asked, each read returns the sample its device held in that read, if that device was
      connected during it. */
  lemma {:induction false} ReadsInARow(miso: Trace -> bool, analogs: nat -> Trace -> Inputs, asked: seq<ReadRequest>, k: nat)
    requires k < |asked| && asked[k].channel < 8
    requires Wired(miso, asked[k].dev, analogs(asked[k].dev), SessionTrace(miso, Requests(asked[..k])),
                   SessionTrace(miso, Requests(asked[..k + 1])))
    ensures ResultOf(miso, asked, k)
         == Reading(SampleOf(miso, SessionTrace(miso, Requests(asked[..k])), asked[k].dev, analogs(asked[k].dev), asked[k].channel))
  {
    hide TransferTrace, Decode, ReceivedByte, SampleOf, Wired;
    var before := Requests(asked[..k]);
    assert Requests(asked[..k + 1])[..k] == before;
    SessionsDisciplined(miso, before);
    EndToEnd(miso, SessionTrace(miso, before), asked[k].dev, analogs(asked[k].dev), asked[k].channel);
  }
}
