/** The bit-banged SPI transfer (src/hardware/spi.rs): nested loops that drive chip select, clock and
    MOSI, sample MISO, and OR the sampled bits into the caller's buffer in place. */
module Spi {

  /** One successful operation on a pin of the bus. `Cs` names the device whose chip select it is;
      `Miso` is a read, with the level that was read. */
  datatype PinOp = Cs(dev: nat, level: bool) | Mosi(level: bool) | Clk(level: bool) | Miso(level: bool)

  type Trace = seq<PinOp>

  /** The single-bit masks `1 << k`. */
  function Mask(k: nat): bv8
    requires k < 8
  {
    if k == 0 then 1 else if k == 1 then 2 else if k == 2 then 4 else if k == 3 then 8
    else if k == 4 then 16 else if k == 5 then 32 else if k == 6 then 64 else 128
  }

  /** `|=` on a byte. */
  function Or(a: bv8, b: bv8): bv8 {
    a | b
  }

  function Bit(b: bv8, k: nat): bool
    requires k < 8
  {
    Mask(k) & b != 0
  }

  /** The bits of a byte, most significant first. */
  function ByteBits(b: bv8): (bits: seq<bool>)
    ensures |bits| == 8
  {
    seq(8, i requires 0 <= i < 8 => Bit(b, 7 - i))
  }

  function Bits(bytes: seq<bv8>): (bits: seq<bool>)
    ensures |bits| == 8 * |bytes|
  {
    if bytes == [] then [] else Bits(bytes[..|bytes| - 1]) + ByteBits(bytes[|bytes| - 1])
  }

  /** The byte whose first `k` bits, most significant first, are those of `bits`, and the rest zero. */
  function Pack(bits: seq<bool>, k: nat): bv8
    requires k <= |bits| && k <= 8
  {
    if k == 0 then 0 else Or(Pack(bits, k - 1), if bits[k - 1] then Mask(8 - k) else 0)
  }

  /** The operations of one bit: present it, raise the clock, sample, lower the clock. What a read
      returns is a function of everything that happened on the bus before it. */
  function BitTrace(miso: Trace -> bool, t: Trace, out: bool): Trace {
    var up := t + [Mosi(out), Clk(true)];
    up + [Miso(miso(up)), Clk(false)]
  }

  function BitsTrace(miso: Trace -> bool, t: Trace, bits: seq<bool>): Trace {
    if bits == [] then t
    else BitTrace(miso, BitsTrace(miso, t, bits[..|bits| - 1]), bits[|bits| - 1])
  }

  /** The bit sampled while `bits[i]` is on MOSI. */
  function ReadBit(miso: Trace -> bool, t: Trace, bits: seq<bool>, i: nat): bool
    requires i < |bits|
  {
    miso(BitsTrace(miso, t, bits[..i]) + [Mosi(bits[i]), Clk(true)])
  }

  function ReadBits(miso: Trace -> bool, t: Trace, bits: seq<bool>): (r: seq<bool>)
    ensures |r| == |bits|
  {
    seq(|bits|, i requires 0 <= i < |bits| => ReadBit(miso, t, bits, i))
  }

  /** The bus after a whole fault-free transfer of `outgoing` by device `dev`. */
  function TransferTrace(miso: Trace -> bool, t: Trace, dev: nat, outgoing: seq<bv8>): Trace {
    BitsTrace(miso, t + [Cs(dev, false)], Bits(outgoing)) + [Cs(dev, true)]
  }

  /** The `j`-th byte received in that transfer. */
  function ReceivedByte(miso: Trace -> bool, t: Trace, dev: nat, outgoing: seq<bv8>, j: nat): bv8
    requires j < |outgoing|
  {
    Pack(ReadBits(miso, t + [Cs(dev, false)], Bits(outgoing))[8 * j..8 * j + 8], 8)
  }

  /** The bus, shared under a lock by all devices. What MISO sampled and whether the next pin operation
      fails are inputs, each an arbitrary function of the history. */
  class Bus {
    const miso: Trace -> bool
    const faulty: Trace -> bool
    var trace: Trace

    constructor (miso: Trace -> bool, faulty: Trace -> bool)
      ensures this.miso == miso && this.faulty == faulty && trace == []
    {
      this.miso, this.faulty, trace := miso, faulty, [];
    }

    method Drive(op: PinOp) returns (ok: bool)
      modifies this
      ensures ok <==> !faulty(old(trace))
      ensures trace == if ok then old(trace) + [op] else old(trace)
    {
      ok := !faulty(trace);
      if ok {
        trace := trace + [op];
      }
    }

    method Sample() returns (ok: bool, level: bool)
      modifies this
      ensures ok <==> !faulty(old(trace))
      ensures level == miso(old(trace))
      ensures trace == if ok then old(trace) + [Miso(level)] else old(trace)
    {
      ok, level := !faulty(trace), miso(trace);
      if ok {
        trace := trace + [Miso(level)];
      }
    }
  }

  lemma BitsTraceGrows(miso: Trace -> bool, t: Trace, bits: seq<bool>)
    ensures t <= BitsTrace(miso, t, bits) && |BitsTrace(miso, t, bits)| == |t| + 4 * |bits|
  {
    if bits != [] {
      BitsTraceGrows(miso, t, bits[..|bits| - 1]);
    }
  }

  lemma {:induction false} BitsTraceAppend(miso: Trace -> bool, t: Trace, a: seq<bool>, b: seq<bool>)
    ensures BitsTrace(miso, t, a + b) == BitsTrace(miso, BitsTrace(miso, t, a), b)
    decreases |b|
  {
    if b == [] {
      assert a + b == a;
    } else {
      assert (a + b)[..|a + b| - 1] == a + b[..|b| - 1];
      BitsTraceAppend(miso, t, a, b[..|b| - 1]);
    }
  }

  lemma {:induction false} BitsSplit(bytes: seq<bv8>, j: nat)
    requires j < |bytes|
    ensures Bits(bytes)[..8 * j] == Bits(bytes[..j])
    ensures Bits(bytes)[8 * j..8 * j + 8] == ByteBits(bytes[j])
    decreases |bytes|
  {
    hide Bits, ByteBits;
    var last := |bytes| - 1;
    var before, end := Bits(bytes[..last]), ByteBits(bytes[last]);
    BitsSnoc(bytes);
    if j < last {
      BitsSplit(bytes[..last], j);
      assert bytes[..last][..j] == bytes[..j];
      SlicesOfPrefix(before, end, 8 * j, 8 * j + 8);
    } else {
      assert (before + end)[..8 * j] == before;
      assert (before + end)[8 * j..8 * j + 8] == end;
    }
  }

  lemma BitsSnoc(bytes: seq<bv8>)
    requires bytes != []
    ensures Bits(bytes) == Bits(bytes[..|bytes| - 1]) + ByteBits(bytes[|bytes| - 1])
    ensures |Bits(bytes[..|bytes| - 1])| == 8 * (|bytes| - 1) && |ByteBits(bytes[|bytes| - 1])| == 8
  {
  }

  lemma SlicesOfPrefix(a: seq<bool>, b: seq<bool>, i: nat, j: nat)
    requires i <= j <= |a|
    ensures (a + b)[..i] == a[..i] && (a + b)[i..j] == a[i..j]
  {
  }

  /** The bits read from the `n`-th on are those of a transfer that starts there. */
  lemma ReadSplit(miso: Trace -> bool, t: Trace, bits: seq<bool>, n: nat, m: nat)
    requires n <= m <= |bits|
    ensures ReadBits(miso, t, bits)[n..m] == ReadBits(miso, BitsTrace(miso, t, bits[..n]), bits[n..m])
  {
    hide BitTrace, BitsTrace;
    forall i | 0 <= i < m - n
      ensures ReadBits(miso, t, bits)[n..m][i] == ReadBits(miso, BitsTrace(miso, t, bits[..n]), bits[n..m])[i]
    {
      assert bits[..n + i] == bits[..n] + bits[n..m][..i];
      BitsTraceAppend(miso, t, bits[..n], bits[n..m][..i]);
    }
  }

  /** Bits up to `m` are a part of the transfer that its last operation is still to follow. */
  lemma TransferContains(miso: Trace -> bool, t: Trace, dev: nat, outgoing: seq<bv8>, m: nat)
    requires m <= |Bits(outgoing)|
    ensures BitsTrace(miso, t + [Cs(dev, false)], Bits(outgoing)[..m]) < TransferTrace(miso, t, dev, outgoing)
    ensures t < BitsTrace(miso, t + [Cs(dev, false)], Bits(outgoing)[..m])
  {
    var t1, bits := t + [Cs(dev, false)], Bits(outgoing);
    assert bits == bits[..m] + bits[m..];
    BitsTraceAppend(miso, t1, bits[..m], bits[m..]);
    BitsTraceGrows(miso, BitsTrace(miso, t1, bits[..m]), bits[m..]);
    BitsTraceGrows(miso, t1, bits[..m]);
  }

  /** The body of the inner loop: one bit out, one bit in. */
  method TransferBit(bus: Bus, out: bool) returns (ok: bool, bitIn: bool)
    modifies bus
    ensures ok ==> bus.trace == BitTrace(bus.miso, old(bus.trace), out)
    ensures ok ==> bitIn == bus.miso(old(bus.trace) + [Mosi(out), Clk(true)])
    ensures !ok ==> old(bus.trace) <= bus.trace < BitTrace(bus.miso, old(bus.trace), out) && bus.faulty(bus.trace)
  {
    bitIn := false;
    ghost var t := bus.trace;
    ok := bus.Drive(Mosi(out));
    if !ok {
      return;
    }
    ok := bus.Drive(Clk(true));
    if !ok {
      return;
    }
    assert bus.trace == t + [Mosi(out), Clk(true)];
    ok, bitIn := bus.Sample();
    if !ok {
      return;
    }
    ok := bus.Drive(Clk(false));
  }

  /** The inner loop: one byte, most significant bit first, OR-ed into `incoming[i]` as it arrives. */
  method TransferByte(bus: Bus, byteOut: bv8, incoming: array<bv8>, i: nat) returns (ok: bool)
    requires i < incoming.Length
    modifies bus, incoming
    ensures forall j :: 0 <= j < incoming.Length && j != i ==> incoming[j] == old(incoming[j])
    ensures ok ==> bus.trace == BitsTrace(bus.miso, old(bus.trace), ByteBits(byteOut))
    ensures ok ==> incoming[i] == Or(old(incoming[i]), Pack(ReadBits(bus.miso, old(bus.trace), ByteBits(byteOut)), 8))
    ensures !ok ==> old(bus.trace) <= bus.trace < BitsTrace(bus.miso, old(bus.trace), ByteBits(byteOut))
                    && bus.faulty(bus.trace)
  {
    hide Or, Mask, BitTrace, BitsTrace, Pack, ByteBits, ReadBits;
    PackNone(incoming[i], ReadBits(bus.miso, bus.trace, ByteBits(byteOut)));
    ok := true;
    ghost var t, bits := bus.trace, ByteBits(byteOut);
    assert BitsTrace(bus.miso, t, bits[..0]) == t by { NoBits(bus.miso, t); }
    ghost var sampled := ReadBits(bus.miso, t, bits);
    for bitIdx := 8 downto 0
      invariant ok && bus.trace == BitsTrace(bus.miso, t, bits[..8 - bitIdx])
      invariant incoming[i] == Or(old(incoming[i]), Pack(sampled, 8 - bitIdx))
      invariant forall j :: 0 <= j < incoming.Length && j != i ==> incoming[j] == old(incoming[j])
    {
      ghost var n := 7 - bitIdx;
      BitInside(bus.miso, t, bits, n);
      BitAt(byteOut, bitIdx);
      ReadAt(bus.miso, t, bits, n);
      var bitIn;
      ok, bitIn := TransferBit(bus, Mask(bitIdx) & byteOut != 0);
      if !ok {
        return;
      }
      incoming[i] := Or(incoming[i], if bitIn then Mask(bitIdx) else 0);
      PackNext(old(incoming[i]), sampled, n);
    }
    assert bits[..8] == bits;
  }

  lemma BitAt(b: bv8, k: nat)
    requires k < 8
    ensures ByteBits(b)[7 - k] == (Mask(k) & b != 0)
  {
  }

  lemma ReadAt(miso: Trace -> bool, t: Trace, bits: seq<bool>, n: nat)
    requires n < |bits|
    ensures ReadBits(miso, t, bits)[n] == miso(BitsTrace(miso, t, bits[..n]) + [Mosi(bits[n]), Clk(true)])
  {
  }

  lemma NoBits(miso: Trace -> bool, t: Trace)
    ensures BitsTrace(miso, t, []) == t
  {
  }

  lemma PackNext(was: bv8, bits: seq<bool>, n: nat)
    requires n < 8 && n < |bits|
    ensures Or(Or(was, Pack(bits, n)), if bits[n] then Mask(7 - n) else 0) == Or(was, Pack(bits, n + 1))
  {
    hide Or, Mask;
    OrAssociates(was, Pack(bits, n), if bits[n] then Mask(7 - n) else 0);
  }

  lemma PackNone(was: bv8, bits: seq<bool>)
    ensures Or(was, Pack(bits, 0)) == was
  {
  }

  /** Or-ing sets the bits of both. */
  lemma OrBits(a: bv8, b: bv8, k: nat)
    requires k < 8
    ensures Bit(Or(a, b), k) <==> Bit(a, k) || Bit(b, k)
  {
  }

  lemma OrAssociates(a: bv8, b: bv8, c: bv8)
    ensures Or(Or(a, b), c) == Or(a, Or(b, c))
  {
  }

  lemma BitInside(miso: Trace -> bool, t: Trace, bits: seq<bool>, n: nat)
    requires n < |bits|
    ensures BitsTrace(miso, t, bits[..n + 1]) == BitTrace(miso, BitsTrace(miso, t, bits[..n]), bits[n])
    ensures BitsTrace(miso, t, bits[..n + 1]) <= BitsTrace(miso, t, bits)
    ensures t <= BitsTrace(miso, t, bits[..n])
  {
    assert bits[..n + 1][..n] == bits[..n];
    assert bits == bits[..n + 1] + bits[n + 1..];
    BitsTraceAppend(miso, t, bits[..n + 1], bits[n + 1..]);
    BitsTraceGrows(miso, BitsTrace(miso, t, bits[..n + 1]), bits[n + 1..]);
    BitsTraceGrows(miso, t, bits[..n]);
  }

  /** `Device::transfer`. On success the bus has seen exactly the transfer and each byte of `incoming`
      has been OR-ed with the byte received. On failure the bus has seen a proper initial part of it:
      the early return leaves the pins as they are. */
  method Transfer(bus: Bus, dev: nat, outgoing: seq<bv8>, incoming: array<bv8>) returns (ok: bool)
    requires incoming.Length == |outgoing|
    modifies bus, incoming
    ensures ok ==> bus.trace == TransferTrace(bus.miso, old(bus.trace), dev, outgoing)
    ensures ok ==> forall j :: 0 <= j < |outgoing| ==>
                     incoming[j] == Or(old(incoming[j]), ReceivedByte(bus.miso, old(bus.trace), dev, outgoing, j))
    ensures !ok ==> old(bus.trace) <= bus.trace < TransferTrace(bus.miso, old(bus.trace), dev, outgoing)
                    && bus.faulty(bus.trace)
  {
    hide Or, Mask, BitTrace, BitsTrace, Bits, Pack, ByteBits;
    ghost var t0 := bus.trace;
    ghost var t := t0 + [Cs(dev, false)];
    ghost var bits := Bits(outgoing);
    NoBits(bus.miso, t);
    TransferContains(bus.miso, t0, dev, outgoing, 0);
    assert bits[..0] == [];
    ok := bus.Drive(Cs(dev, false));
    if !ok {
      return;
    }
    for i := 0 to |outgoing|
      invariant ok && bus.trace == BitsTrace(bus.miso, t, bits[..8 * i])
      invariant forall j :: i <= j < |outgoing| ==> incoming[j] == old(incoming[j])
      invariant forall j :: 0 <= j < i ==>
                  incoming[j] == Or(old(incoming[j]), ReceivedByte(bus.miso, t0, dev, outgoing, j))
    {
      BitsSplit(outgoing, i);
      ReadSplit(bus.miso, t, bits, 8 * i, 8 * i + 8);
      assert bits[..8 * (i + 1)] == bits[..8 * i] + ByteBits(outgoing[i]);
      BitsTraceAppend(bus.miso, t, bits[..8 * i], ByteBits(outgoing[i]));
      TransferContains(bus.miso, t0, dev, outgoing, 8 * i);
      TransferContains(bus.miso, t0, dev, outgoing, 8 * (i + 1));
      ok := TransferByte(bus, outgoing[i], incoming, i);
      if !ok {
        return;
      }
    }
    assert bits[..8 * |outgoing|] == bits;
    TransferContains(bus.miso, t0, dev, outgoing, 8 * |outgoing|);
    ok := bus.Drive(Cs(dev, true));
  }
}
