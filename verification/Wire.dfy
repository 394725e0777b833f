/** What a sequence of transfers looks like on the wires of the bus. */
module Wire {
  import opened Spi

  /** The levels written to MOSI, in order. */
  function MosiLevels(t: Trace): seq<bool> {
    if t == [] then []
    else MosiLevels(t[..|t| - 1]) + (match t[|t| - 1] case Mosi(v) => [v] case _ => [])
  }

  /** The levels sampled from MISO, in order. */
  function MisoLevels(t: Trace): seq<bool> {
    if t == [] then []
    else MisoLevels(t[..|t| - 1]) + (match t[|t| - 1] case Miso(v) => [v] case _ => [])
  }

  /** The number of rising clock edges. */
  function Rises(t: Trace): nat {
    if t == [] then 0
    else Rises(t[..|t| - 1]) + if t[|t| - 1] == Clk(true) then 1 else 0
  }

  /** Which chip selects are low, and the clock level. Chip selects start high and the clock low. */
  datatype Pins = Pins(low: set<nat>, clk: bool)

  const REST := Pins({}, false)

  function Apply(p: Pins, op: PinOp): Pins {
    match op
    case Cs(d, level) => p.(low := if level then p.low - {d} else p.low + {d})
    case Clk(level) => p.(clk := level)
    case Mosi(_) => p
    case Miso(_) => p
  }

  function PinsAfter(t: Trace): Pins {
    if t == [] then REST else Apply(PinsAfter(t[..|t| - 1]), t[|t| - 1])
  }

  /** What the bus allows next: selecting only when no device is selected, everything else only when
      exactly one is; data changes while the clock is low and is sampled while it is high; the clock
      alternates, and is low when a device is selected or released. */
  predicate Allowed(p: Pins, op: PinOp) {
    match op
    case Cs(d, level) => !p.clk && p.low == (if level then {d} else {})
    case Mosi(_) => |p.low| == 1 && !p.clk
    case Clk(level) => |p.low| == 1 && level != p.clk
    case Miso(_) => |p.low| == 1 && p.clk
  }

  predicate Disciplined(t: Trace) {
    t == [] || (Disciplined(t[..|t| - 1]) && Allowed(PinsAfter(t[..|t| - 1]), t[|t| - 1]))
  }

  /** On a disciplined bus at most one device is ever selected. */
  lemma {:induction false} OneSelected(t: Trace)
    requires Disciplined(t)
    ensures |PinsAfter(t).low| <= 1
    decreases |t|
  {
    if t != [] {
      OneSelected(t[..|t| - 1]);
      var p := PinsAfter(t[..|t| - 1]);
      match t[|t| - 1] {
        case Cs(d, level) =>
          assert Apply(p, Cs(d, level)).low == if level then {} else {d};
        case _ =>
      }
    }
  }

  lemma Snoc(t: Trace, op: PinOp)
    ensures MosiLevels(t + [op]) == MosiLevels(t) + (match op case Mosi(v) => [v] case _ => [])
    ensures MisoLevels(t + [op]) == MisoLevels(t) + (match op case Miso(v) => [v] case _ => [])
    ensures Rises(t + [op]) == Rises(t) + if op == Clk(true) then 1 else 0
    ensures PinsAfter(t + [op]) == Apply(PinsAfter(t), op)
    ensures Disciplined(t + [op]) <==> Disciplined(t) && Allowed(PinsAfter(t), op)
  {
    assert (t + [op])[..|t + [op]| - 1] == t;
  }

  /** One bit on the wires: one clock pulse, one level out, one in, and the pins as before. */
  lemma BitOnWire(miso: Trace -> bool, t: Trace, out: bool)
    ensures var up := t + [Mosi(out), Clk(true)]; var w := BitTrace(miso, t, out);
      && MosiLevels(w) == MosiLevels(t) + [out]
      && MisoLevels(w) == MisoLevels(t) + [miso(up)]
      && Rises(w) == Rises(t) + 1
      && (!PinsAfter(t).clk ==> PinsAfter(w) == PinsAfter(t))
      && (Disciplined(t) && |PinsAfter(t).low| == 1 && !PinsAfter(t).clk ==> Disciplined(w))
  {
    var a := t + [Mosi(out)];
    var b := a + [Clk(true)];
    var c := b + [Miso(miso(b))];
    Snoc(t, Mosi(out));
    Snoc(a, Clk(true));
    Snoc(b, Miso(miso(b)));
    Snoc(c, Clk(false));
    assert b == t + [Mosi(out), Clk(true)];
    assert BitTrace(miso, t, out) == c + [Clk(false)];
    assert MosiLevels(t) + [out] + [] == MosiLevels(t) + [out];
    assert MisoLevels(t) + [] == MisoLevels(t);
  }

  lemma {:induction false} BitsOnWire(miso: Trace -> bool, t: Trace, bits: seq<bool>)
    ensures var w := BitsTrace(miso, t, bits);
      && MosiLevels(w) == MosiLevels(t) + bits
      && MisoLevels(w) == MisoLevels(t) + ReadBits(miso, t, bits)
      && Rises(w) == Rises(t) + |bits|
      && (!PinsAfter(t).clk ==> PinsAfter(w) == PinsAfter(t))
      && (Disciplined(t) && |PinsAfter(t).low| == 1 && !PinsAfter(t).clk ==> Disciplined(w))
    decreases |bits|
  {
    hide BitTrace;
    if bits != [] {
      var n := |bits| - 1;
      BitsOnWire(miso, t, bits[..n]);
      BitOnWire(miso, BitsTrace(miso, t, bits[..n]), bits[n]);
      assert bits == bits[..n] + [bits[n]];
      assert forall i :: 0 <= i < n ==> bits[..n][..i] == bits[..i];
      assert ReadBits(miso, t, bits) == ReadBits(miso, t, bits[..n]) + [ReadBit(miso, t, bits, n)];
    }
  }

  /** A whole transfer of `n` bytes is `8 n` clock pulses with the bytes on MOSI, most significant bit
      first; it needs a bus at rest and leaves it at rest. */
  lemma {:induction false} TransferOnWire(miso: Trace -> bool, t: Trace, dev: nat, outgoing: seq<bv8>)
    ensures var w := TransferTrace(miso, t, dev, outgoing);
      && MosiLevels(w) == MosiLevels(t) + Bits(outgoing)
      && MisoLevels(w) == MisoLevels(t) + ReadBits(miso, t + [Cs(dev, false)], Bits(outgoing))
      && Rises(w) == Rises(t) + 8 * |outgoing|
      && (PinsAfter(t) == REST ==> PinsAfter(w) == REST)
      && (PinsAfter(t) == REST && Disciplined(t) ==> Disciplined(w))
  {
    hide BitTrace, BitsTrace, Bits;
    var s := t + [Cs(dev, false)];
    var b := BitsTrace(miso, s, Bits(outgoing));
    Snoc(t, Cs(dev, false));
    BitsOnWire(miso, s, Bits(outgoing));
    Snoc(b, Cs(dev, true));
    if PinsAfter(t) == REST {
      assert PinsAfter(s).low == {dev} && PinsAfter(b).low == {dev};
      assert PinsAfter(b).low - {dev} == {};
    }
  }

  /** Transfers by any devices, one after the other: the bus lock admits no other order. */
  datatype Request = Request(dev: nat, outgoing: seq<bv8>)

  function SessionTrace(miso: Trace -> bool, requests: seq<Request>): Trace {
    if requests == [] then []
    else
      var last := requests[|requests| - 1];
      TransferTrace(miso, SessionTrace(miso, requests[..|requests| - 1]), last.dev, last.outgoing)
  }

  /** However many devices share the bus and whatever they transfer, without faults at most one chip
      select is low at any time, and clock and MOSI move only while one is. */
  lemma {:induction false} SessionsDisciplined(miso: Trace -> bool, requests: seq<Request>)
    ensures Disciplined(SessionTrace(miso, requests))
    ensures PinsAfter(SessionTrace(miso, requests)) == REST
    decreases |requests|
  {
    if requests != [] {
      var before, last := requests[..|requests| - 1], requests[|requests| - 1];
      SessionsDisciplined(miso, before);
      TransferOnWire(miso, SessionTrace(miso, before), last.dev, last.outgoing);
    }
  }

  // ---------------------------------------------------------------------------------------------
  // After a pin fault
  // ---------------------------------------------------------------------------------------------

  lemma {:induction false} DisciplinedPrefix(t: Trace, w: Trace)
    requires t <= w && Disciplined(w)
    ensures Disciplined(t)
    decreases |w|
  {
    if t == w {
    } else {
      assert t <= w[..|w| - 1];
      DisciplinedPrefix(t, w[..|w| - 1]);
    }
  }

  predicate NoCs(t: Trace, from: nat) {
    forall i :: from <= i < |t| ==> !t[i].Cs?
  }

  lemma {:induction false} BitsHaveNoCs(miso: Trace -> bool, t: Trace, bits: seq<bool>)
    ensures NoCs(BitsTrace(miso, t, bits), |t|)
    decreases |bits|
  {
    if bits != [] {
      BitsHaveNoCs(miso, t, bits[..|bits| - 1]);
      BitsTraceGrows(miso, t, bits[..|bits| - 1]);
    }
  }

  lemma {:induction false} SelectionKept(s: Trace, part: Trace)
    requires s <= part && NoCs(part, |s|)
    ensures PinsAfter(part).low == PinsAfter(s).low
    decreases |part|
  {
    if s != part {
      assert s <= part[..|part| - 1];
      SelectionKept(s, part[..|part| - 1]);
    }
  }

  /** A transfer that fails leaves its device selected unless its very first write failed, and the
      next transfer, by whichever device, keeps the bus disciplined in exactly that case. */
  lemma {:induction false} AfterFault(miso: Trace -> bool, t: Trace, dev: nat, outgoing: seq<bv8>, part: Trace,
                   next: nat, more: seq<bv8>)
    requires Disciplined(t) && PinsAfter(t) == REST
    requires t <= part < TransferTrace(miso, t, dev, outgoing)
    ensures PinsAfter(part).low == if part == t then {} else {dev}
    ensures Disciplined(part)
    ensures Disciplined(TransferTrace(miso, part, next, more)) <==> part == t
  {
    hide BitTrace, BitsTrace, Bits, ReadBits, MosiLevels, MisoLevels, Rises;
    TransferOnWire(miso, t, dev, outgoing);
    DisciplinedPrefix(part, TransferTrace(miso, t, dev, outgoing));
    var s := t + [Cs(dev, false)];
    var b := BitsTrace(miso, s, Bits(outgoing));
    BitsTraceGrows(miso, s, Bits(outgoing));
    if part == t {
      TransferOnWire(miso, part, next, more);
    } else {
      assert part <= b;
      assert s <= part;
      BitsHaveNoCs(miso, s, Bits(outgoing));
      assert NoCs(part, |s|) by {
        forall i | |s| <= i < |part| ensures !part[i].Cs? { assert part[i] == b[i]; }
      }
      SelectionKept(s, part);
      Snoc(t, Cs(dev, false));
      // selecting again is not allowed
      Snoc(part, Cs(next, false));
      var again := part + [Cs(next, false)];
      BitsTraceGrows(miso, again, Bits(more));
      if Disciplined(TransferTrace(miso, part, next, more)) {
        DisciplinedPrefix(again, TransferTrace(miso, part, next, more));
        assert false;
      }
    }
  }
}
