/** The command framer (src/incoming.rs): a byte scanner that cuts a stream into JSON objects, and a
    specification of it that mentions no scanner state. */
module Framing {
  import opened Common

  type Byte = x: int | 0 <= x < 256

  const OPEN: Byte := 123       // {
  const CLOSE: Byte := 125      // }
  const QUOTE: Byte := 34       // "
  const BACKSLASH: Byte := 92   // \

  /** 32-bit two's-complement wrap-around: the depth counter is an `i32`, and the release build does
      not trap on overflow. */
  function Wrap32(x: int): (r: int)
    ensures -0x8000_0000 <= r < 0x8000_0000
    ensures (x - r) % 0x1_0000_0000 == 0
  {
    (x + 0x8000_0000) % 0x1_0000_0000 - 0x8000_0000
  }

  /** What `bytes.next()` yields: a byte, or an I/O error (`closed` for a connection reset). The end
      of the sequence is the end of the stream. */
  datatype Item = Data(b: Byte) | Fault(closed: bool)

  class Stream {
    var items: seq<Item>

    constructor (items: seq<Item>)
      ensures this.items == items
    {
      this.items := items;
    }

    method Next() returns (r: Option<Item>)
      modifies this
      ensures old(items) == [] ==> r == None && items == []
      ensures old(items) != [] ==> r == Some(old(items)[0]) && items == old(items)[1..]
    {
      if items == [] {
        return None;
      }
      r := Some(items[0]);
      items := items[1..];
    }
  }

  // ---------------------------------------------------------------------------------------------
  // The scanner
  // ---------------------------------------------------------------------------------------------

  datatype Scan = Scan(depth: int, inString: bool, escaped: bool)

  const START := Scan(0, false, false)

  /** A closing brace outside a string when nothing is open. */
  predicate Underflows(s: Scan, b: Byte) {
    b == CLOSE && !s.inString && s.depth == 0
  }

  /** A closing brace outside a string that closes the outermost object. */
  predicate Completes(s: Scan, b: Byte) {
    b == CLOSE && !s.inString && s.depth != 0 && Wrap32(s.depth - 1) == 0
  }

  function Feed(s: Scan, b: Byte): Scan {
    Scan(if s.inString then s.depth
         else if b == OPEN then Wrap32(s.depth + 1)
         else if b == CLOSE then Wrap32(s.depth - 1)
         else s.depth,
         if b == QUOTE && !s.escaped then !s.inString else s.inString,
         b == BACKSLASH && !s.escaped)
  }

  /** The three scanner variables after the bytes `p`. */
  function ScanOf(p: seq<Byte>): Scan {
    if p == [] then START else Feed(ScanOf(p[..|p| - 1]), p[|p| - 1])
  }

  /** How one parse ends: a complete frame, a stray closing brace, the end of the stream, or an I/O
      error. In the last two the bytes read so far are dropped with the buffer. */
  datatype Outcome = Frame(bytes: seq<Byte>) | StrayBrace(bytes: seq<Byte>) | EndOfStream | IoFault(closed: bool)

  /** One parse from scanner state `s` with `buffer` already read, and what it leaves unread. */
  function Parse(s: Scan, buffer: seq<Byte>, src: seq<Item>): (r: (Outcome, seq<Item>))
    ensures |r.1| <= |src| && r.1 == src[|src| - |r.1|..]
    ensures !r.0.EndOfStream? ==> |r.1| < |src|
    decreases |src|
  {
    if src == [] then (EndOfStream, [])
    else match src[0]
      case Fault(closed) => (IoFault(closed), src[1..])
      case Data(b) =>
        if Underflows(s, b) then (StrayBrace(buffer + [b]), src[1..])
        else if Completes(s, b) then (Frame(buffer + [b]), src[1..])
        else Parse(Feed(s, b), buffer + [b], src[1..])
  }

  /** The loop of `Command::parse`, up to and including the byte that ends it. */
  method ParseFrame(src: Stream) returns (r: Outcome)
    modifies src
    ensures (r, src.items) == Parse(START, [], old(src.items))
  {
    var buffer: seq<Byte>, depth: int, inString, escaped := [], 0, false, false;
    while true
      invariant Parse(START, [], old(src.items)) == Parse(Scan(depth, inString, escaped), buffer, src.items)
      invariant Scan(depth, inString, escaped) == ScanOf(buffer)
      decreases |src.items|
    {
      var next := src.Next();
      if next.None? {
        return EndOfStream;
      }
      if next.value.Fault? {
        return IoFault(next.value.closed);
      }
      var c := next.value.b;
      assert (buffer + [c])[..|buffer + [c]| - 1] == buffer;
      buffer := buffer + [c];
      if c == OPEN {
        if !inString {
          depth := Wrap32(depth + 1);
        }
      } else if c == CLOSE {
        if !inString {
          if depth == 0 {
            return StrayBrace(buffer);
          }
          depth := Wrap32(depth - 1);
          if depth == 0 {
            return Frame(buffer);
          }
        }
      } else if c == QUOTE {
        inString := if escaped then inString else !inString;
      }
      escaped := c == BACKSLASH && !escaped;
    }
  }

  // ---------------------------------------------------------------------------------------------
  // A specification without scanner state
  // ---------------------------------------------------------------------------------------------

  /** The length of the run of backslashes at the end. */
  function BackslashRun(p: seq<Byte>): nat {
    if p == [] || p[|p| - 1] != BACKSLASH then 0 else 1 + BackslashRun(p[..|p| - 1])
  }

  predicate Odd(n: nat) {
    n % 2 == 1
  }

  /** The number of quotes an even number of backslashes stands before. */
  function UnescapedQuotes(p: seq<Byte>): nat {
    if p == [] then 0
    else
      var q := p[..|p| - 1];
      UnescapedQuotes(q) + if p[|p| - 1] == QUOTE && !Odd(BackslashRun(q)) then 1 else 0
  }

  /** Is the byte after `p` outside every string? */
  predicate Outside(p: seq<Byte>) {
    !Odd(UnescapedQuotes(p))
  }

  /** Opening minus closing braces, counting only those outside strings. */
  function Balance(p: seq<Byte>): int {
    if p == [] then 0
    else
      var q := p[..|p| - 1];
      Balance(q) + if !Outside(q) then 0
                   else if p[|p| - 1] == OPEN then 1
                   else if p[|p| - 1] == CLOSE then -1
                   else 0
  }

  /** `p` ends with a closing brace outside strings at which the open braces number one or none, to 32
      bits: the parse has to stop here at the latest. */
  predicate Stops(p: seq<Byte>) {
    && p != []
    && p[|p| - 1] == CLOSE
    && Outside(p[..|p| - 1])
    && Wrap32(Balance(p[..|p| - 1])) in {0, 1}
  }

  /** No prefix of the first `n` bytes, these included, is one the parse has to stop at. */
  predicate Unstopped(p: seq<Byte>, n: nat)
    requires n <= |p|
  {
    forall k :: 0 <= k <= n ==> !Stops(p[..k])
  }

  /** The parse stops at the end of `f` and not before. */
  predicate FirstStop(f: seq<Byte>) {
    Stops(f) && Unstopped(f, |f| - 1)
  }

  /** Whether a stop closes an object, or meets a closing brace with nothing open. */
  predicate Closes(f: seq<Byte>)
    requires f != []
  {
    Wrap32(Balance(f[..|f| - 1])) == 1
  }

  function Specified(p: seq<Byte>): Scan {
    Scan(Wrap32(Balance(p)), !Outside(p), Odd(BackslashRun(p)))
  }

  /** The number of times `x` wraps. */
  function Turns(x: int): int {
    (x + 0x8000_0000) / 0x1_0000_0000
  }

  lemma WrapTurns(x: int)
    ensures x == Wrap32(x) + Turns(x) * 0x1_0000_0000
  {
  }

  /** Only one number of turns brings `x` into range. */
  lemma WrapUnique(x: int, r: int, k: int)
    requires x == r + k * 0x1_0000_0000 && -0x8000_0000 <= r < 0x8000_0000
    ensures Wrap32(x) == r
  {
    hide Wrap32, Turns;
    WrapTurns(x);
    WrapRange(x);
    assert (Turns(x) - k) * 0x1_0000_0000 == r - Wrap32(x);
    assert Turns(x) == k;
  }

  lemma WrapRange(x: int)
    ensures -0x8000_0000 <= Wrap32(x) < 0x8000_0000
  {
  }

  lemma WrapStep(x: int)
    ensures Wrap32(Wrap32(x) + 1) == Wrap32(x + 1)
    ensures Wrap32(Wrap32(x) - 1) == Wrap32(x - 1)
  {
    hide Wrap32, Turns;
    WrapTurns(x);
    WrapOff(x, 1);
    WrapOff(x, -1);
  }

  lemma WrapOff(x: int, d: int)
    ensures Wrap32(Wrap32(x) + d) == Wrap32(x + d)
  {
    hide Wrap32, Turns;
    var y := Wrap32(x) + d;
    WrapTurns(x);
    WrapTurns(y);
    WrapRange(y);
    WrapUnique(x + d, Wrap32(y), Turns(y) + Turns(x));
  }

  lemma ScannerStep(p: seq<Byte>, b: Byte)
    ensures Feed(Specified(p), b) == Specified(p + [b])
  {
    assert (p + [b])[..|p + [b]| - 1] == p;
    WrapStep(Balance(p));
  }

  /** After any prefix the three scanner variables are what the specification says. */
  lemma {:induction false} ScannerMeetsSpec(p: seq<Byte>)
    ensures ScanOf(p) == Specified(p)
    decreases |p|
  {
    if p != [] {
      ScannerMeetsSpec(p[..|p| - 1]);
      ScannerStep(p[..|p| - 1], p[|p| - 1]);
      assert p == p[..|p| - 1] + [p[|p| - 1]];
    }
  }

  function AsItems(p: seq<Byte>): (r: seq<Item>)
    ensures |r| == |p| && forall i :: 0 <= i < |p| ==> r[i] == Data(p[i])
  {
    seq(|p|, i requires 0 <= i < |p| => Data(p[i]))
  }

  /** The outcome of a parse of `whole`, said without the scanner. */
  predicate Cuts(whole: seq<Byte>, o: Outcome, left: seq<Item>) {
    match o
    case Frame(f) => f <= whole && FirstStop(f) && Closes(f) && left == AsItems(whole[|f|..])
    case StrayBrace(f) => f <= whole && FirstStop(f) && !Closes(f) && left == AsItems(whole[|f|..])
    case EndOfStream => Unstopped(whole, |whole|) && left == []
    case IoFault(_) => false
  }

  /** From the point where `n` bytes have been read without a stop. */
  lemma {:induction false} ParseFrom(whole: seq<Byte>, n: nat)
    requires n <= |whole| && Unstopped(whole, n)
    ensures var (o, left) := Parse(Specified(whole[..n]), whole[..n], AsItems(whole[n..]));
      Cuts(whole, o, left)
    decreases |whole| - n
  {
    var p := whole[..n];
    if n == |whole| {
      assert AsItems(whole[n..]) == [];
    } else {
      var b := whole[n];
      var p' := whole[..n + 1];
      assert p' == p + [b] && p'[..|p'| - 1] == p;
      assert AsItems(whole[n..])[0] == Data(b) && AsItems(whole[n..])[1..] == AsItems(whole[n + 1..]);
      ScannerStep(p, b);
      StopHere(p, b);
      if Stops(p') {
        assert Unstopped(p', n) by {
          forall k | 0 <= k <= n ensures !Stops(p'[..k]) { assert p'[..k] == whole[..k]; }
        }
      } else {
        assert Unstopped(whole, n + 1);
        ParseFrom(whole, n + 1);
      }
    }
  }

  /** The two exits of the scanner are the two kinds of stop. */
  lemma StopHere(p: seq<Byte>, b: Byte)
    ensures Underflows(Specified(p), b) <==> Stops(p + [b]) && !Closes(p + [b])
    ensures Completes(Specified(p), b) <==> Stops(p + [b]) && Closes(p + [b])
  {
    assert (p + [b])[..|p + [b]| - 1] == p;
  }

  /** `Command::parse` on a stream without I/O errors stops at the least position where the text has a
      closing brace outside strings with at most one brace open, and consumes exactly up to there. */
  lemma ParseMeetsSpec(whole: seq<Byte>)
    ensures var (o, left) := Parse(START, [], AsItems(whole)); Cuts(whole, o, left)
  {
    assert whole[..0] == [] && whole[0..] == whole;
    assert Specified([]) == START;
    ParseFrom(whole, 0);
  }

  /** Only one outcome meets the specification, so it determines the parse. */
  lemma CutsUnique(whole: seq<Byte>, o: Outcome, left: seq<Item>, o': Outcome, left': seq<Item>)
    requires Cuts(whole, o, left) && Cuts(whole, o', left')
    ensures o == o' && left == left'
  {
    assert o.Frame? || o.StrayBrace? ==> whole[..|o.bytes|] == o.bytes;
    assert o'.Frame? || o'.StrayBrace? ==> whole[..|o'.bytes|] == o'.bytes;
    if !o.EndOfStream? && !o'.EndOfStream? {
      PrefixFree(o.bytes, o'.bytes, whole);
    }
  }

  lemma BeyondUnstopped(f: seq<Byte>, g: seq<Byte>, n: nat)
    requires n <= |g| && Unstopped(g, n) && Stops(f) && f <= g
    ensures n < |f|
  {
    assert f == g[..|f|];
  }

  /** No frame is a proper prefix of another: two first stops of one text are the same. */
  lemma PrefixFree(f: seq<Byte>, g: seq<Byte>, whole: seq<Byte>)
    requires FirstStop(f) && FirstStop(g) && f <= whole && g <= whole
    ensures f == g
  {
    if |f| <= |g| {
      BeyondUnstopped(f, g, |g| - 1);
    }
    if |g| <= |f| {
      BeyondUnstopped(g, f, |f| - 1);
    }
  }

  // ---------------------------------------------------------------------------------------------
  // The client loop
  // ---------------------------------------------------------------------------------------------

  /** What the client loop does with one parse: dispatch a command, report a malformed message, or
      report an I/O error. */
  datatype Event<Cmd> = Dispatch(cmd: Cmd) | Malformed(bytes: seq<Byte>) | IoWarning

  function EventOf<Cmd>(decode: seq<Byte> -> Option<Cmd>, o: Outcome): Event<Cmd>
    requires !o.EndOfStream?
  {
    match o
    case Frame(f) => (match decode(f) case Some(cmd) => Dispatch(cmd) case None => Malformed(f))
    case StrayBrace(f) => Malformed(f)
    case IoFault(_) => IoWarning
  }

  /** The loop returns at the end of the stream or on a connection reset. */
  predicate Disconnects(o: Outcome) {
    o == EndOfStream || o == IoFault(true)
  }

  function Outcomes(src: seq<Item>): seq<Outcome>
    decreases |src|
  {
    var (o, left) := Parse(START, [], src);
    if Disconnects(o) then [] else [o] + Outcomes(left)
  }

  function Events<Cmd>(decode: seq<Byte> -> Option<Cmd>, os: seq<Outcome>): seq<Event<Cmd>>
    requires forall i :: 0 <= i < |os| ==> !os[i].EndOfStream?
  {
    seq(|os|, i requires 0 <= i < |os| => EventOf(decode, os[i]))
  }

  lemma {:induction false} OutcomesOngoing(src: seq<Item>)
    ensures forall i :: 0 <= i < |Outcomes(src)| ==> !Outcomes(src)[i].EndOfStream?
    decreases |src|
  {
    var (o, left) := Parse(START, [], src);
    if !Disconnects(o) {
      OutcomesOngoing(left);
    }
  }

  /** A decoded frame is dispatched; one that cannot be decoded, and a text cut at a stray brace, is reported
      with its bytes; an I/O error is a warning. */
  lemma EventCases<Cmd>(decode: seq<Byte> -> Option<Cmd>, os: seq<Outcome>)
    requires forall i :: 0 <= i < |os| ==> !os[i].EndOfStream?
    ensures forall i :: 0 <= i < |os| ==>
              var o := os[i];
              && (o.Frame? && decode(o.bytes).Some? ==> EventOf(decode, o) == Dispatch(decode(o.bytes).value))
              && (o.Frame? && decode(o.bytes).None? ==> EventOf(decode, o) == Malformed(o.bytes))
              && (o.StrayBrace? ==> EventOf(decode, o) == Malformed(o.bytes))
              && (o.IoFault? ==> EventOf(decode, o) == IoWarning)
  {
  }

  /** What the loop does with one outcome. */
  method ActOn<Cmd>(o: Outcome, decode: seq<Byte> -> Option<Cmd>) returns (e: Event<Cmd>)
    requires !o.EndOfStream?
    ensures e == EventOf(decode, o)
  {
    match o {
      case Frame(f) =>
        var cmd := decode(f);
        if cmd.Some? {
          return Dispatch(cmd.value);
        }
        return Malformed(f);
      case StrayBrace(f) => return Malformed(f);
      case IoFault(_) => return IoWarning;
    }
  }

  /** The receive loop of `handle_client`: parse, act on the result, report it to the user log, go on. Only
      a closed connection or a failed write to the user log ends it; `logWorks` says which writes work.
      Decoding a frame is the JSON library's business and is the input `decode`. */
  method HandleClient<Cmd>(src: Stream, decode: seq<Byte> -> Option<Cmd>, logWorks: nat -> bool)
    returns (log: seq<Event<Cmd>>)
    modifies src
    ensures forall i :: 0 <= i < |Outcomes(old(src.items))| ==> !Outcomes(old(src.items))[i].EndOfStream?
    ensures log <= Events(decode, Outcomes(old(src.items)))
    ensures forall i :: 0 <= i < |log| ==>
              var o := Outcomes(old(src.items))[i];
              && (o.Frame? && decode(o.bytes).Some? ==> log[i] == Dispatch(decode(o.bytes).value))
              && (o.Frame? && decode(o.bytes).None? ==> log[i] == Malformed(o.bytes))
              && (o.StrayBrace? ==> log[i] == Malformed(o.bytes))
              && (o.IoFault? ==> log[i] == IoWarning)
    ensures forall i :: 0 <= i < |log| - 1 ==> logWorks(i)
    ensures |log| < |Outcomes(old(src.items))| ==> |log| > 0 && !logWorks(|log| - 1)
  {
    hide Parse, Outcomes, EventOf;
    OutcomesOngoing(src.items);
    ghost var all := Outcomes(src.items);
    EventCases(decode, all);
    log := [];
    while true
      invariant |log| <= |all| && Outcomes(src.items) == all[|log|..]
      invariant forall i :: 0 <= i < |log| ==> log[i] == EventOf(decode, all[i])
      invariant forall i :: 0 <= i < |log| ==> logWorks(i)
      decreases |src.items|
    {
      OutcomesStep(src.items);
      var o := ParseFrame(src);
      if Disconnects(o) {
        return;
      }
      assert all[|log|] == o && all[|log| + 1..] == all[|log|..][1..];
      var e := ActOn(o, decode);
      log := log + [e];
      if !logWorks(|log| - 1) {
        return;
      }
    }
  }

  /** The text an outcome hands on. */
  function TextOf(o: Outcome): seq<Byte> {
    match o
    case Frame(f) => f
    case StrayBrace(f) => f
    case _ => []
  }

  /** The texts of all outcomes, one after the other. */
  function Joined(os: seq<Outcome>): seq<Byte> {
    if os == [] then [] else TextOf(os[0]) + Joined(os[1..])
  }

  /** Every outcome carries the text it was cut from, which is a first stop. */
  predicate AllCut(os: seq<Outcome>) {
    forall i :: 0 <= i < |os| ==> (os[i].Frame? || os[i].StrayBrace?) && FirstStop(os[i].bytes)
  }

  lemma JoinedCons(o: Outcome, os: seq<Outcome>)
    requires AllCut(os) && (o.Frame? || o.StrayBrace?) && FirstStop(o.bytes)
    ensures AllCut([o] + os) && Joined([o] + os) == o.bytes + Joined(os)
  {
    assert ([o] + os)[1..] == os;
  }

  /** On a stream of bytes nothing is lost, duplicated or reordered: the texts handed on and the
      unfinished rest are the stream. */
  lemma {:induction false} NothingLost(whole: seq<Byte>) returns (rest: seq<Byte>)
    ensures AllCut(Outcomes(AsItems(whole)))
    ensures Joined(Outcomes(AsItems(whole))) + rest == whole
    ensures Unstopped(rest, |rest|)
    decreases |whole|
  {
    hide Parse, FirstStop, Unstopped, Stops, Joined, Outcomes, Cuts, AllCut, AsItems;
    ParseMeetsSpec(whole);
    var (o, left) := Parse(START, [], AsItems(whole));
    OutcomesStep(AsItems(whole));
    if o.EndOfStream? {
      rest := whole;
      JoinedNone(whole);
      CutAtEnd(whole, left);
    } else {
      CutNonempty(whole, o, left);
      rest := NothingLost(whole[|o.bytes|..]);
      JoinedCons(o, Outcomes(left));
      Reassemble(whole, o.bytes, Joined(Outcomes(left)), rest);
    }
  }

  lemma Reassemble(whole: seq<Byte>, head: seq<Byte>, middle: seq<Byte>, rest: seq<Byte>)
    requires head <= whole && middle + rest == whole[|head|..]
    ensures head + middle + rest == whole
  {
    assert whole == head + whole[|head|..];
    assert head + middle + rest == head + (middle + rest);
  }

  /** A fault after `src` does not change what is cut from `src`, and ends the parse in progress. */
  lemma {:induction false} ParseToFault(s: Scan, buffer: seq<Byte>, src: seq<Item>, closed: bool, after: seq<Item>)
    ensures var (o, left) := Parse(s, buffer, src); var whole := src + ([Fault(closed)] + after);
      Parse(s, buffer, whole) == if o.EndOfStream? then (IoFault(closed), after) else (o, left + ([Fault(closed)] + after))
    decreases |src|
  {
    var whole := src + ([Fault(closed)] + after);
    if src == [] {
      assert whole[0] == Fault(closed) && whole[1..] == after;
    } else {
      assert whole[0] == src[0] && whole[1..] == src[1..] + ([Fault(closed)] + after);
      if src[0].Data? {
        ParseToFault(Feed(s, src[0].b), buffer + [src[0].b], src[1..], closed, after);
      }
    }
  }

  /** An outcome that is an I/O error is one of the stream's. */
  lemma {:induction false} FaultComesFrom(s: Scan, buffer: seq<Byte>, src: seq<Item>)
    ensures var o := Parse(s, buffer, src).0; o.IoFault? ==> Fault(o.closed) in src
    decreases |src|
  {
    if src != [] && src[0].Data? {
      FaultComesFrom(Feed(s, src[0].b), buffer + [src[0].b], src[1..]);
    }
  }

  /** Before an I/O error everything is cut as if the stream had ended there; if the error does not close
      the connection it is reported, and the rest is parsed afresh. */
  lemma {:induction false} FaultSeparates(src: seq<Item>, closed: bool, after: seq<Item>)
    requires Fault(true) !in src
    ensures Outcomes(src + ([Fault(closed)] + after))
         == Outcomes(src) + if closed then [] else [IoFault(false)] + Outcomes(after)
    decreases |src|
  {
    hide Parse, Outcomes;
    var whole := src + ([Fault(closed)] + after);
    var (o, left) := Parse(START, [], src);
    ParseToFault(START, [], src, closed, after);
    FaultComesFrom(START, [], src);
    OutcomesStep(src);
    OutcomesStep(whole);
    if o.EndOfStream? {
      assert Outcomes(src) == [];
    } else {
      assert Fault(true) !in left;
      FaultSeparates(left, closed, after);
      var tail := if closed then [] else [IoFault(false)] + Outcomes(after);
      assert [o] + (Outcomes(left) + tail) == [o] + Outcomes(left) + tail;
    }
  }

  /** What an I/O error costs: exactly the bytes since the last stop. The texts cut from the bytes before it
      and those dropped bytes, which contain no stop, are all of them; the rest is parsed afresh. */
  lemma {:induction false} FaultDropsExactly(whole: seq<Byte>, closed: bool, after: seq<Item>) returns (dropped: seq<Byte>)
    ensures var os := Outcomes(AsItems(whole));
      && AllCut(os) && Joined(os) + dropped == whole && Unstopped(dropped, |dropped|)
      && Outcomes(AsItems(whole) + ([Fault(closed)] + after))
         == os + if closed then [] else [IoFault(false)] + Outcomes(after)
  {
    dropped := NothingLost(whole);
    FaultSeparates(AsItems(whole), closed, after);
  }

  lemma OutcomesStep(src: seq<Item>)
    ensures var (o, left) := Parse(START, [], src); Outcomes(src) == if Disconnects(o) then [] else [o] + Outcomes(left)
  {
  }

  lemma JoinedNone(whole: seq<Byte>)
    ensures AllCut([]) && Joined([]) + whole == whole
  {
    assert [] + whole == whole;
  }

  lemma CutAtEnd(whole: seq<Byte>, left: seq<Item>)
    requires Cuts(whole, EndOfStream, left)
    ensures Unstopped(whole, |whole|)
  {
  }

  lemma CutNonempty(whole: seq<Byte>, o: Outcome, left: seq<Item>)
    requires Cuts(whole, o, left) && !o.EndOfStream?
    ensures (o.Frame? || o.StrayBrace?) && 0 < |o.bytes| <= |whole| && o.bytes == whole[..|o.bytes|]
    ensures FirstStop(o.bytes) && left == AsItems(whole[|o.bytes|..])
  {
  }
}
