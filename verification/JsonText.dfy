/** Every JSON text the dashboard can send (RFC 8259, sections 2 to 7), as concrete syntax with all its
    white space, and the proof that the framer cuts a stream of such objects exactly at their ends. */
module JsonText {
  import opened Common
  import opened Framing

  // ---------------------------------------------------------------------------------------------
  // Concrete syntax
  // ---------------------------------------------------------------------------------------------

  /** A character of a string body: an unescaped byte (any byte of a UTF-8 sequence), or a backslash
      and the byte it escapes. The four digits of a `\u` escape are plain bytes after it. */
  datatype Char = Plain(b: Byte) | Escape(b: Byte)

  /** A value. `Atom` is a number or one of the three literal names. White space is kept wherever the
      grammar allows it. */
  datatype Value =
    | Atom(text: seq<Byte>)
    | Str(chars: seq<Char>)
    | Arr(lead: seq<Byte>, elements: Elements)
    | Obj(lead: seq<Byte>, members: Members)

  /** The elements of an array: each with the white space after it, and the white space after the
      comma if another follows. */
  datatype Elements = NoElements | Element(value: Value, after: seq<Byte>, before: seq<Byte>, rest: Elements)

  datatype Members =
    | NoMembers
    | Member(key: seq<Char>, afterKey: seq<Byte>, beforeValue: seq<Byte>, value: Value,
             after: seq<Byte>, before: seq<Byte>, rest: Members)

  const COMMA: Byte := 44
  const COLON: Byte := 58
  const LBRACKET: Byte := 91
  const RBRACKET: Byte := 93

  predicate IsSpace(b: Byte) {
    b == 32 || b == 9 || b == 10 || b == 13
  }

  /** Letters, digits, sign and decimal point: every byte of a number or literal name. */
  predicate IsAtomByte(b: Byte) {
    97 <= b <= 122 || b == 69 || 48 <= b <= 57 || b == 43 || b == 45 || b == 46
  }

  predicate Spaces(s: seq<Byte>) {
    forall i :: 0 <= i < |s| ==> IsSpace(s[i])
  }

  predicate WellFormedChars(cs: seq<Char>) {
    forall i :: 0 <= i < |cs| && cs[i].Plain? ==> cs[i].b != QUOTE && cs[i].b != BACKSLASH && cs[i].b >= 32
  }

  predicate WellFormed(v: Value) {
    match v
    case Atom(text) => text != [] && forall i :: 0 <= i < |text| ==> IsAtomByte(text[i])
    case Str(cs) => WellFormedChars(cs)
    case Arr(lead, es) => Spaces(lead) && WellFormedElements(es)
    case Obj(lead, ms) => Spaces(lead) && WellFormedMembers(ms)
  }

  predicate WellFormedElements(es: Elements) {
    match es
    case NoElements => true
    case Element(v, after, before, rest) =>
      WellFormed(v) && Spaces(after) && Spaces(before) && WellFormedElements(rest)
  }

  predicate WellFormedMembers(ms: Members) {
    match ms
    case NoMembers => true
    case Member(key, afterKey, beforeValue, v, after, before, rest) =>
      && WellFormedChars(key) && Spaces(afterKey) && Spaces(beforeValue) && WellFormed(v)
      && Spaces(after) && Spaces(before) && WellFormedMembers(rest)
  }

  // ---------------------------------------------------------------------------------------------
  // Printing
  // ---------------------------------------------------------------------------------------------

  function PrintChars(cs: seq<Char>): seq<Byte> {
    if cs == [] then []
    else (match cs[0] case Plain(b) => [b] case Escape(b) => [BACKSLASH, b]) + PrintChars(cs[1..])
  }

  function PrintString(cs: seq<Char>): seq<Byte> {
    [QUOTE] + PrintChars(cs) + [QUOTE]
  }

  function Print(v: Value): seq<Byte> {
    match v
    case Atom(text) => text
    case Str(cs) => PrintString(cs)
    case Arr(lead, es) => [LBRACKET] + lead + PrintElements(es) + [RBRACKET]
    case Obj(lead, ms) => [OPEN] + lead + PrintMembers(ms) + [CLOSE]
  }

  function PrintElements(es: Elements): seq<Byte> {
    match es
    case NoElements => []
    case Element(v, after, before, rest) =>
      Print(v) + after + (if rest.NoElements? then [] else [COMMA] + before) + PrintElements(rest)
  }

  function PrintMembers(ms: Members): seq<Byte> {
    match ms
    case NoMembers => []
    case Member(key, afterKey, beforeValue, v, after, before, rest) =>
      PrintString(key) + (afterKey + [COLON] + beforeValue) + Print(v)
        + after + (if rest.NoMembers? then [] else [COMMA] + before) + PrintMembers(rest)
  }

  function Max(a: nat, b: nat): nat {
    if a < b then b else a
  }

  /** How deeply objects nest. Brackets do not count: the framer does not look at them. */
  function Nesting(v: Value): nat {
    match v
    case Atom(_) => 0
    case Str(_) => 0
    case Arr(_, es) => NestingElements(es)
    case Obj(_, ms) => 1 + NestingMembers(ms)
  }

  function NestingElements(es: Elements): nat {
    match es
    case NoElements => 0
    case Element(v, _, _, rest) => Max(Nesting(v), NestingElements(rest))
  }

  function NestingMembers(ms: Members): nat {
    match ms
    case NoMembers => 0
    case Member(_, _, _, v, _, _, rest) => Max(Nesting(v), NestingMembers(rest))
  }

  /** The most open objects the 32-bit depth counter can tell from none, wrap-around included. */
  const MAX_OPEN: nat := 0xffff_ffff

  // ---------------------------------------------------------------------------------------------
  // Scanning a stretch of text
  // ---------------------------------------------------------------------------------------------

  /** The scanner state after a text it does not stop in, or `None` if it stops. */
  function Through(s: Scan, text: seq<Byte>): Option<Scan>
    decreases |text|
  {
    if text == [] then Some(s)
    else if Underflows(s, text[0]) || Completes(s, text[0]) then None
    else Through(Feed(s, text[0]), text[1..])
  }

  lemma {:induction false} ThroughAppend(s: Scan, a: seq<Byte>, b: seq<Byte>)
    ensures Through(s, a + b) == match Through(s, a) case None => None case Some(mid) => Through(mid, b)
    decreases |a|
  {
    if a == [] {
      assert a + b == b;
    } else {
      assert (a + b)[0] == a[0] && (a + b)[1..] == a[1..] + b;
      ThroughAppend(Feed(s, a[0]), a[1..], b);
    }
  }

  /** Reading a text the scanner does not stop in only moves the parse along. */
  lemma {:induction false} ParseThrough(s: Scan, buffer: seq<Byte>, text: seq<Byte>, rest: seq<Item>)
    requires Through(s, text).Some?
    ensures Parse(s, buffer, AsItems(text) + rest) == Parse(Through(s, text).value, buffer + text, rest)
    decreases |text|
  {
    if text == [] {
      assert AsItems(text) + rest == rest && buffer + text == buffer;
    } else {
      var src := AsItems(text) + rest;
      assert src[0] == Data(text[0]) && src[1..] == AsItems(text[1..]) + rest;
      assert buffer + text == buffer + [text[0]] + text[1..];
      ParseThrough(Feed(s, text[0]), buffer + [text[0]], text[1..], rest);
    }
  }

  /** A text the scanner stops in ends the parse within it. */
  lemma {:induction false} ParseStops(s: Scan, buffer: seq<Byte>, text: seq<Byte>, rest: seq<Item>)
    requires Through(s, text).None?
    ensures var o := Parse(s, buffer, AsItems(text) + rest).0;
      (o.Frame? || o.StrayBrace?) && |o.bytes| <= |buffer| + |text|
    decreases |text|
  {
    var src := AsItems(text) + rest;
    assert src[0] == Data(text[0]) && src[1..] == AsItems(text[1..]) + rest;
    if !Underflows(s, text[0]) && !Completes(s, text[0]) {
      ParseStops(Feed(s, text[0]), buffer + [text[0]], text[1..], rest);
    }
  }

  /** Outside strings, `d` objects open. */
  function At(d: int): Scan {
    Scan(Wrap32(d), false, false)
  }

  predicate Neutral(b: Byte) {
    b != OPEN && b != CLOSE && b != QUOTE && b != BACKSLASH
  }

  lemma {:induction false} NeutralThrough(d: int, text: seq<Byte>)
    requires forall i :: 0 <= i < |text| ==> Neutral(text[i])
    ensures Through(At(d), text) == Some(At(d))
    decreases |text|
  {
    if text != [] {
      assert Neutral(text[0]);
      assert forall i :: 0 <= i < |text| - 1 ==> text[1..][i] == text[i + 1];
      NeutralThrough(d, text[1..]);
    }
  }

  /** The same inside a string. */
  function InString(d: int, escaped: bool): Scan {
    Scan(Wrap32(d), true, escaped)
  }

  lemma {:induction false} CharsThrough(d: int, cs: seq<Char>)
    requires WellFormedChars(cs)
    ensures Through(InString(d, false), PrintChars(cs)) == Some(InString(d, false))
    decreases |cs|
  {
    if cs != [] {
      assert forall i :: 0 <= i < |cs| - 1 ==> cs[1..][i] == cs[i + 1];
      CharsThrough(d, cs[1..]);
      var s := InString(d, false);
      match cs[0] {
        case Plain(b) =>
          OneThrough(s, b);
          ThroughAppend(s, [b], PrintChars(cs[1..]));
        case Escape(b) =>
          OneThrough(s, BACKSLASH);
          OneThrough(InString(d, true), b);
          ThroughAppend(s, [BACKSLASH], [b]);
          assert [BACKSLASH] + [b] == [BACKSLASH, b];
          ThroughAppend(s, [BACKSLASH, b], PrintChars(cs[1..]));
      }
    }
  }

  lemma OneThrough(s: Scan, b: Byte)
    requires !Underflows(s, b) && !Completes(s, b)
    ensures Through(s, [b]) == Some(Feed(s, b))
  {
    assert [b][1..] == [];
  }

  lemma StringThrough(d: int, cs: seq<Char>)
    requires WellFormedChars(cs)
    ensures Through(At(d), PrintString(cs)) == Some(At(d))
  {
    OneThrough(At(d), QUOTE);
    CharsThrough(d, cs);
    ThroughAppend(At(d), [QUOTE], PrintChars(cs));
    OneThrough(InString(d, false), QUOTE);
    ThroughAppend(At(d), [QUOTE] + PrintChars(cs), [QUOTE]);
  }

  /** A text with objects nested `n` deep, met with `d` open: the scanner stops in it or leaves it with
      the depth unchanged; and while the counter can tell `d` from none, it gets through exactly if the
      counter can tell `d + n`. */
  predicate Passes(d: nat, n: nat, text: seq<Byte>) {
    && (Through(At(d), text).Some? ==> Through(At(d), text) == Some(At(d)))
    && (1 <= d <= MAX_OPEN ==> (Through(At(d), text).Some? <==> d + n <= MAX_OPEN))
  }

  lemma PassesBoth(d: nat, n: nat, m: nat, a: seq<Byte>, b: seq<Byte>)
    requires Passes(d, n, a) && Passes(d, m, b)
    ensures Passes(d, Max(n, m), a + b)
  {
    ThroughAppend(At(d), a, b);
  }

  /** Neutral text and strings pass at any depth. */
  lemma NeutralPasses(d: nat, text: seq<Byte>)
    requires forall i :: 0 <= i < |text| ==> Neutral(text[i])
    ensures Through(At(d), text) == Some(At(d)) && Passes(d, 0, text)
  {
    NeutralThrough(d, text);
  }

  lemma StringPasses(d: nat, cs: seq<Char>)
    requires WellFormedChars(cs)
    ensures Passes(d, 0, PrintString(cs))
  {
    StringThrough(d, cs);
  }

  lemma SpacesPass(d: nat, s: seq<Byte>)
    requires Spaces(s)
    ensures Through(At(d), s) == Some(At(d)) && Passes(d, 0, s)
  {
    forall i | 0 <= i < |s| ensures Neutral(s[i]) { assert IsSpace(s[i]); }
    NeutralPasses(d, s);
  }

  lemma SeparatorPasses(d: nat, separator: Byte, before: seq<Byte>)
    requires Neutral(separator) && Spaces(before)
    ensures Passes(d, 0, [separator] + before)
  {
    NeutralPasses(d, [separator]);
    SpacesPass(d, before);
    PassesBoth(d, 0, 0, [separator], before);
  }

  /** The closing brace of an object takes the depth back, unless the counter reads none or one open. */
  lemma CloseThrough(d: nat)
    ensures var r := Through(At(d + 1), [CLOSE]); r.Some? ==> r == Some(At(d))
    ensures d >= 1 && d + 1 <= MAX_OPEN ==> Through(At(d + 1), [CLOSE]).Some?
    ensures d == MAX_OPEN ==> Through(At(d + 1), [CLOSE]).None?
  {
    hide Wrap32;
    WrapStep(d + 1);
    if d + 1 <= MAX_OPEN + 1 {
      WrapZero(d);
      WrapZero(d + 1);
    }
    assert [CLOSE][1..] == [];
  }

  /** Which depths the counter reads as none. */
  lemma WrapZero(d: nat)
    requires d <= MAX_OPEN + 1
    ensures Wrap32(d) == 0 <==> d == 0 || d == MAX_OPEN + 1
  {
    hide Wrap32;
    if d <= 0x7fff_ffff {
      WrapUnique(d, d, 0);
    } else {
      WrapUnique(d, d - 0x1_0000_0000, 1);
    }
  }

  // ---------------------------------------------------------------------------------------------
  // Mutual induction over values
  // ---------------------------------------------------------------------------------------------

  /** Inside an object every value leaves the scanner where it was, whatever braces, quotes and
      backslashes its strings contain, exactly if it is not nested too deep for the counter. */
  lemma {:induction false} ValuePasses(d: nat, v: Value)
    requires WellFormed(v) && 1 <= d
    ensures Passes(d, Nesting(v), Print(v))
    decreases v, 0
  {
    hide Through, Passes;
    match v
    case Atom(text) =>
      forall i | 0 <= i < |text| ensures Neutral(text[i]) { assert IsAtomByte(text[i]); }
      NeutralPasses(d, text);
    case Str(cs) =>
      StringPasses(d, cs);
    case Arr(lead, es) =>
      ElementsPass(d, es);
      SeparatorPasses(d, LBRACKET, lead);
      PassesBoth(d, 0, NestingElements(es), [LBRACKET] + lead, PrintElements(es));
      NeutralPasses(d, [RBRACKET]);
      PassesBoth(d, NestingElements(es), 0, [LBRACKET] + lead + PrintElements(es), [RBRACKET]);
    case Obj(lead, ms) =>
      ObjectPasses(d, lead, ms);
  }

  lemma {:induction false} ObjectPasses(d: nat, lead: seq<Byte>, ms: Members)
    requires 1 <= d && Spaces(lead) && WellFormedMembers(ms)
    ensures Passes(d, 1 + NestingMembers(ms), Print(Obj(lead, ms)))
    decreases ms, 2
  {
    var body := [OPEN] + lead + PrintMembers(ms);
    BodyThrough(d, lead, ms);
    CloseThrough(d);
    ThroughAppend(At(d), body, [CLOSE]);
    assert Print(Obj(lead, ms)) == body + [CLOSE];
  }

  /** An object up to its closing brace is one deeper. */
  lemma {:induction false} BodyThrough(d: nat, lead: seq<Byte>, ms: Members)
    requires Spaces(lead) && WellFormedMembers(ms)
    ensures var r := Through(At(d), [OPEN] + lead + PrintMembers(ms));
      && (r.Some? ==> r == Some(At(d + 1)))
      && (d + 1 <= MAX_OPEN ==> (r.Some? <==> d + 1 + NestingMembers(ms) <= MAX_OPEN))
    decreases ms, 1
  {
    WrapStep(d);
    OneThrough(At(d), OPEN);
    SpacesPass(d + 1, lead);
    ThroughAppend(At(d), [OPEN], lead);
    MembersPass(d + 1, ms);
    ThroughAppend(At(d), [OPEN] + lead, PrintMembers(ms));
  }

  lemma {:induction false} ElementsPass(d: nat, es: Elements)
    requires WellFormedElements(es) && 1 <= d
    ensures Passes(d, NestingElements(es), PrintElements(es))
    decreases es, 0
  {
    hide Through, Passes;
    SpacesPass(d, []);
    match es
    case NoElements =>
    case Element(v, after, before, rest) =>
      ValuePasses(d, v);
      SpacesPass(d, after);
      PassesBoth(d, Nesting(v), 0, Print(v), after);
      SeparatorPasses(d, COMMA, before);
      var gap := if rest.NoElements? then [] else [COMMA] + before;
      PassesBoth(d, Nesting(v), 0, Print(v) + after, gap);
      ElementsPass(d, rest);
      PassesBoth(d, Nesting(v), NestingElements(rest), Print(v) + after + gap, PrintElements(rest));
  }

  lemma {:induction false} MembersPass(d: nat, ms: Members)
    requires WellFormedMembers(ms) && 1 <= d
    ensures Passes(d, NestingMembers(ms), PrintMembers(ms))
    decreases ms, 0
  {
    hide Through, Passes;
    SpacesPass(d, []);
    match ms
    case NoMembers =>
    case Member(key, afterKey, beforeValue, v, after, before, rest) =>
      StringPasses(d, key);
      var colon := afterKey + [COLON] + beforeValue;
      ColonPasses(d, afterKey, beforeValue);
      PassesBoth(d, 0, 0, PrintString(key), colon);
      ValuePasses(d, v);
      PassesBoth(d, 0, Nesting(v), PrintString(key) + colon, Print(v));
      SpacesPass(d, after);
      PassesBoth(d, Nesting(v), 0, PrintString(key) + colon + Print(v), after);
      SeparatorPasses(d, COMMA, before);
      var gap := if rest.NoMembers? then [] else [COMMA] + before;
      PassesBoth(d, Nesting(v), 0, PrintString(key) + colon + Print(v) + after, gap);
      MembersPass(d, rest);
      PassesBoth(d, Nesting(v), NestingMembers(rest), PrintString(key) + colon + Print(v) + after + gap, PrintMembers(rest));
  }

  lemma ColonPasses(d: nat, afterKey: seq<Byte>, beforeValue: seq<Byte>)
    requires Spaces(afterKey) && Spaces(beforeValue)
    ensures Passes(d, 0, afterKey + [COLON] + beforeValue)
  {
    SpacesPass(d, afterKey);
    SeparatorPasses(d, COLON, beforeValue);
    PassesBoth(d, 0, 0, afterKey, [COLON] + beforeValue);
    assert afterKey + ([COLON] + beforeValue) == afterKey + [COLON] + beforeValue;
  }

  // ---------------------------------------------------------------------------------------------
  // Framing
  // ---------------------------------------------------------------------------------------------

  /** A message as sent: white space, then an object. */
  datatype Sent = Sent(space: seq<Byte>, obj: Value)

  predicate IsMessage(m: Sent) {
    Spaces(m.space) && m.obj.Obj? && WellFormed(m.obj)
  }

  /** A message nested no deeper than the counter can tell. */
  predicate Sendable(m: Sent) {
    IsMessage(m) && Nesting(m.obj) <= MAX_OPEN
  }

  function Text(m: Sent): seq<Byte> {
    m.space + Print(m.obj)
  }

  /** A message without its last brace: the scanner gets through it, with one object open, exactly if
      the message is sendable. */
  lemma UpToBrace(m: Sent) returns (head: seq<Byte>)
    requires IsMessage(m)
    ensures Text(m) == head + [CLOSE]
    ensures Through(START, head) == if Sendable(m) then Some(At(1)) else None
  {
    hide Through, Passes, PrintMembers, WellFormedMembers, Wrap32;
    WrapZero(0);
    var body := [OPEN] + m.obj.lead + PrintMembers(m.obj.members);
    head := m.space + body;
    SpacesPass(0, m.space);
    BodyThrough(0, m.obj.lead, m.obj.members);
    ThroughAppend(START, m.space, body);
    assert Text(m) == head + [CLOSE];
  }

  /** For any JSON object, with any white space before it and anything at all after it: one parse
      consumes exactly the white space and the object, if and only if the object is not nested deeper
      than the counter can tell. */
  lemma FramesOne(m: Sent, rest: seq<Item>)
    requires IsMessage(m)
    ensures var (o, left) := Parse(START, [], AsItems(Text(m)) + rest);
      (o == Frame(Text(m)) <==> Sendable(m)) && (Sendable(m) ==> left == rest)
  {
    hide Sendable, Text, Through, Parse;
    var head := UpToBrace(m);
    if Sendable(m) {
      FramesShallow(m, head, rest);
    } else {
      var tail := [Data(CLOSE)] + rest;
      assert AsItems(Text(m)) + rest == AsItems(head) + tail;
      ParseStops(START, [], head, tail);
    }
  }

  lemma FramesShallow(m: Sent, head: seq<Byte>, rest: seq<Item>)
    requires Text(m) == head + [CLOSE] && Through(START, head) == Some(At(1))
    ensures Parse(START, [], AsItems(Text(m)) + rest) == (Frame(Text(m)), rest)
  {
    hide Text, Through, Parse;
    var tail := [Data(CLOSE)] + rest;
    assert AsItems(Text(m)) + rest == AsItems(head) + tail;
    ParseThrough(START, [], head, tail);
    assert [] + head == head;
    LastBrace(head, rest);
  }

  lemma LastBrace(head: seq<Byte>, rest: seq<Item>)
    ensures Parse(At(1), head, [Data(CLOSE)] + rest) == (Frame(head + [CLOSE]), rest)
  {
    var tail := [Data(CLOSE)] + rest;
    assert tail[0] == Data(CLOSE) && tail[1..] == rest;
    assert Completes(At(1), CLOSE) && !Underflows(At(1), CLOSE);
  }

  function WholeText(ms: seq<Sent>, trailing: seq<Byte>): seq<Byte> {
    if ms == [] then trailing else Text(ms[0]) + WholeText(ms[1..], trailing)
  }

  function Frames(ms: seq<Sent>): seq<Outcome> {
    seq(|ms|, i requires 0 <= i < |ms| => Frame(Text(ms[i])))
  }

  /** A whole stream of objects, with any white space before, between and after them, is cut into
      exactly those objects in order, and the loop then sees the end of the stream, if and only if none
      of them is nested deeper than the counter can tell. */
  lemma {:induction false} FramesAll(ms: seq<Sent>, trailing: seq<Byte>)
    requires (forall i :: 0 <= i < |ms| ==> IsMessage(ms[i])) && Spaces(trailing)
    ensures Outcomes(AsItems(WholeText(ms, trailing))) == Frames(ms) <==> forall i :: 0 <= i < |ms| ==> Sendable(ms[i])
    decreases |ms|
  {
    hide Parse, IsMessage, Sendable, Text, Outcomes, Frames, WholeText;
    if ms == [] {
      SpacesEnd(trailing);
    } else {
      assert forall i :: 0 <= i < |ms| - 1 ==> ms[1..][i] == ms[i + 1];
      FramesAll(ms[1..], trailing);
      FramesCons(ms);
      CutFirst(ms, trailing);
      SameTail(Frame(Text(ms[0])), Outcomes(AsItems(WholeText(ms[1..], trailing))), Frames(ms[1..]));
    }
  }

  lemma SameTail<T>(a: T, x: seq<T>, y: seq<T>)
    ensures [a] + x == [a] + y <==> x == y
  {
    assert ([a] + x)[1..] == x && ([a] + y)[1..] == y;
  }

  /** The first message of a stream is cut off, or something else is. */
  lemma CutFirst(ms: seq<Sent>, trailing: seq<Byte>)
    requires ms != [] && IsMessage(ms[0])
    ensures var os := Outcomes(AsItems(WholeText(ms, trailing)));
      if Sendable(ms[0]) then os == [Frame(Text(ms[0]))] + Outcomes(AsItems(WholeText(ms[1..], trailing)))
      else os == [] || os[0] != Frame(Text(ms[0]))
  {
    hide Parse, IsMessage, Sendable, Text;
    var rest := WholeText(ms[1..], trailing);
    assert AsItems(Text(ms[0]) + rest) == AsItems(Text(ms[0])) + AsItems(rest);
    FramesOne(ms[0], AsItems(rest));
  }

  lemma FramesCons(ms: seq<Sent>)
    requires ms != []
    ensures Frames(ms) == [Frame(Text(ms[0]))] + Frames(ms[1..])
    ensures (forall i :: 0 <= i < |ms| ==> Sendable(ms[i])) <==> Sendable(ms[0]) && forall i :: 0 <= i < |ms| - 1 ==> Sendable(ms[1..][i])
  {
    hide Sendable, Text;
    assert forall i :: 0 <= i < |ms| - 1 ==> ms[1..][i] == ms[i + 1];
    assert forall i :: 0 < i < |ms| ==> ms[i] == ms[1..][i - 1];
  }

  lemma SpacesEnd(trailing: seq<Byte>)
    requires Spaces(trailing)
    ensures Outcomes(AsItems(WholeText([], trailing))) == Frames([])
  {
    SpacesPass(0, trailing);
    assert START == At(0);
    assert AsItems(trailing) + [] == AsItems(trailing);
    ParseThrough(START, [], trailing, []);
  }

  /** If each text decodes to its command, the client loop dispatches exactly the commands sent, in
      order, with no malformed message in between. */
  lemma CommandsRoundTrip<Cmd>(ms: seq<Sent>, trailing: seq<Byte>, cmds: seq<Cmd>, decode: seq<Byte> -> Option<Cmd>)
    requires (forall i :: 0 <= i < |ms| ==> Sendable(ms[i])) && Spaces(trailing)
    requires |cmds| == |ms| && forall i :: 0 <= i < |ms| ==> decode(Text(ms[i])) == Some(cmds[i])
    ensures var os := Outcomes(AsItems(WholeText(ms, trailing)));
      && (forall i :: 0 <= i < |os| ==> !os[i].EndOfStream?)
      && Events(decode, os) == seq(|cmds|, i requires 0 <= i < |cmds| => Dispatch(cmds[i]))
  {
    FramesAll(ms, trailing);
    assert Outcomes(AsItems(WholeText(ms, trailing))) == Frames(ms);
  }
}
