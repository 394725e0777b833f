/** From bytes to commands: a decoder for the flat objects the interface document gives for commands, with
    their members in any order and any white space, and what the client loop dispatches for them. */
module CommandText {
  import opened Common
  import opened Framing
  import opened JsonText
  import opened JsonWords
  import Execution

  type Command = Execution.Command

  // ---------------------------------------------------------------------------------------------
  // Tokens
  // ---------------------------------------------------------------------------------------------

  /** A punctuation byte, the inside of a string as it is written, or a number or literal name. */
  datatype Token = Punct(b: Byte) | Quoted(text: seq<Byte>) | Word(text: seq<Byte>)

  /** The number of bytes before the quote that ends the string. */
  function StringEnd(t: seq<Byte>): (n: nat)
    ensures n <= |t|
    decreases |t|
  {
    if t == [] || t[0] == QUOTE then 0
    else if t[0] == BACKSLASH && |t| > 1 then 2 + StringEnd(t[2..])
    else 1 + StringEnd(t[1..])
  }

  function WordEnd(t: seq<Byte>): (n: nat)
    ensures n <= |t| && (t != [] && IsAtomByte(t[0]) ==> n > 0)
    decreases |t|
  {
    if t == [] || !IsAtomByte(t[0]) then 0 else 1 + WordEnd(t[1..])
  }

  function Lex(t: seq<Byte>): seq<Token>
    decreases |t|
  {
    if t == [] then []
    else if IsSpace(t[0]) then Lex(t[1..])
    else if t[0] == QUOTE then
      var n := StringEnd(t[1..]);
      [Quoted(t[1..][..n])] + if n + 2 <= |t| then Lex(t[n + 2..]) else []
    else if IsAtomByte(t[0]) then
      var n := WordEnd(t);
      [Word(t[..n])] + Lex(t[n..])
    else [Punct(t[0])] + Lex(t[1..])
  }

  lemma {:induction false} LexSpaces(s: seq<Byte>, rest: seq<Byte>)
    requires Spaces(s)
    ensures Lex(s + rest) == Lex(rest)
    decreases |s|
  {
    if s == [] {
      assert s + rest == rest;
    } else {
      assert IsSpace(s[0]) && (s + rest)[0] == s[0] && (s + rest)[1..] == s[1..] + rest;
      assert forall i :: 0 <= i < |s| - 1 ==> s[1..][i] == s[i + 1];
      LexSpaces(s[1..], rest);
    }
  }

  lemma LexPunct(b: Byte, rest: seq<Byte>)
    requires b in {OPEN, CLOSE, COLON, COMMA}
    ensures Lex([b] + rest) == [Punct(b)] + Lex(rest)
  {
    assert ([b] + rest)[1..] == rest;
  }

  lemma {:induction false} StringEnds(cs: seq<Char>, rest: seq<Byte>)
    requires WellFormedChars(cs)
    ensures StringEnd(PrintChars(cs) + [QUOTE] + rest) == |PrintChars(cs)|
    decreases |cs|
  {
    var t := PrintChars(cs) + [QUOTE] + rest;
    if cs == [] {
      assert t[0] == QUOTE;
    } else {
      assert forall i :: 0 <= i < |cs| - 1 ==> cs[1..][i] == cs[i + 1];
      StringEnds(cs[1..], rest);
      var k := if cs[0].Plain? then 1 else 2;
      assert t[k..] == PrintChars(cs[1..]) + [QUOTE] + rest;
      assert t[0] == if cs[0].Plain? then cs[0].b else BACKSLASH;
    }
  }

  lemma LexString(cs: seq<Char>, rest: seq<Byte>)
    requires WellFormedChars(cs)
    ensures Lex(PrintString(cs) + rest) == [Quoted(PrintChars(cs))] + Lex(rest)
  {
    var t, n := PrintString(cs) + rest, |PrintChars(cs)|;
    StringEnds(cs, rest);
    assert t[0] == QUOTE && t[1..] == PrintChars(cs) + [QUOTE] + rest;
    assert t[1..][..n] == PrintChars(cs) && t[n + 2..] == rest;
  }

  lemma {:induction false} WordEnds(w: seq<Byte>, rest: seq<Byte>)
    requires forall i :: 0 <= i < |w| ==> IsAtomByte(w[i])
    requires rest != [] && !IsAtomByte(rest[0])
    ensures WordEnd(w + rest) == |w|
    decreases |w|
  {
    if w == [] {
      assert w + rest == rest;
    } else {
      assert IsAtomByte(w[0]) && (w + rest)[1..] == w[1..] + rest;
      assert forall i :: 0 <= i < |w| - 1 ==> w[1..][i] == w[i + 1];
      WordEnds(w[1..], rest);
    }
  }

  lemma LexWord(w: seq<Byte>, rest: seq<Byte>)
    requires w != [] && (forall i :: 0 <= i < |w| ==> IsAtomByte(w[i]))
    requires rest != [] && !IsAtomByte(rest[0])
    ensures Lex(w + rest) == [Word(w)] + Lex(rest)
  {
    WordEnds(w, rest);
    assert (w + rest)[0] == w[0] && IsAtomByte(w[0]);
    assert (w + rest)[..|w|] == w && (w + rest)[|w|..] == rest;
  }

  // ---------------------------------------------------------------------------------------------
  // Fields
  // ---------------------------------------------------------------------------------------------

  datatype Field = Field(key: seq<Byte>, value: Token)

  /** No member is an array or an object. */
  predicate Flat(ms: Members) {
    ms.Member? ==> (ms.value.Atom? || ms.value.Str?) && Flat(ms.rest)
  }

  function ValueToken(v: Value): Token
    requires v.Atom? || v.Str?
  {
    match v
    case Atom(text) => Word(text)
    case Str(cs) => Quoted(PrintChars(cs))
  }

  function FieldsOf(ms: Members): seq<Field>
    requires Flat(ms)
  {
    if ms.NoMembers? then [] else [Field(PrintChars(ms.key), ValueToken(ms.value))] + FieldsOf(ms.rest)
  }

  /** The fields in the tokens of a flat object after its opening brace. */
  function ReadFields(ts: seq<Token>): Option<seq<Field>>
    decreases |ts|
  {
    if |ts| == 1 && ts[0] == Punct(CLOSE) then Some([])
    else if |ts| < 4 || !ts[0].Quoted? || ts[1] != Punct(COLON) || ts[2].Punct? then None
    else
      var field := Field(ts[0].text, ts[2]);
      if ts[3..] == [Punct(CLOSE)] then Some([field])
      else if ts[3] != Punct(COMMA) then None
      else match ReadFields(ts[4..])
        case Some(rest) => if rest == [] then None else Some([field] + rest)
        case None => None
  }

  /** The tokens of flat members. */
  function TokensOf(ms: Members): seq<Token>
    requires Flat(ms)
  {
    if ms.NoMembers? then []
    else
      [Quoted(PrintChars(ms.key)), Punct(COLON), ValueToken(ms.value)]
        + (if ms.rest.NoMembers? then [] else [Punct(COMMA)]) + TokensOf(ms.rest)
  }

  lemma LexValue(v: Value, rest: seq<Byte>)
    requires (v.Atom? || v.Str?) && WellFormed(v) && rest != [] && !IsAtomByte(rest[0])
    ensures Lex(Print(v) + rest) == [ValueToken(v)] + Lex(rest)
  {
    hide Lex;
    match v
    case Atom(text) => LexWord(text, rest);
    case Str(cs) => LexString(cs, rest);
  }

  /** A key, its colon and what follows, up to the value. */
  lemma LexKey(ms: Members, rest: seq<Byte>)
    requires ms.Member? && WellFormedMembers(ms)
    ensures Lex(PrintString(ms.key) + (ms.afterKey + [COLON] + ms.beforeValue) + rest)
         == [Quoted(PrintChars(ms.key)), Punct(COLON)] + Lex(rest)
  {
    hide Lex;
    var c := ms.beforeValue + rest;
    var b := ms.afterKey + ([COLON] + c);
    assert PrintString(ms.key) + (ms.afterKey + [COLON] + ms.beforeValue) + rest == PrintString(ms.key) + b;
    LexString(ms.key, b);
    LexSpaces(ms.afterKey, [COLON] + c);
    LexPunct(COLON, c);
    LexSpaces(ms.beforeValue, rest);
  }

  /** What stands between a value and the next member. */
  function Gap(ms: Members): seq<Byte>
    requires ms.Member?
  {
    ms.after + (if ms.rest.NoMembers? then [] else [COMMA] + ms.before)
  }

  lemma LexGap(ms: Members, rest: seq<Byte>)
    requires ms.Member? && WellFormedMembers(ms)
    ensures Lex(Gap(ms) + rest) == (if ms.rest.NoMembers? then [] else [Punct(COMMA)]) + Lex(rest)
  {
    hide Lex;
    if ms.rest.NoMembers? {
      assert Gap(ms) + rest == ms.after + rest;
      LexSpaces(ms.after, rest);
    } else {
      assert Gap(ms) + rest == ms.after + ([COMMA] + (ms.before + rest));
      LexSpaces(ms.after, [COMMA] + (ms.before + rest));
      LexPunct(COMMA, ms.before + rest);
      LexSpaces(ms.before, rest);
    }
  }

  /** What follows a value does not go on with it. */
  lemma GapEndsWord(ms: Members, rest: seq<Byte>)
    requires ms.Member? && WellFormedMembers(ms)
    requires ms.rest.NoMembers? ==> rest != [] && !IsAtomByte(rest[0])
    ensures Gap(ms) + rest != [] && !IsAtomByte((Gap(ms) + rest)[0])
  {
    assert ms.after != [] ==> IsSpace(ms.after[0]);
  }

  lemma LexMember(ms: Members, tail: seq<Byte>)
    requires ms.Member? && WellFormedMembers(ms) && Flat(ms) && tail != [] && tail[0] == CLOSE
    ensures Lex(PrintMembers(ms) + tail)
         == [Quoted(PrintChars(ms.key)), Punct(COLON)] +
            ([ValueToken(ms.value)] + ((if ms.rest.NoMembers? then [] else [Punct(COMMA)]) + Lex(PrintMembers(ms.rest) + tail)))
  {
    hide Lex, Gap, PrintChars, Print, PrintString;
    var rest := PrintMembers(ms.rest) + tail;
    var gap := Gap(ms) + rest;
    PrintMember(ms, tail);
    LexKey(ms, Print(ms.value) + gap);
    GapEndsWord(ms, rest);
    LexValue(ms.value, gap);
    LexGap(ms, rest);
  }

  lemma {:induction false} LexMembers(ms: Members, tail: seq<Byte>)
    requires WellFormedMembers(ms) && Flat(ms) && tail != [] && tail[0] == CLOSE
    ensures Lex(PrintMembers(ms) + tail) == TokensOf(ms) + Lex(tail)
    decreases ms
  {
    hide Lex, PrintChars, ValueToken;
    if ms.NoMembers? {
      assert PrintMembers(ms) + tail == tail && TokensOf(ms) + Lex(tail) == Lex(tail);
    } else {
      LexMember(ms, tail);
      LexMembers(ms.rest, tail);
    }
  }

  lemma PrintMember(ms: Members, tail: seq<Byte>)
    requires ms.Member?
    ensures PrintMembers(ms) + tail
         == PrintString(ms.key) + (ms.afterKey + [COLON] + ms.beforeValue)
            + (Print(ms.value) + (Gap(ms) + (PrintMembers(ms.rest) + tail)))
  {
    hide PrintString, Print;
    var head := PrintString(ms.key) + (ms.afterKey + [COLON] + ms.beforeValue);
    var sep := if ms.rest.NoMembers? then [] else [COMMA] + ms.before;
    Glue(head, Print(ms.value), ms.after, sep, PrintMembers(ms.rest), tail);
  }

  lemma Glue(a: seq<Byte>, b: seq<Byte>, c: seq<Byte>, d: seq<Byte>, e: seq<Byte>, f: seq<Byte>)
    ensures a + b + c + d + e + f == a + (b + (c + d + (e + f)))
  {
  }

  lemma {:induction false} FieldsBack(ms: Members)
    requires Flat(ms)
    ensures ReadFields(TokensOf(ms) + [Punct(CLOSE)]) == Some(FieldsOf(ms))
    decreases ms
  {
    var ts := TokensOf(ms) + [Punct(CLOSE)];
    if ms.Member? {
      FieldsBack(ms.rest);
      assert ts[0] == Quoted(PrintChars(ms.key)) && ts[1] == Punct(COLON) && ts[2] == ValueToken(ms.value);
      if ms.rest.NoMembers? {
        assert ts == [ts[0], ts[1], ts[2], Punct(CLOSE)];
        assert ts[3..] == [Punct(CLOSE)];
        assert FieldsOf(ms) == [Field(ts[0].text, ts[2])];
      } else {
        assert ts[3] == Punct(COMMA) && ts[4..] == TokensOf(ms.rest) + [Punct(CLOSE)];
        assert ts[3..][0] == Punct(COMMA);
      }
    }
  }

  // ---------------------------------------------------------------------------------------------
  // Commands
  // ---------------------------------------------------------------------------------------------

  function AsString(t: seq<Byte>): (r: string)
    ensures |r| == |t| && forall i :: 0 <= i < |t| ==> r[i] == t[i] as char
  {
    seq(|t|, i requires 0 <= i < |t| => t[i] as char)
  }

  /** The values given for a key. */
  function Given(fs: seq<Field>, key: seq<Byte>): seq<Token> {
    if fs == [] then [] else (if fs[0].key == key then [fs[0].value] else []) + Given(fs[1..], key)
  }

  function NumberWord(n: nat): Token {
    Word(Ascii(Decimal(n)))
  }

  function BoolWord(b: bool): Token {
    Word(Ascii(if b then "true" else "false"))
  }

  /** What a field stands for, if it is legal. */
  function Meaning(f: Field): Option<Field> {
    match Unescape(f.key)
    case None => None
    case Some(key) =>
      match f.value
      case Quoted(text) => (match Unescape(text) case None => None case Some(u) => Some(Field(key, Quoted(u))))
      case Word(text) => if LegalWord(text) then Some(Field(key, f.value)) else None
      case Punct(_) => None
  }

  function Meanings(fs: seq<Field>): Option<seq<Field>> {
    if fs == [] then Some([])
    else
      match Meaning(fs[0])
      case None => None
      case Some(f) => match Meanings(fs[1..]) case None => None case Some(rest) => Some([f] + rest)
  }

  // ---------------------------------------------------------------------------------------------
  // The three commands
  // ---------------------------------------------------------------------------------------------

  /** An unsigned eight-bit number without leading zeros. */
  function DriverId(t: Token): Option<nat> {
    if t.Word? && NumberOf(AsString(t.text)) < 256 && NumberWord(NumberOf(AsString(t.text))) == t
    then Some(NumberOf(AsString(t.text))) else None
  }

  /** The command an object stands for, if everything in it is legal. */
  function CommandOf(fs: seq<Field>): Option<Command> {
    match Meanings(fs) case None => None case Some(meant) => Understood(meant)
  }

  /** Its type given once, and for an actuation the two arguments once; other members are ignored. */
  function Understood(fs: seq<Field>): Option<Command> {
    var types := Given(fs, Ascii("type"));
    if |types| != 1 then None
    else if types[0] == Quoted(Ascii("Ignition")) then Some(Execution.Ignition)
    else if types[0] == Quoted(Ascii("EmergencyStop")) then Some(Execution.EmergencyStop)
    else if types[0] == Quoted(Ascii("Actuate")) then
      var ids, values := Given(fs, Ascii("driver_id")), Given(fs, Ascii("value"));
      if |ids| != 1 || |values| != 1 || DriverId(ids[0]).None? then None
      else if values[0] == BoolWord(true) then Some(Execution.ActuateDriver(DriverId(ids[0]).value, true))
      else if values[0] == BoolWord(false) then Some(Execution.ActuateDriver(DriverId(ids[0]).value, false))
      else None
    else None
  }

  function TypeName(cmd: Command): seq<Byte> {
    match cmd
    case Ignition => Ascii("Ignition")
    case EmergencyStop => Ascii("EmergencyStop")
    case ActuateDriver(_, _) => Ascii("Actuate")
  }

  /** The object is legal and spells the command out, as the interface document has it. */
  predicate Spells(fs: seq<Field>, cmd: Command) {
    Meanings(fs).Some? && SpellsOut(Meanings(fs).value, cmd)
  }

  predicate SpellsOut(fs: seq<Field>, cmd: Command) {
    && Given(fs, Ascii("type")) == [Quoted(TypeName(cmd))]
    && (cmd.ActuateDriver? ==>
          && cmd.driverId < 256
          && Given(fs, Ascii("driver_id")) == [NumberWord(cmd.driverId)]
          && Given(fs, Ascii("value")) == [BoolWord(cmd.value)])
  }

  lemma NamesDiffer()
    ensures Ascii("Ignition") != Ascii("EmergencyStop") && Ascii("Ignition") != Ascii("Actuate")
    ensures Ascii("EmergencyStop") != Ascii("Actuate") && Ascii("true") != Ascii("false")
  {
    assert |"Ignition"| == 8 && |"EmergencyStop"| == 13 && |"Actuate"| == 7;
    assert |"true"| == 4 && |"false"| == 5;
  }

  lemma DriverIdBack(n: nat)
    requires n < 256
    ensures DriverId(NumberWord(n)) == Some(n)
  {
    DecimalBack(n);
    assert AsString(Ascii(Decimal(n))) == Decimal(n);
  }

  /** An object is decoded to a command exactly if it spells that command. */
  lemma {:induction false} DecodesExactly(fs: seq<Field>, cmd: Command)
    ensures CommandOf(fs) == Some(cmd) <==> Spells(fs, cmd)
  {
    hide Given, Decimal, NumberOf, Meanings;
    NamesDiffer();
    if cmd.ActuateDriver? && cmd.driverId < 256 {
      DriverIdBack(cmd.driverId);
    }
  }

  function Decode(text: seq<Byte>): Option<Command> {
    var ts := Lex(text);
    if ts == [] || ts[0] != Punct(OPEN) then None
    else match ReadFields(ts[1..])
      case None => None
      case Some(fs) => CommandOf(fs)
  }

  /** White space and a flat object. */
  predicate FlatMessage(m: Sent) {
    IsMessage(m) && Flat(m.obj.members)
  }

  function MessageFields(m: Sent): seq<Field>
    requires FlatMessage(m)
  {
    FieldsOf(m.obj.members)
  }

  /** Flat objects are read back whatever their white space. */
  lemma DecodeFlat(m: Sent)
    requires FlatMessage(m)
    ensures Decode(Text(m)) == CommandOf(MessageFields(m))
  {
    hide Lex, CommandOf, ReadFields;
    var ms := m.obj.members;
    var body := PrintMembers(ms) + [CLOSE];
    assert Text(m) == m.space + ([OPEN] + (m.obj.lead + body));
    LexSpaces(m.space, [OPEN] + (m.obj.lead + body));
    LexPunct(OPEN, m.obj.lead + body);
    LexSpaces(m.obj.lead, body);
    LexMembers(ms, [CLOSE]);
    assert [CLOSE] == [CLOSE] + [];
    LexPunct(CLOSE, []);
    LexNothing();
    assert [Punct(CLOSE)] + [] == [Punct(CLOSE)];
    FieldsBack(ms);
    assert ([Punct(OPEN)] + (TokensOf(ms) + [Punct(CLOSE)]))[1..] == TokensOf(ms) + [Punct(CLOSE)];
  }

  lemma LexNothing()
    ensures Lex([]) == []
  {
  }

  lemma {:induction false} FlatNesting(ms: Members)
    requires Flat(ms)
    ensures NestingMembers(ms) == 0
    decreases ms
  {
    if ms.Member? {
      FlatNesting(ms.rest);
    }
  }

  /** What a message should lead to: the command it spells, or a report that it spells none. */
  function Verdict(m: Sent): Framing.Event<Command>
    requires FlatMessage(m)
  {
    match CommandOf(MessageFields(m)) case Some(cmd) => Dispatch(cmd) case None => Malformed(Text(m))
  }

  lemma {:induction false} VerdictExactly(m: Sent)
    requires FlatMessage(m)
    ensures forall cmd :: Verdict(m) == Dispatch(cmd) <==> Spells(MessageFields(m), cmd)
    ensures Verdict(m) == Malformed(Text(m)) <==> forall cmd :: !Spells(MessageFields(m), cmd)
  {
    hide CommandOf, Spells, FieldsOf, Text;
    forall cmd ensures CommandOf(MessageFields(m)) == Some(cmd) <==> Spells(MessageFields(m), cmd) {
      DecodesExactly(MessageFields(m), cmd);
    }
    assert CommandOf(MessageFields(m)).Some? ==> Spells(MessageFields(m), CommandOf(MessageFields(m)).value);
  }

  /** Bytes to commands. Whatever flat objects are sent, with their members in any order and white space
      anywhere, the client loop dispatches for each, in order, the one command it spells, and reports
      exactly those as malformed that spell none. */
  lemma FlatRoundTrip(ms: seq<Sent>, trailing: seq<Byte>)
    requires (forall i :: 0 <= i < |ms| ==> FlatMessage(ms[i])) && Spaces(trailing)
    ensures var os := Outcomes(AsItems(WholeText(ms, trailing)));
      && (forall i :: 0 <= i < |os| ==> !os[i].EndOfStream?)
      && Events(Decode, os) == seq(|ms|, i requires 0 <= i < |ms| => Verdict(ms[i]))
  {
    hide Text, CommandOf, Decode, FieldsOf;
    forall i | 0 <= i < |ms| ensures Sendable(ms[i]) && Decode(Text(ms[i])) == CommandOf(MessageFields(ms[i])) {
      FlatNesting(ms[i].obj.members);
      DecodeFlat(ms[i]);
    }
    FramesAll(ms, trailing);
    assert Outcomes(AsItems(WholeText(ms, trailing))) == Frames(ms);
  }

  // ---------------------------------------------------------------------------------------------
  // A printer
  // ---------------------------------------------------------------------------------------------

  function Chars(s: string): (r: seq<Char>)
    requires forall i :: 0 <= i < |s| ==> s[i] < 128 as char
    ensures |r| == |s| && forall i :: 0 <= i < |s| ==> r[i] == Plain(s[i] as int)
  {
    seq(|s|, i requires 0 <= i < |s| => Plain(s[i] as int))
  }

  function CommandMembers(cmd: Command): Members {
    var name := Str(match cmd case Ignition => Chars("Ignition") case EmergencyStop => Chars("EmergencyStop")
                              case ActuateDriver(_, _) => Chars("Actuate"));
    Member(Chars("type"), [], [], name, [], [],
      match cmd
      case ActuateDriver(d, v) =>
        Member(Chars("driver_id"), [], [], Atom(NumberWord(d).text), [], [],
          Member(Chars("value"), [], [], Atom(BoolWord(v).text), [], [], NoMembers))
      case _ => NoMembers)
  }

  lemma {:induction false} PlainPrint(s: string)
    requires forall i :: 0 <= i < |s| ==> s[i] < 128 as char
    ensures PrintChars(Chars(s)) == Ascii(s)
    decreases |s|
  {
    if s != [] {
      PlainPrint(s[1..]);
      assert Chars(s)[1..] == Chars(s[1..]);
      assert Ascii(s) == [s[0] as int] + Ascii(s[1..]);
    }
  }

  predicate Letters(s: string) {
    forall i :: 0 <= i < |s| ==> 'a' <= s[i] <= 'z' || 'A' <= s[i] <= 'Z' || s[i] == '_'
  }

  lemma LettersWellFormed(s: string)
    requires Letters(s)
    ensures WellFormedChars(Chars(s)) && PrintChars(Chars(s)) == Ascii(s)
  {
    PlainPrint(s);
  }

  /** The fields of the printed object. */
  function CommandFields(cmd: Command): seq<Field> {
    [Field(Ascii("type"), Quoted(TypeName(cmd)))] +
    (match cmd
     case ActuateDriver(d, v) => [Field(Ascii("driver_id"), NumberWord(d)), Field(Ascii("value"), BoolWord(v))]
     case _ => [])
  }

  /** Every command can be spelled, as a message the client may send. */
  lemma {:induction false} CommandSpelled(cmd: Command)
    requires cmd.ActuateDriver? ==> cmd.driverId < 256
    ensures var m := Sent([], Obj([], CommandMembers(cmd)));
      FlatMessage(m) && Spells(MessageFields(m), cmd)
  {
    hide SpellsOut, PrintChars, WellFormedChars, Decimal, Print, Meanings, CommandFields;
    CommandPrinted(cmd);
    CommandLegal(cmd);
    PrintedSpells(cmd);
  }

  lemma PrintedSpells(cmd: Command)
    requires cmd.ActuateDriver? ==> cmd.driverId < 256
    ensures SpellsOut(CommandFields(cmd), cmd)
  {
    hide Given, Decimal;
    var fs := CommandFields(cmd);
    assert |"type"| == 4 && |"driver_id"| == 9 && |"value"| == 5;
    GivenOnce(fs, 0);
    if cmd.ActuateDriver? {
      assert |fs| == 3;
      GivenOnce(fs, 1);
      GivenOnce(fs, 2);
    }
  }

  lemma MemberPrinted(key: string, v: Value, rest: Members)
    requires Letters(key) && (v.Atom? || v.Str?) && WellFormed(v) && Flat(rest) && WellFormedMembers(rest)
    ensures var ms := Member(Chars(key), [], [], v, [], [], rest);
      Flat(ms) && WellFormedMembers(ms) && FieldsOf(ms) == [Field(Ascii(key), ValueToken(v))] + FieldsOf(rest)
  {
    LettersWellFormed(key);
  }

  lemma CommandPrinted(cmd: Command)
    ensures var ms := CommandMembers(cmd); Flat(ms) && WellFormedMembers(ms) && FieldsOf(ms) == CommandFields(cmd)
  {
    hide PrintChars, WellFormedChars, Decimal;
    match cmd
    case Ignition =>
      LettersWellFormed("Ignition");
      MemberPrinted("type", Str(Chars("Ignition")), NoMembers);
    case EmergencyStop =>
      LettersWellFormed("EmergencyStop");
      MemberPrinted("type", Str(Chars("EmergencyStop")), NoMembers);
    case ActuateDriver(d, v) =>
      LettersWellFormed("Actuate");
      WordsWellFormed(d, v);
      ArgumentsPrinted(d, v);
      MemberPrinted("type", Str(Chars("Actuate")), CommandMembers(cmd).rest);
  }

  lemma ArgumentsPrinted(d: nat, v: bool)
    ensures var ms := CommandMembers(Execution.ActuateDriver(d, v)).rest;
      && Flat(ms) && WellFormedMembers(ms)
      && FieldsOf(ms) == [Field(Ascii("driver_id"), NumberWord(d)), Field(Ascii("value"), BoolWord(v))]
  {
    hide PrintChars, WellFormedChars, Decimal;
    WordsWellFormed(d, v);
    MemberPrinted("value", Atom(BoolWord(v).text), NoMembers);
    MemberPrinted("driver_id", Atom(NumberWord(d).text), CommandMembers(Execution.ActuateDriver(d, v)).rest.rest);
  }

  lemma TypeLegal(cmd: Command)
    ensures var f := Field(Ascii("type"), Quoted(TypeName(cmd))); Meaning(f) == Some(f)
  {
    hide Unescape;
    LettersMeanThemselves("type");
    match cmd
    case Ignition => LettersMeanThemselves("Ignition");
    case EmergencyStop => LettersMeanThemselves("EmergencyStop");
    case ActuateDriver(_, _) => LettersMeanThemselves("Actuate");
  }

  lemma DriverIdLegal(n: nat)
    ensures var f := Field(Ascii("driver_id"), NumberWord(n)); Meaning(f) == Some(f)
  {
    hide Unescape, LegalWord, Decimal;
    LettersMeanThemselves("driver_id");
    WordsLegal(n, true);
  }

  lemma ValueLegal(b: bool)
    ensures var f := Field(Ascii("value"), BoolWord(b)); Meaning(f) == Some(f)
  {
    hide Unescape, LegalWord;
    LettersMeanThemselves("value");
    WordsLegal(0, b);
  }

  /** What the printer writes is legal and means itself. */
  lemma CommandLegal(cmd: Command)
    ensures Meanings(CommandFields(cmd)) == Some(CommandFields(cmd))
  {
    hide Meaning, Meanings, Ascii, TypeName, NumberWord, BoolWord;
    var fs := CommandFields(cmd);
    TypeLegal(cmd);
    if cmd.ActuateDriver? {
      DriverIdLegal(cmd.driverId);
      ValueLegal(cmd.value);
    }
    MeanThemselves(fs);
  }

  lemma {:induction false} MeanThemselves(fs: seq<Field>)
    requires forall i :: 0 <= i < |fs| ==> Meaning(fs[i]) == Some(fs[i])
    ensures Meanings(fs) == Some(fs)
    decreases |fs|
  {
    hide Meaning;
    if fs != [] {
      assert forall i :: 0 <= i < |fs| - 1 ==> fs[1..][i] == fs[i + 1];
      MeanThemselves(fs[1..]);
      assert fs == [fs[0]] + fs[1..];
    }
  }

  lemma {:induction false} LettersMeanThemselves(s: string)
    requires Letters(s)
    ensures Unescape(Ascii(s)) == Some(Ascii(s))
    decreases |s|
  {
    hide CodeUnit, SimpleEscape, Utf8, Utf8Length;
    if s != [] {
      LettersMeanThemselves(s[1..]);
      assert Ascii(s)[1..] == Ascii(s[1..]) && Ascii(s)[..1] + Ascii(s)[1..] == Ascii(s);
      OneByte(Ascii(s));
    }
  }

  lemma WordsLegal(n: nat, b: bool)
    ensures LegalWord(Ascii(Decimal(n))) && LegalWord(Ascii(if b then "true" else "false"))
  {
    var t := Ascii(Decimal(n));
    AllDigits(t);
    NoLeadingZero(n);
    assert t[|t|..] == [];
  }

  lemma {:induction false} NoLeadingZero(n: nat)
    ensures Decimal(n)[0] == '0' ==> n == 0 && |Decimal(n)| == 1
    ensures forall i :: 0 <= i < |Decimal(n)| ==> '0' <= Decimal(n)[i] <= '9'
  {
    if n >= 10 {
      NoLeadingZero(n / 10);
      assert Decimal(n)[0] == Decimal(n / 10)[0];
    }
  }

  lemma {:induction false} GivenNone(fs: seq<Field>, key: seq<Byte>)
    requires forall i :: 0 <= i < |fs| ==> fs[i].key != key
    ensures Given(fs, key) == []
  {
    if fs != [] {
      assert forall i :: 0 <= i < |fs| - 1 ==> fs[1..][i] == fs[i + 1];
      GivenNone(fs[1..], key);
    }
  }

  /** A key that occurs once is given its value. */
  lemma {:induction false} GivenOnce(fs: seq<Field>, k: nat)
    requires k < |fs| && forall i :: 0 <= i < |fs| && i != k ==> fs[i].key != fs[k].key
    ensures Given(fs, fs[k].key) == [fs[k].value]
    decreases k
  {
    assert forall i :: 0 <= i < |fs| - 1 ==> fs[1..][i] == fs[i + 1];
    if k == 0 {
      GivenNone(fs[1..], fs[0].key);
    } else {
      GivenOnce(fs[1..], k - 1);
    }
  }

  lemma WordsWellFormed(n: nat, b: bool)
    ensures WellFormed(Atom(NumberWord(n).text)) && WellFormed(Atom(BoolWord(b).text))
  {
  }
}
