/** The channel to the dashboard and its log (src/outgoing.rs): clients come and go, deliveries fail,
    and the message log is a text file with one line for every message that a client got whole. */
module Outgoing {
  import opened Common

  /** One line of the log: when the message was sent, and its JSON text. */
  datatype Record = Record(time: nat, text: string)

  /** What one client received: whole messages, then what got through of the one that failed, if any. */
  datatype Session = Session(whole: seq<Record>, broken: string)

  /** Writing to the client works, or fails after part of the text. */
  datatype Delivery = Whole | Broken(sent: nat)

  /** Writing the line to the log works, or fails before the last character of the line is written. */
  datatype Logging = Written | Torn(kept: nat)

  datatype Op =
    | SetChannel(connect: bool)
    | Send(message: Record, delivery: Delivery, logging: Logging)

  /** Whether there is a channel (it belongs to the last session), all sessions, and the log file. */
  datatype Dash = Dash(open: bool, sessions: seq<Session>, log: string)

  // ---------------------------------------------------------------------------------------------
  // The text of the log
  // ---------------------------------------------------------------------------------------------

  /** The three writes to the log: the time and a comma, the message, a newline. */
  function Line(r: Record): string {
    Decimal(r.time) + "," + r.text + "\n"
  }

  function LogText(rs: seq<Record>): string {
    if rs == [] then "" else LogText(rs[..|rs| - 1]) + Line(rs[|rs| - 1])
  }

  // ---------------------------------------------------------------------------------------------
  // The channel
  // ---------------------------------------------------------------------------------------------

  /** What reaches the log of a line. */
  function Kept(r: Record, logging: Logging): string {
    match logging
    case Written => Line(r)
    case Torn(kept) => Line(r)[..if kept < |Line(r)| then kept else |Line(r)| - 1]
  }

  function Prefix(text: string, n: nat): string {
    if n < |text| then text[..n] else text
  }

  function Fresh(): Dash {
    Dash(false, [], "")
  }

  /** An open channel belongs to a session. */
  predicate Sane(d: Dash) {
    d.open ==> d.sessions != []
  }

  function Step(d: Dash, op: Op): (r: Dash)
    requires Sane(d)
    ensures Sane(r)
  {
    match op
    case SetChannel(connect) => Dash(connect, if connect then d.sessions + [Session([], "")] else d.sessions, d.log)
    case Send(m, delivery, logging) =>
      if !d.open then d
      else
        var last := |d.sessions| - 1;
        var s := d.sessions[last];
        match delivery
        case Whole => Dash(true, d.sessions[..last] + [s.(whole := s.whole + [m])], d.log + Kept(m, logging))
        case Broken(sent) => Dash(false, d.sessions[..last] + [s.(broken := Prefix(m.text, sent))], d.log)
  }

  function After(ops: seq<Op>): (r: Dash)
    ensures Sane(r)
  {
    if ops == [] then Fresh() else Step(After(ops[..|ops| - 1]), ops[|ops| - 1])
  }

  /** `DashChannel`. The clients' own ends are kept beside it, to say what they received. */
  class DashChannel {
    var channel: bool
    var sessions: seq<Session>
    var log: string

    function State(): Dash
      reads this
    {
      Dash(channel, sessions, log)
    }

    constructor ()
      ensures State() == Fresh()
    {
      channel, sessions, log := false, [], "";
    }

    predicate HasTarget()
      reads this
    {
      channel
    }

    method SetChannel(connect: bool)
      requires Sane(State())
      modifies this
      ensures State() == Step(old(State()), Op.SetChannel(connect))
      ensures HasTarget() == connect && log == old(log)
      ensures sessions == old(sessions) + if connect then [Session([], "")] else []
    {
      channel := connect;
      if connect {
        sessions := sessions + [Session([], "")];
      }
    }

    /** Sends a message if there is a client. A failed delivery closes the channel and is no error; a
        failed log write is one, although the client has the message. */
    method Send(m: Record, delivery: Delivery, logging: Logging) returns (ok: bool)
      requires Sane(State())
      modifies this
      ensures State() == Step(old(State()), Op.Send(m, delivery, logging))
      ensures ok <==> !(old(HasTarget()) && delivery.Whole? && logging.Torn?)
      ensures HasTarget() <==> old(HasTarget()) && delivery.Whole?
      ensures !old(HasTarget()) ==> sessions == old(sessions) && log == old(log)
      ensures old(HasTarget()) ==> |sessions| == |old(sessions)| > 0
      ensures old(HasTarget()) ==> forall j :: 0 <= j < |sessions| - 1 ==> sessions[j] == old(sessions[j])
      ensures old(HasTarget()) && delivery.Whole? ==>
                sessions[|sessions| - 1].whole == old(sessions[|sessions| - 1].whole) + [m]
      ensures old(HasTarget()) && delivery.Broken? ==>
                sessions[|sessions| - 1].whole == old(sessions[|sessions| - 1].whole) && log == old(log)
    {
      if channel {
        var last := |sessions| - 1;
        match delivery {
          case Whole =>
            sessions := sessions[..last] + [sessions[last].(whole := sessions[last].whole + [m])];
            log := log + Kept(m, logging);
            if logging.Torn? {
              return false;
            }
          case Broken(sent) =>
            sessions := sessions[..last] + [sessions[last].(broken := Prefix(m.text, sent))];
            channel := false;
        }
      }
      return true;
    }
  }

  // ---------------------------------------------------------------------------------------------
  // When there is a client
  // ---------------------------------------------------------------------------------------------

  /** The last connection was made by operation `k`, and every delivery since then has worked. */
  predicate ConnectedSince(ops: seq<Op>, k: nat) {
    && k < |ops| && ops[k] == SetChannel(true)
    && forall j :: k < j < |ops| ==> ops[j].Send? && ops[j].delivery.Whole?
  }

  /** The channel has a target if and only if a client was connected and no delivery has failed, and
      the channel was not set again, since. */
  lemma {:induction false} TargetExactly(ops: seq<Op>)
    ensures After(ops).open <==> exists k :: ConnectedSince(ops, k)
    decreases |ops|
  {
    hide Step;
    if ops != [] {
      var init, last := ops[..|ops| - 1], ops[|ops| - 1];
      TargetExactly(init);
      OpenStep(After(init), last);
      if last == SetChannel(true) {
        assert ConnectedSince(ops, |init|);
      } else {
        forall k: nat ensures ConnectedSince(ops, k) <==> ConnectedSince(init, k) && last.Send? && last.delivery.Whole? {
          if k < |init| {
            assert forall j :: k < j < |ops| ==> ops[j] == if j < |init| then init[j] else last;
          }
        }
      }
    }
  }

  lemma OpenStep(d: Dash, op: Op)
    requires Sane(d)
    ensures Step(d, op).open <==> op == SetChannel(true) || (d.open && op.Send? && op.delivery.Whole?)
  {
  }

  /** Once a delivery has failed, nothing more reaches any client or the log until a client connects. */
  lemma {:induction false} SilentUntilConnected(before: seq<Op>, failing: Op, later: seq<Op>)
    requires failing.Send? && failing.delivery.Broken?
    requires forall k :: 0 <= k < |later| ==> later[k] != SetChannel(true)
    ensures After(before + [failing] + later) == After(before + [failing])
    ensures After(before + [failing]).log == After(before).log
    decreases |later|
  {
    var all := before + [failing] + later;
    assert (before + [failing])[..|before + [failing]| - 1] == before;
    if later == [] {
      assert all == before + [failing];
    } else {
      SilentUntilConnected(before, failing, later[..|later| - 1]);
      assert all[..|all| - 1] == before + [failing] + later[..|later| - 1];
    }
  }

  // ---------------------------------------------------------------------------------------------
  // Who receives what
  // ---------------------------------------------------------------------------------------------

  /** How often a client has connected. */
  function Connections(ops: seq<Op>): nat {
    if ops == [] then 0 else Connections(ops[..|ops| - 1]) + if ops[|ops| - 1] == SetChannel(true) then 1 else 0
  }

  ghost predicate HasClient(ops: seq<Op>) {
    exists k :: ConnectedSince(ops, k)
  }

  /** The operation after `before` is a send while client number `j`, counted from zero, is connected. */
  ghost predicate SendsTo(before: seq<Op>, op: Op, j: nat) {
    op.Send? && HasClient(before) && Connections(before) == j + 1
  }

  /** The messages sent whole while client `j` was connected. */
  ghost function ReceivedBy(ops: seq<Op>, j: nat): seq<Record> {
    if ops == [] then []
    else
      var before, op := ops[..|ops| - 1], ops[|ops| - 1];
      ReceivedBy(before, j) + if SendsTo(before, op, j) && op.delivery.Whole? then [op.message] else []
  }

  /** What got through of the message whose delivery to client `j` failed. */
  ghost function BrokenFor(ops: seq<Op>, j: nat): string {
    if ops == [] then ""
    else
      var before, op := ops[..|ops| - 1], ops[|ops| - 1];
      if SendsTo(before, op, j) && op.delivery.Broken? then
        var text, n := op.message.text, op.delivery.sent;
        text[..if n < |text| then n else |text|]
      else BrokenFor(before, j)
  }

  /** Before client `j` connects nothing is sent to it. */
  lemma {:induction false} NothingBefore(ops: seq<Op>, j: nat)
    requires Connections(ops) <= j
    ensures ReceivedBy(ops, j) == [] && BrokenFor(ops, j) == ""
    decreases |ops|
  {
    hide HasClient;
    if ops != [] {
      NothingBefore(ops[..|ops| - 1], j);
    }
  }

  /** Every connection starts a session, and each client receives exactly the messages sent whole while it
      was connected, in order, and then, if its last delivery failed, what got through of that message. */
  lemma {:induction false} SessionsExactly(ops: seq<Op>)
    ensures var sessions := After(ops).sessions;
      && |sessions| == Connections(ops)
      && forall j :: 0 <= j < |sessions| ==> sessions[j] == Session(ReceivedBy(ops, j), BrokenFor(ops, j))
    decreases |ops|
  {
    hide Step, HasClient, Kept;
    if ops != [] {
      var before, op := ops[..|ops| - 1], ops[|ops| - 1];
      SessionsExactly(before);
      OpenExactly(before);
      StepSessions(After(before), op);
      var d, sessions := After(before), After(ops).sessions;
      forall j | 0 <= j < |sessions| ensures sessions[j] == Session(ReceivedBy(ops, j), BrokenFor(ops, j)) {
        if j == |d.sessions| {
          NothingBefore(before, j);
        }
      }
    }
  }

  lemma OpenExactly(ops: seq<Op>)
    ensures After(ops).open <==> HasClient(ops)
  {
    hide After, ConnectedSince;
    TargetExactly(ops);
  }

  /** What one operation does to the sessions. */
  lemma StepSessions(d: Dash, op: Op)
    requires Sane(d)
    ensures var r := Step(d, op).sessions; var n := |d.sessions|;
      && |r| == n + (if op == SetChannel(true) then 1 else 0)
      && (op == SetChannel(true) ==> r[n] == Session([], ""))
      && (forall j :: 0 <= j < n && !(op.Send? && d.open && j == n - 1) ==> r[j] == d.sessions[j])
      && (op.Send? && d.open ==>
            var was, text := d.sessions[n - 1], op.message.text;
            r[n - 1] == match op.delivery
              case Whole => Session(was.whole + [op.message], was.broken)
              case Broken(sent) => Session(was.whole, text[..if sent < |text| then sent else |text|]))
  {
  }

  // ---------------------------------------------------------------------------------------------
  // The log agrees with what was delivered
  // ---------------------------------------------------------------------------------------------

  /** Everything delivered whole, client after client. */
  function Delivered(sessions: seq<Session>): seq<Record> {
    if sessions == [] then [] else Delivered(sessions[..|sessions| - 1]) + sessions[|sessions| - 1].whole
  }

  /** Operation `k` delivers its message, and its log write fails. */
  predicate Tears(ops: seq<Op>, k: nat)
    requires k < |ops|
  {
    After(ops[..k]).open && ops[k].Send? && ops[k].delivery.Whole? && ops[k].logging.Torn?
  }

  predicate NoTear(ops: seq<Op>) {
    forall k :: 0 <= k < |ops| ==> !Tears(ops, k)
  }

  lemma LogTextSnoc(rs: seq<Record>, r: Record)
    ensures LogText(rs + [r]) == LogText(rs) + Line(r)
  {
    assert (rs + [r])[..|rs + [r]| - 1] == rs;
  }

  lemma DeliveredSnoc(sessions: seq<Session>, s: Session)
    ensures Delivered(sessions + [s]) == Delivered(sessions) + s.whole
  {
    assert (sessions + [s])[..|sessions + [s]| - 1] == sessions;
  }

  /** One operation delivers at most its own message, and logs as much of it as it logs. */
  lemma DeliveredStep(d: Dash, op: Op)
    requires Sane(d)
    ensures var r, hit := Step(d, op), d.open && op.Send? && op.delivery.Whole?;
      && Delivered(r.sessions) == Delivered(d.sessions) + (if hit then [op.message] else [])
      && r.log == d.log + (if hit then Kept(op.message, op.logging) else "")
  {
    hide Kept;
    if op.SetChannel? {
      DeliveredSnoc(d.sessions, Session([], ""));
      assert Delivered(d.sessions) + [] == Delivered(d.sessions) && d.log + "" == d.log;
    } else if d.open {
      var last := |d.sessions| - 1;
      DeliveredSnoc(d.sessions[..last], Step(d, op).sessions[last]);
      assert Delivered(d.sessions) + [] == Delivered(d.sessions) && d.log + "" == d.log;
    } else {
      assert Delivered(d.sessions) + [] == Delivered(d.sessions) && d.log + "" == d.log;
    }
  }

  /** The log is the text of everything delivered whole, client after client and in order, if and only
      if no line of a delivered message was torn. */
  lemma LogAgreesExactly(ops: seq<Op>)
    ensures After(ops).log == LogText(Delivered(After(ops).sessions)) <==> NoTear(ops)
  {
    LogLength(ops);
  }

  lemma {:induction false} LogLength(ops: seq<Op>)
    ensures var text := LogText(Delivered(After(ops).sessions));
      && (NoTear(ops) ==> After(ops).log == text)
      && (!NoTear(ops) ==> |After(ops).log| < |text|)
    decreases |ops|
  {
    hide Step, Line;
    if ops != [] {
      var init, op := ops[..|ops| - 1], ops[|ops| - 1];
      LogLength(init);
      TearsInit(ops);
      DeliveredStep(After(init), op);
      var sent := Delivered(After(init).sessions);
      if After(init).open && op.Send? && op.delivery.Whole? {
        LogTextSnoc(sent, op.message);
        KeptLength(op.message, op.logging);
      } else {
        assert sent + [] == sent && After(init).log + "" == After(init).log;
      }
    }
  }

  lemma KeptLength(r: Record, logging: Logging)
    ensures logging.Written? ==> Kept(r, logging) == Line(r)
    ensures logging.Torn? ==> |Kept(r, logging)| < |Line(r)| && Kept(r, logging) <= Line(r)
    ensures logging.Torn? && logging.kept < |Line(r)| ==> |Kept(r, logging)| == logging.kept
  {
  }

  lemma TearsInit(ops: seq<Op>)
    requires ops != []
    ensures NoTear(ops) <==> NoTear(ops[..|ops| - 1]) && !Tears(ops, |ops| - 1)
  {
    hide After;
    var init := ops[..|ops| - 1];
    assert forall k :: 0 <= k < |init| ==> init[..k] == ops[..k];
    assert forall k :: 0 <= k < |init| ==> (Tears(init, k) <==> Tears(ops, k));
  }

  // ---------------------------------------------------------------------------------------------
  // Reading the log back
  // ---------------------------------------------------------------------------------------------

  /** The position of the first `c`, the length if there is none. */
  function Find(s: string, c: char): (n: nat)
    ensures n <= |s| && (forall i :: 0 <= i < n ==> s[i] != c) && (n < |s| ==> s[n] == c)
  {
    if s == [] || s[0] == c then 0 else 1 + Find(s[1..], c)
  }

  function ReadLine(line: string): Record {
    var comma := Find(line, ',');
    Record(NumberOf(line[..comma]), if comma < |line| then line[comma + 1..] else "")
  }

  /** Cuts the log at its newlines and each line at its first comma. */
  function ReadLog(log: string): seq<Record>
    decreases |log|
  {
    var end := Find(log, '\n');
    if end == |log| then [] else [ReadLine(log[..end])] + ReadLog(log[end + 1..])
  }

  /** The encoder writes a message without line breaks. */
  predicate OneLine(text: string) {
    forall i :: 0 <= i < |text| ==> text[i] != '\n'
  }

  predicate AllOneLine(rs: seq<Record>) {
    forall i :: 0 <= i < |rs| ==> OneLine(rs[i].text)
  }

  lemma {:induction false} LineBack(r: Record, rest: string)
    requires OneLine(r.text)
    ensures var log := Line(r) + rest; var end := Find(log, '\n');
      end < |log| && ReadLine(log[..end]) == r && log[end + 1..] == rest
  {
    hide NumberOf, Decimal;
    var log, stamp := Line(r) + rest, Decimal(r.time);
    var body := stamp + "," + r.text;
    assert log == body + "\n" + rest;
    assert forall i :: 0 <= i < |stamp| ==> log[i] == stamp[i] && body[i] == stamp[i];
    assert forall i :: 0 <= i < |r.text| ==> body[|stamp| + 1 + i] == r.text[i];
    assert forall i :: 0 <= i < |body| ==> body[i] != '\n' && log[i] == body[i];
    assert log[|body|] == '\n' && Find(log, '\n') == |body|;
    assert log[..|body|] == body;
    assert body[|stamp|] == ',' && Find(body, ',') == |stamp|;
    assert body[..|stamp|] == stamp && body[|stamp| + 1..] == r.text;
    DecimalBack(r.time);
  }

  lemma Regroup<T>(a: seq<T>, b: seq<T>, c: seq<T>)
    ensures a + b + c == a + (b + c)
  {
  }

  lemma LineRead(r: Record, rest: string)
    requires OneLine(r.text)
    ensures ReadLog(Line(r) + rest) == [r] + ReadLog(rest)
  {
    hide Line, ReadLine;
    LineBack(r, rest);
  }

  lemma {:induction false} ReadBack(rs: seq<Record>, log: string)
    requires AllOneLine(rs)
    ensures ReadLog(LogText(rs) + log) == rs + ReadLog(log)
    decreases |rs|
  {
    hide Line, ReadLog, OneLine;
    if rs == [] {
      assert LogText(rs) + log == log && rs + ReadLog(log) == ReadLog(log);
    } else {
      var init, r := rs[..|rs| - 1], rs[|rs| - 1];
      ReadBack(init, Line(r) + log);
      LineRead(r, log);
      Regroup(LogText(init), Line(r), log);
      Regroup(init, [r], ReadLog(log));
      assert init + [r] == rs;
    }
  }

  /** The log can be trusted: with working log writes, cutting the file at newlines and first commas
      gives back, with their times, exactly the messages the clients got whole, in order. */
  lemma {:induction false} LogReadBack(ops: seq<Op>)
    requires NoTear(ops) && AllOneLine(Delivered(After(ops).sessions))
    ensures ReadLog(After(ops).log) == Delivered(After(ops).sessions)
  {
    LogAgreesExactly(ops);
    var rs := Delivered(After(ops).sessions);
    ReadBack(rs, "");
    assert LogText(rs) + "" == LogText(rs) && ReadLog("") == [] && rs + [] == rs;
  }
}
