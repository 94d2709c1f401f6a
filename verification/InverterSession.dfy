/** The polling session: which commands are asked, what an answer does to the counters, and when the
    run ends. The unit on the other end is a script of replies; whether a payload parses is a parameter. */
module InverterSession {
  import opened Bytes
  import opened Protocol
  import opened Silence

  /** What one exchange meets: the write or the read fails, nothing comes, or a frame does. */
  datatype Reply = WriteFailed | ReadFailed | NoFrame | Answered(frame: seq<byte>)

  /** What it amounts to: a payload, a NAK, data lost on the wire, or a port that is gone. */
  datatype Answer = Carried(payload: seq<byte>) | Refusal | Lost | PortGone

  function AnswerOf(reply: Reply): Answer {
    match reply
    case WriteFailed => PortGone
    case ReadFailed => PortGone
    case NoFrame => Lost
    case Answered(frame) =>
      match ParseResponse(frame)
      case Ok(Payload(payload)) => Carried(payload)
      case Ok(Nak) => Refusal
      case Err(_) => Lost
  }

  datatype Asked = Asked(command: Command, answer: Answer)

  function Commands(log: seq<Asked>): (r: seq<Command>)
    ensures |r| == |log|
  {
    seq(|log|, k requires 0 <= k < |log| => log[k].command)
  }

  /** The commands the unit has answered NAK. */
  function RefusedIn(log: seq<Asked>): set<Command> {
    set k | 0 <= k < |log| && log[k].answer.Refusal? :: log[k].command
  }

  function LostIn(log: seq<Asked>): nat {
    if log == [] then 0 else LostIn(log[..|log| - 1]) + (if log[|log| - 1].answer.Lost? then 1 else 0)
  }

  /** Nothing is asked again once it has been refused. */
  ghost predicate NeverAskedAgain(log: seq<Asked>) {
    forall i, j :: 0 <= i < j < |log| && log[i].answer.Refusal? ==> log[j].command != log[i].command
  }

  lemma {:induction false} LogStep(log: seq<Asked>, e: Asked)
    requires NeverAskedAgain(log) && e.command !in RefusedIn(log)
    ensures NeverAskedAgain(log + [e])
    ensures RefusedIn(log + [e]) == RefusedIn(log) + (if e.answer.Refusal? then {e.command} else {})
    ensures LostIn(log + [e]) == LostIn(log) + (if e.answer.Lost? then 1 else 0)
  {
    var longer := log + [e];
    assert longer[..|log|] == log;
    forall i, j | 0 <= i < j < |longer| && longer[i].answer.Refusal? ensures longer[j].command != longer[i].command {
      if j == |log| { assert longer[i].command in RefusedIn(log); }
    }
    forall c ensures c in RefusedIn(longer) <==> c in RefusedIn(log) || (e.answer.Refusal? && c == e.command) {
      if c in RefusedIn(log) {
        var k :| 0 <= k < |log| && log[k].answer.Refusal? && log[k].command == c;
        assert longer[k] == log[k];
      }
      if e.answer.Refusal? && c == e.command { assert longer[|log|] == e; }
    }
  }

  /** The commands of a list that are still asked. */
  function StillAsked(list: seq<Command>, refused: set<Command>): seq<Command> {
    if list == [] then []
    else (if list[0] in refused then [] else [list[0]]) + StillAsked(list[1..], refused)
  }

  /** `StillAsked` leaves out the refused commands and nothing else, and asks each no more often than listed. */
  lemma {:induction false} StillAskedMeans(list: seq<Command>, refused: set<Command>, c: Command)
    ensures multiset(StillAsked(list, refused))[c] == if c in refused then 0 else multiset(list)[c]
  {
    if list != [] {
      StillAskedMeans(list[1..], refused, c);
      assert list == [list[0]] + list[1..];
    }
  }

  /** The requests of a list of exchanges, in order. */
  function RequestsOf(log: seq<Asked>): seq<seq<byte>> {
    if log == [] then [] else RequestsOf(log[..|log| - 1]) + [Request(log[|log| - 1].command)]
  }

  /** What the `k`th exchange amounts to; past the end of the script the port is gone. */
  function AnswerTo(script: seq<Reply>, k: nat): Answer {
    if k < |script| then AnswerOf(script[k]) else PortGone
  }

  /** The record is what happened: each exchange met the script's next reply. */
  ghost predicate Happened(script: seq<Reply>, log: seq<Asked>) {
    log == []
    || (Happened(script, log[..|log| - 1]) && log[|log| - 1].answer == AnswerTo(script, |log| - 1))
  }

  lemma {:induction false} HappenedAt(script: seq<Reply>, log: seq<Asked>, k: nat)
    requires Happened(script, log) && k < |log|
    ensures log[k].answer == AnswerTo(script, k)
    decreases |log|
  {
    if k < |log| - 1 { HappenedAt(script, log[..|log| - 1], k); }
  }

  function Rest(script: seq<Reply>, n: nat): seq<Reply> {
    if n == 0 then script else if script == [] then [] else Rest(script[1..], n - 1)
  }

  lemma {:induction false} RestStep(script: seq<Reply>, n: nat)
    ensures Rest(script, n) == [] ==> Rest(script, n + 1) == [] && AnswerTo(script, n) == PortGone
    ensures Rest(script, n) != [] ==> Rest(script, n + 1) == Rest(script, n)[1..] && AnswerTo(script, n) == AnswerOf(Rest(script, n)[0])
  {
    if n > 0 && script != [] { RestStep(script[1..], n - 1); }
  }

  lemma {:induction false} ExchangeStep(script: seq<Reply>, log: seq<Asked>, e: Asked)
    requires Happened(script, log) && e.answer == AnswerTo(script, |log|)
    ensures Happened(script, log + [e]) && RequestsOf(log + [e]) == RequestsOf(log) + [Request(e.command)]
  {
    assert (log + [e])[..|log|] == log;
  }

  class Unit {
    ghost const script: seq<Reply>
    var replies: seq<Reply>
    var written: seq<seq<byte>>
    ghost var log: seq<Asked>     // every exchange so far, and what it amounted to

    /** Each exchange wrote its request and met the script's next reply. */
    ghost predicate Valid()
      reads this
    {
      replies == Rest(script, |log|) && Happened(script, log) && written == RequestsOf(log)
    }

    constructor (script: seq<Reply>)
      ensures Valid() && this.script == replies == script && written == [] && log == []
    {
      this.script := script;
      replies, written, log := script, [], [];
    }

    /** What comes back. */
    method Receive() returns (answer: Answer)
      requires replies == Rest(script, |log|)
      modifies this`replies
      ensures answer == AnswerTo(script, |log|) && replies == Rest(script, |log| + 1)
      ensures |replies| <= |old(replies)| && (!answer.PortGone? ==> |replies| < |old(replies)|)
    {
      RestStep(script, |log|);
      if replies == [] { return PortGone; }
      answer := AnswerOf(replies[0]);
      replies := replies[1..];
    }

    /** Write a request and read what comes. */
    method Exchange(command: Command) returns (answer: Answer)
      requires Valid()
      modifies this
      ensures Valid() && log == old(log) + [Asked(command, answer)]
      ensures |replies| <= |old(replies)| && (!answer.PortGone? ==> |replies| < |old(replies)|)
    {
      written := written + [Request(command)];
      answer := Receive();
      ExchangeStep(script, log, Asked(command, answer));
      log := log + [Asked(command, answer)];
    }
  }

  /** A step that asks one command, as the callers below need to see it. */
  twostate predicate AskedOne(port: Unit, command: Command, answer: Answer)
    reads port
  {
    && port.Valid()
    && port.log == old(port.log) + [Asked(command, answer)]
    && (!answer.PortGone? ==> |port.replies| < |old(port.replies)|)
    && |port.replies| <= |old(port.replies)|
  }

  class Session {
    var discardedFrames: nat
    var unsupportedCommands: nat
    var unsupported: set<Command>
    ghost var unparsed: nat          // live payloads that arrived whole and would not parse

    /** The counters say exactly what the record of exchanges says. */
    ghost predicate Matches(log: seq<Asked>)
      reads this
    {
      && unsupported == RefusedIn(log)
      && unsupportedCommands == |unsupported|
      && NeverAskedAgain(log)
      && discardedFrames == LostIn(log) + unparsed
    }

    constructor ()
      ensures Matches([]) && unparsed == 0
    {
      discardedFrames, unsupportedCommands, unsupported := 0, 0, {};
      unparsed := 0;
    }

    method Book(command: Command, a: Answer, ghost log: seq<Asked>)
      requires Matches(log) && command !in unsupported
      modifies this
      ensures Matches(log + [Asked(command, a)]) && unparsed == old(unparsed)
      ensures unsupported == old(unsupported) + (if a.Refusal? then {command} else {})
    {
      LogStep(log, Asked(command, a));
      match a {
        case Refusal =>
          unsupported := unsupported + {command};
          unsupportedCommands := unsupportedCommands + 1;
        case Lost => discardedFrames := discardedFrames + 1;
        case _ =>
      }
    }

    /** A live payload arrived whole and would not parse. */
    method Discard(ghost log: seq<Asked>)
      requires Matches(log)
      modifies this`discardedFrames, this`unparsed
      ensures Matches(log) && unparsed == old(unparsed) + 1
    {
      discardedFrames := discardedFrames + 1;
      unparsed := unparsed + 1;
    }

    /** One command with the bookkeeping applied. `ok` is false only if the port is gone. */
    method ReadCommand(port: Unit, command: Command) returns (ok: bool, payload: Option<seq<byte>>, ghost answer: Answer)
      requires Matches(port.log) && port.Valid()
      modifies this, port
      ensures Matches(port.log) && unparsed == old(unparsed)
      ensures command in old(unsupported) ==> ok && payload.None? && unchanged(port) && unchanged(this)
      ensures command !in old(unsupported) ==>
                && AskedOne(port, command, answer) && ok == !answer.PortGone?
                && payload == (if answer.Carried? then Some(answer.payload) else None)
                && unsupported == old(unsupported) + (if answer.Refusal? then {command} else {})
    {
      if command in unsupported { return true, None, Lost; }
      var a := port.Exchange(command);
      Book(command, a, old(port.log));
      return !a.PortGone?, if a.Carried? then Some(a.payload) else None, a;
    }
  }

  // ---------------------------------------------------------------- a sweep over a list of commands

  ghost predicate Distinct(list: seq<Command>) {
    forall i, j :: 0 <= i < j < |list| ==> list[i] != list[j]
  }

  ghost predicate NoneGone(asked: seq<Asked>) {
    forall k :: 0 <= k < |asked| ==> !asked[k].answer.PortGone?
  }

  /** What a sweep puts on the wire: the commands still asked, in order, all of them unless the port
      failed on the last one written. */
  ghost predicate Swept(list: seq<Command>, refused: set<Command>, asked: seq<Asked>, ok: bool) {
    if ok then Commands(asked) == StillAsked(list, refused) && NoneGone(asked)
    else asked != [] && asked[|asked| - 1].answer.PortGone? && Commands(asked) <= StillAsked(list, refused)
  }

  /** A sweep part way: `i` commands of the list are behind it. */
  ghost predicate Sweeping(list: seq<Command>, i: nat, refused: set<Command>, now: set<Command>, asked: seq<Asked>) {
    && i <= |list|
    && StillAsked(list, refused) == Commands(asked) + StillAsked(list[i..], refused)
    && NoneGone(asked)
    && (forall k :: i <= k < |list| ==> (list[k] in now <==> list[k] in refused))
  }

  lemma {:induction false} SweepSkips(list: seq<Command>, i: nat, refused: set<Command>, now: set<Command>, asked: seq<Asked>)
    requires Sweeping(list, i, refused, now, asked) && i < |list| && list[i] in now
    ensures Sweeping(list, i + 1, refused, now, asked)
  {
    assert list[i..][1..] == list[i + 1..];
    assert [] + StillAsked(list[i + 1..], refused) == StillAsked(list[i + 1..], refused);
  }

  lemma {:induction false} SweepAsks(list: seq<Command>, i: nat, refused: set<Command>, now: set<Command>, later: set<Command>, asked: seq<Asked>, e: Asked)
    requires Sweeping(list, i, refused, now, asked) && Distinct(list) && i < |list| && list[i] !in now
    requires e.command == list[i] && now <= later <= now + {list[i]}
    ensures !e.answer.PortGone? ==> Sweeping(list, i + 1, refused, later, asked + [e])
    ensures e.answer.PortGone? ==> Swept(list, refused, asked + [e], false)
  {
    assert list[i..][1..] == list[i + 1..];
    assert Commands(asked + [e]) == Commands(asked) + [e.command];
    assert Commands(asked) + ([e.command] + StillAsked(list[i + 1..], refused)) == Commands(asked + [e]) + StillAsked(list[i + 1..], refused);
  }

  lemma {:induction false} SweepDone(list: seq<Command>, refused: set<Command>, now: set<Command>, asked: seq<Asked>)
    requires Sweeping(list, |list|, refused, now, asked)
    ensures Swept(list, refused, asked, true)
  {
    assert Commands(asked) + [] == Commands(asked);
  }

  /** The sweep's view of the port: what it added to the record. */
  ghost predicate OnWire(port: Unit, log: seq<Asked>, asked: seq<Asked>)
    reads port
  {
    port.Valid() && port.log == log + asked
  }

  function Plus(log: seq<Asked>, e: Asked): seq<Asked> {
    log + [e]
  }

  /** Asking one command, or skipping it, brought this payload. */
  ghost predicate Brought(before: seq<Asked>, asked: seq<Asked>, command: Command, payload: Option<seq<byte>>) {
    match payload
    case Some(p) => asked == before + [Asked(command, Carried(p))]
    case None => asked == before || exists e: Asked {:trigger Plus(before, e)} :: asked == Plus(before, e) && !e.answer.Carried?
  }

  lemma {:induction false} AskedBrings(before: seq<Asked>, e: Asked)
    ensures Brought(before, before + [e], e.command, if e.answer.Carried? then Some(e.answer.payload) else None)
  {
    if !e.answer.Carried? { assert Plus(before, e) == before + [e]; }
  }

  lemma {:induction false} AskStep(list: seq<Command>, i: nat, refused: set<Command>, now: set<Command>, later: set<Command>,
                                   log: seq<Asked>, before: seq<Asked>, e: Asked)
    requires Sweeping(list, i, refused, now, before) && Distinct(list) && i < |list| && list[i] !in now
    requires e.command == list[i] && now <= later <= now + {list[i]}
    ensures var asked := before + [e];
            && log + before + [e] == log + asked
            && (!e.answer.PortGone? ==> Sweeping(list, i + 1, refused, later, asked))
            && (e.answer.PortGone? ==> Swept(list, refused, asked, false))
            && Brought(before, asked, list[i], if e.answer.Carried? then Some(e.answer.payload) else None)
  {
    SweepAsks(list, i, refused, now, later, before, e);
    AskedBrings(before, e);
  }

  /** A command of a sweep that is still asked. */
  method AskOne(port: Unit, session: Session, list: seq<Command>, i: nat,
                ghost refused: set<Command>, ghost log: seq<Asked>, ghost before: seq<Asked>)
    returns (ok: bool, payload: Option<seq<byte>>, ghost asked: seq<Asked>)
    requires session.Matches(port.log) && Distinct(list) && i < |list| && list[i] !in session.unsupported
    requires Sweeping(list, i, refused, session.unsupported, before) && OnWire(port, log, before)
    modifies session, port
    ensures session.Matches(port.log) && session.unparsed == old(session.unparsed) && OnWire(port, log, asked)
    ensures ok ==> Sweeping(list, i + 1, refused, session.unsupported, asked)
    ensures !ok ==> Swept(list, refused, asked, false)
    ensures Brought(before, asked, list[i], payload)
    ensures |port.replies| <= |old(port.replies)| && (ok ==> |port.replies| < |old(port.replies)|)
  {
    ghost var answer;
    ghost var now := session.unsupported;
    ok, payload, answer := session.ReadCommand(port, list[i]);
    AskStep(list, i, refused, now, session.unsupported, log, before, Asked(list[i], answer));
    asked := before + [Asked(list[i], answer)];
  }

  /** One command of a sweep. */
  method SweepOne(port: Unit, session: Session, list: seq<Command>, i: nat,
                  ghost refused: set<Command>, ghost log: seq<Asked>, ghost before: seq<Asked>)
    returns (ok: bool, payload: Option<seq<byte>>, ghost asked: seq<Asked>)
    requires session.Matches(port.log) && Distinct(list) && i < |list|
    requires Sweeping(list, i, refused, session.unsupported, before) && OnWire(port, log, before)
    modifies session, port
    ensures session.Matches(port.log) && session.unparsed == old(session.unparsed) && OnWire(port, log, asked)
    ensures ok ==> Sweeping(list, i + 1, refused, session.unsupported, asked)
    ensures !ok ==> Swept(list, refused, asked, false)
    ensures Brought(before, asked, list[i], payload)
    ensures |port.replies| <= |old(port.replies)| && (ok && asked != before ==> |port.replies| < |old(port.replies)|)
  {
    if list[i] in session.unsupported {
      SweepSkips(list, i, refused, session.unsupported, before);
      ok, payload, asked := true, None, before;
    } else {
      ok, payload, asked := AskOne(port, session, list, i, refused, log, before);
    }
  }

  /** What a cycle reports: for each live command asked, the payload it carried if that payload parses. */
  ghost predicate Reports(asked: seq<Asked>, cycle: map<Command, seq<byte>>, parses: (Command, seq<byte>) -> bool) {
    forall c, p :: (c in cycle && cycle[c] == p) <==> Asked(c, Carried(p)) in asked && parses(c, p)
  }

  lemma {:induction false} ReportsStep(asked: seq<Asked>, cycle: map<Command, seq<byte>>, parses: (Command, seq<byte>) -> bool, c: Command, p: seq<byte>)
    requires Reports(asked, cycle, parses) && c !in cycle
    ensures Reports(asked + [Asked(c, Carried(p))], if parses(c, p) then cycle[c := p] else cycle, parses)
  {
  }

  lemma {:induction false} ReportsSame(asked: seq<Asked>, e: Asked, cycle: map<Command, seq<byte>>, parses: (Command, seq<byte>) -> bool)
    requires Reports(asked, cycle, parses) && !e.answer.Carried?
    ensures Reports(asked + [e], cycle, parses)
  {
  }

  /** The report after one command: its payload is noted if it parses. */
  function Noted(reported: map<Command, seq<byte>>, command: Command, payload: Option<seq<byte>>,
                 parses: (Command, seq<byte>) -> bool): map<Command, seq<byte>> {
    if payload.Some? && parses(command, payload.value) then reported[command := payload.value] else reported
  }

  ghost predicate ReportsOf(list: seq<Command>, i: nat, asked: seq<Asked>, reported: map<Command, seq<byte>>,
                            parses: (Command, seq<byte>) -> bool) {
    i <= |list| && Reports(asked, reported, parses) && forall c <- reported :: c in list[..i]
  }

  lemma {:induction false} NotedReports(list: seq<Command>, i: nat, before: seq<Asked>, asked: seq<Asked>,
                                        reported: map<Command, seq<byte>>, payload: Option<seq<byte>>, parses: (Command, seq<byte>) -> bool)
    requires ReportsOf(list, i, before, reported, parses) && i < |list| && Distinct(list)
    requires Brought(before, asked, list[i], payload)
    ensures ReportsOf(list, i + 1, asked, Noted(reported, list[i], payload, parses), parses)
  {
    assert list[i] !in list[..i] && list[..i + 1] == list[..i] + [list[i]];
    if payload.Some? {
      ReportsStep(before, reported, parses, list[i], payload.value);
    } else if asked != before {
      var e :| asked == Plus(before, e) && !e.answer.Carried?;
      ReportsSame(before, e, reported, parses);
    }
  }

  /** How many payloads of a list of exchanges arrived whole and would not parse. */
  function Unparsed(asked: seq<Asked>, parses: (Command, seq<byte>) -> bool): nat {
    if asked == [] then 0
    else
      var e := asked[|asked| - 1];
      Unparsed(asked[..|asked| - 1], parses) + (if e.answer.Carried? && !parses(e.command, e.answer.payload) then 1 else 0)
  }

  lemma {:induction false} UnparsedStep(before: seq<Asked>, asked: seq<Asked>, command: Command, payload: Option<seq<byte>>,
                                        parses: (Command, seq<byte>) -> bool)
    requires Brought(before, asked, command, payload)
    ensures Unparsed(asked, parses) == Unparsed(before, parses) + (if payload.Some? && !parses(command, payload.value) then 1 else 0)
  {
    if asked != before {
      var e := if payload.Some? then Asked(command, Carried(payload.value)) else asked[|asked| - 1];
      assert asked == before + [e] && asked[..|before|] == before;
    }
  }

  /** One command of a sweep, and its report. A payload that does not parse is reported by neither sweep,
      and is counted by the one over the live commands. */
  method ReportOne(port: Unit, session: Session, list: seq<Command>, i: nat, counts: bool, ghost refused: set<Command>,
                   ghost log: seq<Asked>, ghost before: seq<Asked>, reported: map<Command, seq<byte>>,
                   parses: (Command, seq<byte>) -> bool)
    returns (ok: bool, more: map<Command, seq<byte>>, ghost asked: seq<Asked>)
    requires session.Matches(port.log) && Distinct(list) && i < |list|
    requires Sweeping(list, i, refused, session.unsupported, before) && OnWire(port, log, before)
    requires ReportsOf(list, i, before, reported, parses)
    modifies session, port
    ensures session.Matches(port.log) && OnWire(port, log, asked)
    ensures ok ==> Sweeping(list, i + 1, refused, session.unsupported, asked) && ReportsOf(list, i + 1, asked, more, parses)
    ensures !ok ==> Swept(list, refused, asked, false)
    ensures session.unparsed
         == old(session.unparsed) + (if counts then Unparsed(asked, parses) - Unparsed(before, parses) else 0)
    ensures |port.replies| <= |old(port.replies)| && (ok && asked != before ==> |port.replies| < |old(port.replies)|)
  {
    var payload;
    ok, payload, asked := SweepOne(port, session, list, i, refused, log, before);
    more := Noted(reported, list[i], payload, parses);
    NotedReports(list, i, before, asked, reported, payload, parses);
    UnparsedStep(before, asked, list[i], payload, parses);
    if counts && payload.Some? && !parses(list[i], payload.value) { session.Discard(port.log); }
  }

  lemma {:induction false} ListedOnce()
    ensures Distinct(LIVE_COMMANDS) && Distinct(STATIC_COMMANDS)
  {
  }

  lemma {:induction false} SweepStart(list: seq<Command>, refused: set<Command>)
    ensures Sweeping(list, 0, refused, refused, [])
  {
    assert list[0..] == list;
    assert [] + StillAsked(list, refused) == StillAsked(list, refused);
  }

  /** The loop over a list of commands. */
  method SweepList(port: Unit, session: Session, list: seq<Command>, counts: bool, parses: (Command, seq<byte>) -> bool)
    returns (ok: bool, reported: map<Command, seq<byte>>, ghost asked: seq<Asked>)
    requires session.Matches(port.log) && port.Valid() && Distinct(list)
    modifies session, port
    ensures session.Matches(port.log) && OnWire(port, old(port.log), asked)
    ensures Swept(list, old(session.unsupported), asked, ok)
    ensures ok ==> Reports(asked, reported, parses)
    ensures session.unparsed == old(session.unparsed) + (if counts then Unparsed(asked, parses) else 0)
    ensures |port.replies| <= |old(port.replies)| && (ok && asked != [] ==> |port.replies| < |old(port.replies)|)
  {
    ghost var refused, log := session.unsupported, port.log;
    ok, reported, asked := true, map[], [];
    SweepStart(list, refused);
    for i := 0 to |list|
      invariant session.Matches(port.log) && OnWire(port, log, asked)
      invariant Sweeping(list, i, refused, session.unsupported, asked) && ReportsOf(list, i, asked, reported, parses)
      invariant session.unparsed == old(session.unparsed) + (if counts then Unparsed(asked, parses) else 0)
      invariant |port.replies| <= |old(port.replies)| && (asked != [] ==> |port.replies| < |old(port.replies)|)
    {
      ok, reported, asked := ReportOne(port, session, list, i, counts, refused, log, asked, reported, parses);
      if !ok { return; }
    }
    SweepDone(list, refused, session.unsupported, asked);
  }

  /** The live commands. A payload that does not parse counts as one more discarded frame. */
  method PollCycle(port: Unit, session: Session, parses: (Command, seq<byte>) -> bool)
    returns (ok: bool, cycle: map<Command, seq<byte>>, ghost asked: seq<Asked>)
    requires session.Matches(port.log) && port.Valid()
    modifies session, port
    ensures session.Matches(port.log) && OnWire(port, old(port.log), asked)
    ensures Swept(LIVE_COMMANDS, old(session.unsupported), asked, ok)
    ensures ok ==> Reports(asked, cycle, parses)
    ensures session.unparsed == old(session.unparsed) + Unparsed(asked, parses)
    ensures |port.replies| <= |old(port.replies)| && (ok && asked != [] ==> |port.replies| < |old(port.replies)|)
  {
    ListedOnce();
    ok, cycle, asked := SweepList(port, session, LIVE_COMMANDS, true, parses);
  }

  /** The identity commands. A payload that does not parse is dropped without being counted. */
  method ReadIdentity(port: Unit, session: Session, parses: (Command, seq<byte>) -> bool)
    returns (ok: bool, identity: map<Command, seq<byte>>, ghost asked: seq<Asked>)
    requires session.Matches(port.log) && port.Valid()
    modifies session, port
    ensures session.Matches(port.log) && session.unparsed == old(session.unparsed)
    ensures OnWire(port, old(port.log), asked)
    ensures Swept(STATIC_COMMANDS, old(session.unsupported), asked, ok)
    ensures ok ==> Reports(asked, identity, parses)
    ensures |port.replies| <= |old(port.replies)|
  {
    ListedOnce();
    ok, identity, asked := SweepList(port, session, STATIC_COMMANDS, false, parses);
  }

  // ---------------------------------------------------------------- a run

  datatype Outcome = Finished | PortLost | WentSilent

  datatype Kind = Identity | Live

  /** One pass over the identity or the live commands: what was exchanged, whether the port lasted, and
      which payloads were reported. */
  datatype Sweep = Sweep(kind: Kind, asked: seq<Asked>, ok: bool, reported: map<Command, seq<byte>>)

  function ListOf(kind: Kind): seq<Command> {
    if kind.Identity? then STATIC_COMMANDS else LIVE_COMMANDS
  }

  function Exchanges(sweeps: seq<Sweep>): seq<Asked> {
    if sweeps == [] then [] else Exchanges(sweeps[..|sweeps| - 1]) + sweeps[|sweeps| - 1].asked
  }

  /** For each completed cycle, whether it reported anything. */
  function Lives(sweeps: seq<Sweep>): seq<bool> {
    if sweeps == [] then []
    else
      var last := sweeps[|sweeps| - 1];
      Lives(sweeps[..|sweeps| - 1]) + (if last.kind.Live? && last.ok then [last.reported != map[]] else [])
  }

  /** The payloads of all cycles that would not parse; those of the identity are not counted. */
  function UnparsedIn(sweeps: seq<Sweep>, parses: (Command, seq<byte>) -> bool): nat {
    if sweeps == [] then 0
    else
      var last := sweeps[|sweeps| - 1];
      UnparsedIn(sweeps[..|sweeps| - 1], parses) + (if last.kind.Live? then Unparsed(last.asked, parses) else 0)
  }

  /** The identity first; a cycle; after a cycle at which a refresh is due, the identity again. */
  function NextKind(sweeps: seq<Sweep>, refreshDue: nat -> bool): Kind {
    if sweeps == [] then Identity
    else if sweeps[|sweeps| - 1].kind.Live? && Lives(sweeps) != [] && refreshDue(|Lives(sweeps)| - 1) then Identity
    else Live
  }

  ghost predicate SweptAs(sweep: Sweep, before: seq<Asked>, parses: (Command, seq<byte>) -> bool) {
    && Swept(ListOf(sweep.kind), RefusedIn(before), sweep.asked, sweep.ok)
    && (sweep.ok ==> Reports(sweep.asked, sweep.reported, parses))
  }

  /** Each sweep is of the kind that was due, asks in order exactly the commands not refused before it (all
      of them unless the port goes), and reports exactly what parsed; only the last may lose the port. */
  ghost predicate Proper(sweeps: seq<Sweep>, parses: (Command, seq<byte>) -> bool, refreshDue: nat -> bool) {
    sweeps == []
    || (var front, last := sweeps[..|sweeps| - 1], sweeps[|sweeps| - 1];
        && Proper(front, parses, refreshDue)
        && (front != [] ==> front[|front| - 1].ok)
        && last.kind == NextKind(front, refreshDue)
        && SweptAs(last, Exchanges(front), parses))
  }

  lemma {:induction false} OneMoreSweep(sweeps: seq<Sweep>, next: Sweep, parses: (Command, seq<byte>) -> bool, refreshDue: nat -> bool)
    requires Proper(sweeps, parses, refreshDue) && (sweeps != [] ==> sweeps[|sweeps| - 1].ok)
    requires next.kind == NextKind(sweeps, refreshDue) && SweptAs(next, Exchanges(sweeps), parses)
    ensures Proper(sweeps + [next], parses, refreshDue)
    ensures Exchanges(sweeps + [next]) == Exchanges(sweeps) + next.asked
    ensures UnparsedIn(sweeps + [next], parses)
         == UnparsedIn(sweeps, parses) + (if next.kind.Live? then Unparsed(next.asked, parses) else 0)
    ensures Lives(sweeps + [next]) == Lives(sweeps) + (if next.kind.Live? && next.ok then [next.reported != map[]] else [])
  {
    assert (sweeps + [next])[..|sweeps|] == sweeps;
  }

  /** What every run keeps between sweeps. */
  ghost predicate Running(port: Unit, session: Session, sweeps: seq<Sweep>, parses: (Command, seq<byte>) -> bool, refreshDue: nat -> bool)
    reads port, session
  {
    && port.Valid() && session.Matches(port.log)
    && port.log == Exchanges(sweeps) && Proper(sweeps, parses, refreshDue)
    && session.unparsed == UnparsedIn(sweeps, parses)
  }

  ghost predicate PortLasted(sweeps: seq<Sweep>) {
    sweeps == [] || sweeps[|sweeps| - 1].ok
  }

  /** One sweep of either kind. */
  method SweepKind(port: Unit, session: Session, kind: Kind, parses: (Command, seq<byte>) -> bool)
    returns (ok: bool, reported: map<Command, seq<byte>>, ghost sweep: Sweep)
    requires session.Matches(port.log) && port.Valid()
    modifies port, session
    ensures session.Matches(port.log) && port.Valid() && port.log == old(port.log) + sweep.asked
    ensures sweep.kind == kind && sweep.ok == ok && sweep.reported == reported
    ensures SweptAs(sweep, old(port.log), parses)
    ensures session.unparsed == old(session.unparsed) + (if kind.Live? then Unparsed(sweep.asked, parses) else 0)
    ensures |port.replies| <= |old(port.replies)|
    ensures ok && kind.Live? && reported != map[] ==> |port.replies| < |old(port.replies)|
  {
    ghost var asked;
    match kind {
      case Identity => ok, reported, asked := ReadIdentity(port, session, parses);
      case Live => ok, reported, asked := PollCycle(port, session, parses);
    }
    if ok && reported != map[] { NothingAskedNothingHeard(asked, reported, parses); }
    sweep := Sweep(kind, asked, ok, reported);
  }

  /** One sweep of a run, recorded. */
  method SweepNext(port: Unit, session: Session, kind: Kind, parses: (Command, seq<byte>) -> bool,
                   ghost refreshDue: nat -> bool, ghost before: seq<Sweep>)
    returns (ok: bool, reported: map<Command, seq<byte>>, ghost sweeps: seq<Sweep>)
    requires Running(port, session, before, parses, refreshDue) && PortLasted(before) && kind == NextKind(before, refreshDue)
    modifies port, session
    ensures Running(port, session, sweeps, parses, refreshDue)
    ensures |sweeps| > 0 && sweeps[..|sweeps| - 1] == before && sweeps[|sweeps| - 1].kind == kind
    ensures ok == PortLasted(sweeps)
    ensures Lives(sweeps) == Lives(before) + (if kind.Live? && ok then [reported != map[]] else [])
    ensures |port.replies| <= |old(port.replies)|
    ensures ok && kind.Live? && reported != map[] ==> |port.replies| < |old(port.replies)|
  {
    ghost var sweep;
    ok, reported, sweep := SweepKind(port, session, kind, parses);
    OneMoreSweep(before, sweep, parses, refreshDue);
    sweeps := before + [sweep];
  }

  /** The run is between sweeps, with `silent` empty cycles in a row behind it. */
  ghost predicate Steady(sweeps: seq<Sweep>, silent: nat) {
    && PortLasted(sweeps) && NeverSilent(Lives(sweeps))
    && silent == SilentRun(Lives(sweeps)) && silent < MAX_SILENT_CYCLES
  }

  /** One cycle of a run, and the counter of empty ones. */
  method CycleNext(port: Unit, session: Session, parses: (Command, seq<byte>) -> bool,
                   ghost refreshDue: nat -> bool, ghost before: seq<Sweep>, silent: nat)
    returns (ok: bool, silentNow: nat, ghost sweeps: seq<Sweep>)
    requires Running(port, session, before, parses, refreshDue) && Steady(before, silent) && NextKind(before, refreshDue) == Live
    modifies port, session
    ensures Running(port, session, sweeps, parses, refreshDue) && ok == PortLasted(sweeps)
    ensures sweeps != [] && sweeps[|sweeps| - 1].kind == Live
    ensures |Lives(sweeps)| == |Lives(before)| + (if ok then 1 else 0)
    ensures GivesUpOnlyWhenSilent(Lives(sweeps), ok && silentNow >= MAX_SILENT_CYCLES)
    ensures ok && silentNow < MAX_SILENT_CYCLES ==> Steady(sweeps, silentNow)
    ensures silentNow == silent + 1 || (ok ==> silentNow == 0 && |port.replies| < |old(port.replies)|)
    ensures |port.replies| <= |old(port.replies)|
  {
    ghost var live := Lives(before);
    var reported;
    GivesUp(live);
    LimitMeans(live);
    ok, reported, sweeps := SweepNext(port, session, Live, parses, refreshDue, before);
    silentNow := if reported == map[] then silent + 1 else 0;
    if ok {
      SilentStep(live, reported != map[]);
      NeverSilentStep(live, reported != map[]);
      GivesUp(Lives(sweeps));
    } else {
      assert live + [] == live;
    }
  }

  /** The identity, when it is due. */
  method RefreshNext(port: Unit, session: Session, parses: (Command, seq<byte>) -> bool,
                     ghost refreshDue: nat -> bool, ghost before: seq<Sweep>, ghost silent: nat)
    returns (ok: bool, ghost sweeps: seq<Sweep>)
    requires Running(port, session, before, parses, refreshDue) && NextKind(before, refreshDue) == Identity
    requires Steady(before, silent)
    modifies port, session
    ensures Running(port, session, sweeps, parses, refreshDue) && ok == PortLasted(sweeps)
    ensures sweeps != [] && sweeps[|sweeps| - 1].kind == Identity && Lives(sweeps) == Lives(before)
    ensures ok ==> Steady(sweeps, silent)
    ensures |port.replies| <= |old(port.replies)|
  {
    var reported;
    ghost var live := Lives(before);
    ok, reported, sweeps := SweepNext(port, session, Identity, parses, refreshDue, before);
    assert live + [] == live;
  }

  /** How a run may end: on a lost port, on the first three cycles in a row that report nothing, or after
      one cycle when only one is asked for. */
  ghost predicate EndsAs(sweeps: seq<Sweep>, outcome: Outcome, once: bool) {
    && GivesUpOnlyWhenSilent(Lives(sweeps), outcome.WentSilent?)
    && (outcome.PortLost? <==> !PortLasted(sweeps))
    && (outcome.Finished? ==> once)
    && (once ==> |Lives(sweeps)| <= 1) && (outcome.Finished? ==> |Lives(sweeps)| == 1)
  }

  /** Where the loop stands at the top of a tick. */
  ghost predicate AtTick(sweeps: seq<Sweep>, tick: nat, silent: nat, refreshDue: nat -> bool) {
    Steady(sweeps, silent) && NextKind(sweeps, refreshDue) == Live && |Lives(sweeps)| == tick
  }

  /** What follows a cycle that read something or may still be followed by another. */
  method AfterCycle(port: Unit, session: Session, parses: (Command, seq<byte>) -> bool, refreshDue: nat -> bool,
                    ghost before: seq<Sweep>, tick: nat, ghost silent: nat)
    returns (ok: bool, ghost sweeps: seq<Sweep>)
    requires Running(port, session, before, parses, refreshDue) && Steady(before, silent)
    requires before != [] && before[|before| - 1].kind == Live && |Lives(before)| == tick + 1
    modifies port, session
    ensures Running(port, session, sweeps, parses, refreshDue)
    ensures if ok then AtTick(sweeps, tick + 1, silent, refreshDue) else EndsAs(sweeps, PortLost, false)
    ensures |port.replies| <= |old(port.replies)|
  {
    ok, sweeps := true, before;
    GivesUp(Lives(before));
    if refreshDue(tick) { ok, sweeps := RefreshNext(port, session, parses, refreshDue, before, silent); }
  }

  /** One turn of the loop. */
  method TakeTick(port: Unit, session: Session, parses: (Command, seq<byte>) -> bool, refreshDue: nat -> bool, once: bool,
                  ghost before: seq<Sweep>, tick: nat, silent: nat)
    returns (outcome: Option<Outcome>, silentNow: nat, ghost sweeps: seq<Sweep>)
    requires Running(port, session, before, parses, refreshDue) && AtTick(before, tick, silent, refreshDue)
    requires once ==> tick == 0
    modifies port, session
    ensures Running(port, session, sweeps, parses, refreshDue)
    ensures outcome.Some? ==> EndsAs(sweeps, outcome.value, once)
    ensures outcome.None? ==> AtTick(sweeps, tick + 1, silentNow, refreshDue) && !once
    ensures |port.replies| <= |old(port.replies)|
    ensures outcome.None? ==> silentNow == silent + 1 || |port.replies| < |old(port.replies)|
  {
    var ok;
    ok, silentNow, sweeps := CycleNext(port, session, parses, refreshDue, before, silent);
    if !ok {
      outcome := Some(PortLost);
    } else if silentNow >= MAX_SILENT_CYCLES {
      outcome := Some(WentSilent);
    } else if once {
      outcome := Some(Finished);
    } else {
      ok, sweeps := AfterCycle(port, session, parses, refreshDue, sweeps, tick, silentNow);
      outcome := if ok then None else Some(PortLost);
    }
  }

  /** A whole run. `refreshDue` says at which ticks the identity is read again. The sweeps returned are the
      whole of what was exchanged and written, and the counters match it. */
  method Run(port: Unit, parses: (Command, seq<byte>) -> bool, refreshDue: nat -> bool, once: bool)
    returns (outcome: Outcome, session: Session, ghost sweeps: seq<Sweep>)
    requires port.Valid() && port.log == []
    modifies port
    ensures fresh(session) && Running(port, session, sweeps, parses, refreshDue)
    ensures port.written == RequestsOf(Exchanges(sweeps))
    ensures EndsAs(sweeps, outcome, once)
  {
    session := new Session();
    sweeps := [];
    var ok;
    ok, sweeps := RefreshNext(port, session, parses, refreshDue, sweeps, 0);
    GivesUp(Lives(sweeps));
    var end := if ok then None else Some(PortLost);
    var silentCycles, tick := 0, 0;
    while end.None?
      invariant fresh(session) && Running(port, session, sweeps, parses, refreshDue)
      invariant end.None? ==> AtTick(sweeps, tick, silentCycles, refreshDue) && (once ==> tick == 0)
      invariant end.Some? ==> EndsAs(sweeps, end.value, once)
      decreases end.None?, |port.replies|, MAX_SILENT_CYCLES - silentCycles
    {
      end, silentCycles, sweeps := TakeTick(port, session, parses, refreshDue, once, sweeps, tick, silentCycles);
      tick := tick + 1;
    }
    outcome := end.value;
  }

  lemma {:induction false} NothingAskedNothingHeard(asked: seq<Asked>, cycle: map<Command, seq<byte>>, parses: (Command, seq<byte>) -> bool)
    requires Reports(asked, cycle, parses) && cycle != map[]
    ensures asked != []
  {
    var c :| c in cycle;
    assert Asked(c, Carried(cycle[c])) in asked;
  }
}
