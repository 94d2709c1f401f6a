/** What the record of a polling run says, told by the replies met and the payloads reported. */
module PollingMeaning {
  import opened Bytes
  import opened Crc
  import opened Protocol
  import opened Silence
  import opened InverterSession

  // ---------------------------------------------------------------- one exchange

  /** What each exchange of a record amounts to. A reply that cannot be written or read, or a script that
      has run out, ends the run; silence and a frame no unit can have built are losses; a frame built from
      NAK is a refusal; any other brings exactly the payload it was built from. */
  lemma {:induction false} ExchangeMeans(script: seq<Reply>, log: seq<Asked>, k: nat)
    requires Happened(script, log) && k < |log|
    ensures var answer := log[k].answer;
            if k >= |script| || script[k].WriteFailed? || script[k].ReadFailed? then answer == PortGone
            else if script[k].NoFrame? then answer == Lost
            else
              && (answer == Refusal <==> script[k].frame == BuildResponse([0x4E, 0x41, 0x4B]))
              && (forall p :: answer == Carried(p) <==> script[k].frame == BuildResponse(p) && p != [0x4E, 0x41, 0x4B])
              && (answer == Lost <==> forall p :: script[k].frame != BuildResponse(p))
              && answer != PortGone
  {
    HappenedAt(script, log, k);
    if k < |script| && script[k].Answered? { FrameMeans(script[k].frame); }
  }

  lemma {:induction false} BuiltIff(frame: seq<byte>, p: seq<byte>)
    ensures frame == BuildResponse(p) <==> ParseResponse(frame) == Ok(Meaning(p))
  {
    if frame == BuildResponse(p) {
      BuildThenParse(p);
    } else if ParseResponse(frame).Ok? {
      var q := Payloaded(frame);
      assert p != q;
    }
  }

  lemma {:induction false} Payloaded(frame: seq<byte>) returns (q: seq<byte>)
    requires ParseResponse(frame).Ok?
    ensures frame == BuildResponse(q) && ParseResponse(frame) == Ok(Meaning(q))
  {
    q := frame[1..|frame| - 3];
    AcceptedWasBuilt(frame);
    BuildThenParse(q);
  }

  /** What a parse result that depends on the frame alone makes of it. */
  lemma {:induction false} ResultMeans(frame: seq<byte>, parsed: Result<Response, FrameError>)
    requires forall p :: frame == BuildResponse(p) <==> parsed == Ok(Meaning(p))
    ensures parsed == Ok(Nak) <==> frame == BuildResponse([0x4E, 0x41, 0x4B])
    ensures forall p :: parsed == Ok(Payload(p)) && p != [0x4E, 0x41, 0x4B] <==> frame == BuildResponse(p) && p != [0x4E, 0x41, 0x4B]
  {
    assert Meaning([0x4E, 0x41, 0x4B]) == Nak;
    forall p ensures Meaning(p) == if p == [0x4E, 0x41, 0x4B] then Nak else Payload(p) {}
  }

  lemma {:induction false} NoneBuilt(frame: seq<byte>, parsed: Result<Response, FrameError>)
    requires forall p :: frame == BuildResponse(p) <==> parsed == Ok(Meaning(p))
    requires parsed.Ok? ==> exists q :: frame == BuildResponse(q)
    ensures parsed.Err? <==> forall p :: frame != BuildResponse(p)
  {
  }

  lemma {:induction false} NeverCarriesNak(frame: seq<byte>)
    ensures ParseResponse(frame) != Ok(Payload([0x4E, 0x41, 0x4B]))
  {
  }

  lemma {:induction false} FrameMeans(frame: seq<byte>)
    ensures var answer := AnswerOf(Answered(frame));
            && (answer == Refusal <==> frame == BuildResponse([0x4E, 0x41, 0x4B]))
            && (forall p :: answer == Carried(p) <==> frame == BuildResponse(p) && p != [0x4E, 0x41, 0x4B])
            && (answer == Lost <==> forall p :: frame != BuildResponse(p))
            && answer != PortGone
  {
    var parsed := ParseResponse(frame);
    forall p ensures frame == BuildResponse(p) <==> parsed == Ok(Meaning(p)) { BuiltIff(frame, p); }
    if parsed.Ok? { var q := Payloaded(frame); }
    ResultMeans(frame, parsed);
    NoneBuilt(frame, parsed);
    NeverCarriesNak(frame);
    AnswerFrom(frame, parsed);
  }

  lemma {:induction false} AnswerFrom(frame: seq<byte>, parsed: Result<Response, FrameError>)
    requires parsed == ParseResponse(frame)
    ensures AnswerOf(Answered(frame)) == match parsed
              case Ok(Payload(p)) => Carried(p)
              case Ok(Nak) => Refusal
              case Err(_) => Lost
  {
  }

  // ---------------------------------------------------------------- what is asked

  ghost function Letters(command: Command): string {
    match command
    case Qid => "QID"
    case Qvfw => "QVFW"
    case Qvfw3 => "QVFW3"
    case Qmn => "QMN"
    case Qgmn => "QGMN"
    case Qmod => "QMOD"
    case Qpigs => "QPIGS"
    case Qpigs2 => "QPIGS2"
    case Qpiws => "QPIWS"
  }

  lemma {:induction false} SpeltOut(command: Command, letters: string, text: seq<byte>)
    requires letters == Letters(command) && text == Text(command)
    ensures |text| == |letters| && forall i :: 0 <= i < |text| ==> text[i] == letters[i] as int
  {
  }

  lemma {:induction false} Closed(text: seq<byte>, crc: seq<byte>, request: seq<byte>)
    requires request == text + crc + [CR] && |crc| == 2
    ensures var n := |text|; |request| == n + 3 && request[..n] == text && request[n..n + 2] == crc && request[n + 2] == 13
  {
  }

  /** A request is the letters of its command, their two checksum bytes and a carriage return. */
  lemma {:induction false} RequestIs(command: Command)
    ensures var letters, request := Letters(command), Request(command);
            && |request| == |letters| + 3 && request[|letters| + 2] == 13
            && request[|letters|..|letters| + 2] == FrameCrc(request[..|letters|])
            && forall i :: 0 <= i < |letters| ==> request[..|letters|][i] == letters[i] as int
  {
    var text := Text(command);
    SpeltOut(command, Letters(command), text);
    Closed(text, FrameCrc(text), Request(command));
  }

  /** The positions, in order, of the commands of a list that are not refused. */
  ghost predicate Unrefused(list: seq<Command>, refused: set<Command>, from: nat, which: seq<nat>) {
    && (forall k: nat :: k in which <==> from <= k < |list| && list[k] !in refused)
    && forall i, j :: 0 <= i < j < |which| ==> which[i] < which[j]
  }

  ghost predicate CommandsAt(list: seq<Command>, which: seq<nat>, asked: seq<Command>) {
    |asked| == |which| && forall m :: 0 <= m < |which| ==> which[m] < |list| && asked[m] == list[which[m]]
  }

  lemma {:induction false} UnrefusedCons(list: seq<Command>, refused: set<Command>, from: nat, rest: seq<nat>)
    requires from < |list| && Unrefused(list, refused, from + 1, rest)
    ensures Unrefused(list, refused, from, if list[from] in refused then rest else [from] + rest)
  {
    if list[from] !in refused {
      var which := [from] + rest;
      forall i, j | 0 <= i < j < |which| ensures which[i] < which[j] { assert which[j] in rest; }
      forall k: nat ensures k in which <==> k == from || k in rest {}
    }
  }

  lemma {:induction false} CommandsCons(list: seq<Command>, from: nat, rest: seq<nat>, asked: seq<Command>)
    requires from < |list| && CommandsAt(list, rest, asked)
    ensures CommandsAt(list, [from] + rest, [list[from]] + asked) && [] + asked == asked
  {
  }

  /** `StillAsked` keeps the order of the list: it is the list at increasing positions, those of the
      commands not refused. */
  lemma {:induction false} AskedInOrder(list: seq<Command>, refused: set<Command>, from: nat) returns (which: seq<nat>)
    requires from <= |list|
    ensures Unrefused(list, refused, from, which) && CommandsAt(list, which, StillAsked(list[from..], refused))
    decreases |list| - from
  {
    which := [];
    if from < |list| {
      var rest := AskedInOrder(list, refused, from + 1);
      assert list[from..][1..] == list[from + 1..] && list[from..][0] == list[from];
      UnrefusedCons(list, refused, from, rest);
      CommandsCons(list, from, rest, StillAsked(list[from + 1..], refused));
      which := if list[from] in refused then rest else [from] + rest;
    }
  }

  // ---------------------------------------------------------------- the order of sweeps

  /** The sweeps over the live commands among the first `n`. */
  ghost function LiveBefore(sweeps: seq<Sweep>, n: nat): set<nat>
    requires n <= |sweeps|
  {
    set k: nat | k < n && sweeps[k].kind == Live
  }

  lemma {:induction false} LivesCount(sweeps: seq<Sweep>, n: nat)
    requires n <= |sweeps| && forall k :: 0 <= k < n ==> sweeps[k].ok
    ensures |Lives(sweeps[..n])| == |LiveBefore(sweeps, n)|
  {
    if n > 0 {
      LivesCount(sweeps, n - 1);
      assert sweeps[..n][..n - 1] == sweeps[..n - 1];
      assert LiveBefore(sweeps, n) == LiveBefore(sweeps, n - 1) + if sweeps[n - 1].kind == Live then {n - 1} else {};
    }
  }

  lemma {:induction false} ProperFront(sweeps: seq<Sweep>, parses: (Command, seq<byte>) -> bool, refreshDue: nat -> bool, n: nat)
    requires Proper(sweeps, parses, refreshDue) && n <= |sweeps|
    ensures Proper(sweeps[..n], parses, refreshDue)
    ensures 0 < n < |sweeps| ==> sweeps[n - 1].ok
    decreases |sweeps|
  {
    if n == |sweeps| {
      assert sweeps[..n] == sweeps;
    } else {
      var front := sweeps[..|sweeps| - 1];
      ProperFront(front, parses, refreshDue, n);
      assert front[..n] == sweeps[..n];
    }
  }

  lemma {:induction false} ProperAt(sweeps: seq<Sweep>, parses: (Command, seq<byte>) -> bool, refreshDue: nat -> bool, k: nat)
    requires Proper(sweeps, parses, refreshDue) && k < |sweeps|
    ensures sweeps[k].kind == NextKind(sweeps[..k], refreshDue) && SweptAs(sweeps[k], Exchanges(sweeps[..k]), parses)
    ensures forall j :: 0 <= j < k ==> sweeps[j].ok
  {
    ProperFront(sweeps, parses, refreshDue, k + 1);
    assert sweeps[..k + 1][..k] == sweeps[..k];
    forall j | 0 <= j < k ensures sweeps[j].ok { ProperFront(sweeps, parses, refreshDue, j + 1); }
  }

  /** A run begins with the identity. After a sweep over the live commands comes the identity again exactly
      when a refresh is due at the tick that sweep was, and otherwise the live commands; after the identity,
      the live commands. */
  lemma {:induction false} OrderOfSweeps(sweeps: seq<Sweep>, parses: (Command, seq<byte>) -> bool, refreshDue: nat -> bool, k: nat)
    requires Proper(sweeps, parses, refreshDue) && k < |sweeps|
    ensures k == 0 ==> sweeps[k].kind == Identity
    ensures k > 0 ==> var before := |set j: nat | j < k && sweeps[j].kind == Live|;
              if sweeps[k - 1].kind == Live
              then before > 0 && (sweeps[k].kind == Identity <==> refreshDue(before - 1))
              else sweeps[k].kind == Live
  {
    ProperAt(sweeps, parses, refreshDue, k);
    if k > 0 {
      LivesCount(sweeps, k);
      assert sweeps[..k][|sweeps[..k]| - 1] == sweeps[k - 1];
      if sweeps[k - 1].kind == Live { assert k - 1 in LiveBefore(sweeps, k); }
    }
  }

  /** Each sweep asks, of the list of its kind, what was not refused before it: all of it, or up to the
      command at which the port went. */
  lemma {:induction false} SweepAsksIts(sweeps: seq<Sweep>, parses: (Command, seq<byte>) -> bool, refreshDue: nat -> bool, k: nat)
    requires Proper(sweeps, parses, refreshDue) && k < |sweeps|
    ensures var list := if sweeps[k].kind == Identity then [Qid, Qvfw, Qvfw3, Qmn, Qgmn] else [Qmod, Qpigs, Qpigs2, Qpiws];
            Swept(list, RefusedIn(Exchanges(sweeps[..k])), sweeps[k].asked, sweeps[k].ok)
  {
    ProperAt(sweeps, parses, refreshDue, k);
  }

  // ---------------------------------------------------------------- when a run gives up

  /** The completed sweeps over the live commands, in order. */
  ghost predicate Cycles(sweeps: seq<Sweep>, which: seq<nat>) {
    && (forall k: nat :: k in which <==> k < |sweeps| && sweeps[k].kind == Live && sweeps[k].ok)
    && forall i, j :: 0 <= i < j < |which| ==> which[i] < which[j]
  }

  ghost predicate Reported(sweeps: seq<Sweep>, which: seq<nat>, live: seq<bool>) {
    |live| == |which| && forall m :: 0 <= m < |which| ==> which[m] < |sweeps| && (live[m] <==> sweeps[which[m]].reported != map[])
  }

  lemma {:induction false} CyclesMore(sweeps: seq<Sweep>, n: nat, before: seq<nat>)
    requires n < |sweeps| && Cycles(sweeps[..n], before)
    ensures Cycles(sweeps[..n + 1], before + if sweeps[n].kind == Live && sweeps[n].ok then [n] else [])
  {
    var which := before + if sweeps[n].kind == Live && sweeps[n].ok then [n] else [];
    forall i, j | 0 <= i < j < |which| ensures which[i] < which[j] { assert which[i] in before; }
    forall k: nat ensures k in which <==> k in before || (k == n && sweeps[n].kind == Live && sweeps[n].ok) {}
  }

  lemma {:induction false} CyclesTo(sweeps: seq<Sweep>, n: nat) returns (which: seq<nat>)
    requires n <= |sweeps|
    ensures Cycles(sweeps[..n], which) && Reported(sweeps, which, Lives(sweeps[..n]))
  {
    which := [];
    if n > 0 {
      var before := CyclesTo(sweeps, n - 1);
      CyclesMore(sweeps, n - 1, before);
      assert sweeps[..n][..n - 1] == sweeps[..n - 1];
      which := before + if sweeps[n - 1].kind == Live && sweeps[n - 1].ok then [n - 1] else [];
      assert before + [] == before && Lives(sweeps[..n - 1]) + [] == Lives(sweeps[..n - 1]);
    }
  }

  /** A run gives up for silence exactly when its last three completed cycles reported nothing, and it
      would have before, had any three in a row; it ends for the port exactly when the last sweep lost it. */
  lemma {:induction false} EndsExactlyWhen(sweeps: seq<Sweep>, outcome: InverterSession.Outcome, once: bool) returns (which: seq<nat>)
    requires EndsAs(sweeps, outcome, once)
    ensures Cycles(sweeps, which) && forall m :: 0 <= m < |which| ==> which[m] < |sweeps|
    ensures outcome == WentSilent <==> |which| >= 3 && forall m :: |which| - 3 <= m < |which| ==> sweeps[which[m]].reported == map[]
    ensures forall m :: 0 <= m < |which| - 3 ==>
              sweeps[which[m]].reported != map[] || sweeps[which[m + 1]].reported != map[] || sweeps[which[m + 2]].reported != map[]
    ensures outcome == PortLost <==> sweeps != [] && !sweeps[|sweeps| - 1].ok
    ensures outcome == Finished ==> once && |which| == 1
    ensures once ==> |which| <= 1
  {
    which := CyclesTo(sweeps, |sweeps|);
    assert sweeps[..|sweeps|] == sweeps;
    SilentCycles(sweeps, which, Lives(sweeps), outcome.WentSilent?);
  }

  lemma {:induction false} SilentCycles(sweeps: seq<Sweep>, which: seq<nat>, live: seq<bool>, gaveUp: bool)
    requires Reported(sweeps, which, live) && GivesUpOnlyWhenSilent(live, gaveUp)
    ensures gaveUp <==> |which| >= 3 && forall m :: |which| - 3 <= m < |which| ==> sweeps[which[m]].reported == map[]
    ensures forall m :: 0 <= m < |which| - 3 ==>
              sweeps[which[m]].reported != map[] || sweeps[which[m + 1]].reported != map[] || sweeps[which[m + 2]].reported != map[]
  {
    var n := |live|;
    if n >= 3 {
      assert !live[n - 1] <==> sweeps[which[n - 1]].reported == map[];
      assert !live[n - 2] <==> sweeps[which[n - 2]].reported == map[];
      assert !live[n - 3] <==> sweeps[which[n - 3]].reported == map[];
    }
    forall m | 0 <= m < n - 3
      ensures sweeps[which[m]].reported != map[] || sweeps[which[m + 1]].reported != map[] || sweeps[which[m + 2]].reported != map[]
    {
      assert !ThreeSilent(live[..m + 3]);
    }
  }

  // ---------------------------------------------------------------- the counters

  lemma {:induction false} LostCount(log: seq<Asked>, n: nat)
    requires n <= |log|
    ensures LostIn(log[..n]) == |set k: nat | k < n && log[k].answer == Lost|
  {
    if n > 0 {
      LostCount(log, n - 1);
      assert log[..n][..n - 1] == log[..n - 1];
      assert (set k: nat | k < n && log[k].answer == Lost)
          == (set k: nat | k < n - 1 && log[k].answer == Lost) + if log[n - 1].answer == Lost then {n - 1} else {};
    }
  }

  /** A payload that arrived whole and would not parse. */
  ghost predicate Garbled(e: Asked, parses: (Command, seq<byte>) -> bool) {
    e.answer.Carried? && !parses(e.command, e.answer.payload)
  }

  lemma {:induction false} GarbledCount(asked: seq<Asked>, parses: (Command, seq<byte>) -> bool, n: nat)
    requires n <= |asked|
    ensures Unparsed(asked[..n], parses) == |set k: nat | k < n && Garbled(asked[k], parses)|
  {
    if n > 0 {
      GarbledCount(asked, parses, n - 1);
      assert asked[..n][..n - 1] == asked[..n - 1];
      assert (set k: nat | k < n && Garbled(asked[k], parses))
          == (set k: nat | k < n - 1 && Garbled(asked[k], parses)) + if Garbled(asked[n - 1], parses) then {n - 1} else {};
    }
  }

  /** The places, by sweep and exchange, where a live payload arrived whole and would not parse. */
  ghost function GarbledPlaces(sweeps: seq<Sweep>, parses: (Command, seq<byte>) -> bool, n: nat): set<(nat, nat)>
    requires n <= |sweeps|
  {
    set i: nat, k: nat | i < n && sweeps[i].kind == Live && k < |sweeps[i].asked| && Garbled(sweeps[i].asked[k], parses) :: (i, k)
  }

  ghost function Row(i: nat, ks: set<nat>): set<(nat, nat)> {
    set k: nat | k in ks :: (i, k)
  }

  lemma {:induction false} RowCount(i: nat, ks: set<nat>)
    ensures |Row(i, ks)| == |ks|
  {
    if ks != {} {
      var k :| k in ks;
      RowCount(i, ks - {k});
      assert Row(i, ks) == Row(i, ks - {k}) + {(i, k)};
    }
  }

  lemma {:induction false} PlacesStep(sweeps: seq<Sweep>, parses: (Command, seq<byte>) -> bool, i: nat, ks: set<nat>)
    requires i < |sweeps| && ks == set k: nat | k < |sweeps[i].asked| && Garbled(sweeps[i].asked[k], parses)
    ensures |GarbledPlaces(sweeps, parses, i + 1)| == |GarbledPlaces(sweeps, parses, i)| + if sweeps[i].kind == Live then |ks| else 0
  {
    var here := if sweeps[i].kind == Live then Row(i, ks) else {};
    RowCount(i, ks);
    assert GarbledPlaces(sweeps, parses, i + 1) == GarbledPlaces(sweeps, parses, i) + here;
    assert GarbledPlaces(sweeps, parses, i) !! here;
  }

  lemma {:induction false} PlacesCount(sweeps: seq<Sweep>, parses: (Command, seq<byte>) -> bool, n: nat)
    requires n <= |sweeps|
    ensures UnparsedIn(sweeps[..n], parses) == |GarbledPlaces(sweeps, parses, n)|
  {
    if n > 0 {
      var last := sweeps[n - 1];
      PlacesCount(sweeps, parses, n - 1);
      assert sweeps[..n][..n - 1] == sweeps[..n - 1] && sweeps[..n][n - 1] == last;
      GarbledCount(last.asked, parses, |last.asked|);
      assert last.asked[..|last.asked|] == last.asked;
      PlacesStep(sweeps, parses, n - 1, set k: nat | k < |last.asked| && Garbled(last.asked[k], parses));
    }
  }

  lemma {:induction false} RefusedMeans(log: seq<Asked>, c: Command)
    ensures c in RefusedIn(log) <==> Asked(c, Refusal) in log
  {
    if c in RefusedIn(log) {
      var k :| 0 <= k < |log| && log[k].answer.Refusal? && log[k].command == c;
      assert log[k] == Asked(c, Refusal);
    }
  }

  /** The counters of a run: one discarded frame for every exchange lost on the wire, and one for every
      payload of the live commands that would not parse; one unsupported command for every command the
      unit refused, at whatever exchange. */
  lemma {:induction false} CountersMean(port: Unit, session: Session, sweeps: seq<Sweep>, parses: (Command, seq<byte>) -> bool, refreshDue: nat -> bool)
    requires Running(port, session, sweeps, parses, refreshDue)
    ensures var log := Exchanges(sweeps);
            && session.discardedFrames
               == |set k: nat | k < |log| && log[k].answer == Lost| + |GarbledPlaces(sweeps, parses, |sweeps|)|
            && session.unsupportedCommands == |session.unsupported|
            && forall c :: c in session.unsupported <==> Asked(c, Refusal) in log
  {
    var log := Exchanges(sweeps);
    LostCount(log, |log|);
    PlacesCount(sweeps, parses, |sweeps|);
    assert log[..|log|] == log && sweeps[..|sweeps|] == sweeps;
    forall c ensures c in session.unsupported <==> Asked(c, Refusal) in log { RefusedMeans(log, c); }
  }
}
