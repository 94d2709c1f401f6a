/** What a client takes from the records a server sends, told record by record: which of them count, which
    are refused and as what, and what they must add up to. */
module NtsMeaning {
  import opened Bytes
  import opened Wire
  import opened Nts

  // ---------------------------------------------------------------- records of a kind

  function KindOf(r: Record): u16 {
    r.header % 0x8000
  }

  ghost predicate NoneOf(records: seq<Record>, kind: u16) {
    forall k :: 0 <= k < |records| ==> KindOf(records[k]) != kind
  }

  /** The `k`th record is the last of its kind. */
  ghost predicate LastOf(records: seq<Record>, kind: u16, k: nat) {
    k < |records| && KindOf(records[k]) == kind && forall j :: k < j < |records| ==> KindOf(records[j]) != kind
  }

  /** A record that ends the reading, and what is then reported. */
  ghost predicate Faulty(r: Record, e: NtsError, utf8: seq<byte> -> bool) {
    match e
    case NoNextProtocol => KindOf(r) == 1 && |r.body| != 2
    case ServerError => KindOf(r) == 2
    case ServerWarning => KindOf(r) == 3
    case NoAead => KindOf(r) == 4 && |r.body| != 2
    case BadServer => KindOf(r) == 6 && !utf8(r.body)
    case BadPort => KindOf(r) == 7 && |r.body| != 2
    case UnknownCritical => KindOf(r) > 7 && r.header >= 0x8000
    case _ => false
  }

  ghost predicate Sound(r: Record, utf8: seq<byte> -> bool) {
    forall e :: !Faulty(r, e, utf8)
  }

  ghost predicate AllSound(records: seq<Record>, utf8: seq<byte> -> bool) {
    forall k :: 0 <= k < |records| ==> Sound(records[k], utf8)
  }

  // ---------------------------------------------------------------- one record more

  /** A field holds the body of the last record of its kind, if there is one. */
  ghost predicate Holds(records: seq<Record>, kind: u16, body: Option<seq<byte>>) {
    match body
    case None => NoneOf(records, kind)
    case Some(b) => exists k: nat :: LastOf(records, kind, k) && records[k].body == b
  }

  lemma {:induction false} HoldsNew(front: seq<Record>, r: Record, kind: u16)
    requires KindOf(r) == kind
    ensures Holds(front + [r], kind, Some(r.body))
  {
    assert LastOf(front + [r], kind, |front|);
  }

  lemma {:induction false} HoldsStill(front: seq<Record>, r: Record, kind: u16, body: Option<seq<byte>>)
    requires Holds(front, kind, body) && KindOf(r) != kind
    ensures Holds(front + [r], kind, body)
  {
    if body.Some? {
      var k: nat :| LastOf(front, kind, k) && front[k].body == body.value;
      assert LastOf(front + [r], kind, k);
    }
  }

  lemma {:induction false} HoldsNext(front: seq<Record>, r: Record, kind: u16, body: Option<seq<byte>>)
    requires Holds(front, kind, body)
    ensures Holds(front + [r], kind, if KindOf(r) == kind then Some(r.body) else body)
  {
    if KindOf(r) == kind { HoldsNew(front, r, kind); } else { HoldsStill(front, r, kind, body); }
  }

  /** The positions of the records of a kind, in order. */
  ghost predicate Positions(records: seq<Record>, kind: u16, which: seq<nat>) {
    && (forall k: nat :: k in which <==> k < |records| && KindOf(records[k]) == kind)
    && forall i, j :: 0 <= i < j < |which| ==> which[i] < which[j]
  }

  lemma {:induction false} PositionsNext(front: seq<Record>, r: Record, kind: u16, before: seq<nat>)
    requires Positions(front, kind, before)
    ensures Positions(front + [r], kind, before + if KindOf(r) == kind then [|front|] else [])
  {
    var which := before + if KindOf(r) == kind then [|front|] else [];
    forall i, j | 0 <= i < j < |which| ensures which[i] < which[j] {
      assert which[i] in before;
    }
  }

  ghost predicate BodiesAt(records: seq<Record>, which: seq<nat>, bodies: seq<seq<byte>>) {
    |bodies| == |which| && forall m :: 0 <= m < |which| ==> which[m] < |records| && bodies[m] == records[which[m]].body
  }

  lemma {:induction false} BodiesNext(front: seq<Record>, r: Record, before: seq<nat>, bodies: seq<seq<byte>>)
    requires BodiesAt(front, before, bodies)
    ensures BodiesAt(front + [r], before, bodies) && BodiesAt(front + [r], before + [|front|], bodies + [r.body])
  {
  }

  // ---------------------------------------------------------------- all the records

  /** Two bytes as a number. */
  ghost predicate Reads(number: Option<u16>, body: Option<seq<byte>>) {
    match body
    case None => number.None?
    case Some(b) => |b| == 2 && number == Some((b[0] as int) * 256 + b[1])
  }

  /** Where a list of records leaves the reading. */
  datatype Bodies = Bodies(protocol: Option<seq<byte>>, aead: Option<seq<byte>>, port: Option<seq<byte>>, cookies: seq<nat>)

  ghost predicate Tells(records: seq<Record>, b: Bodies, reading: Reading) {
    && Holds(records, 1, b.protocol) && Reads(reading.nextProtocol, b.protocol)
    && Holds(records, 4, b.aead) && Reads(reading.aead, b.aead)
    && Holds(records, 7, b.port) && Reads(reading.port, b.port)
    && Holds(records, 6, reading.server)
    && Positions(records, 5, b.cookies) && BodiesAt(records, b.cookies, reading.cookies)
  }

  lemma {:induction false} Applied(r: Record, reading: Reading, utf8: seq<byte> -> bool)
    requires Printable(r)
    ensures var a := Apply(r.header % CRITICAL, r.header >= CRITICAL, r.body, reading, utf8);
            && (a.Err? ==> Faulty(r, a.error, utf8))
            && (a.Ok? ==>
                  && Sound(r, utf8)
                  && a.value.nextProtocol == (if KindOf(r) == 1 then Some((r.body[0] as int) * 256 + r.body[1]) else reading.nextProtocol)
                  && a.value.aead == (if KindOf(r) == 4 then Some((r.body[0] as int) * 256 + r.body[1]) else reading.aead)
                  && a.value.port == (if KindOf(r) == 7 then Some((r.body[0] as int) * 256 + r.body[1]) else reading.port)
                  && a.value.server == (if KindOf(r) == 6 then Some(r.body) else reading.server)
                  && a.value.cookies == reading.cookies + (if KindOf(r) == 5 then [r.body] else []))
  {
    var a := Apply(r.header % CRITICAL, r.header >= CRITICAL, r.body, reading, utf8);
    if a.Ok? && KindOf(r) != 5 { assert reading.cookies + [] == reading.cookies; }
  }

  lemma {:induction false} TellsNext(front: seq<Record>, r: Record, b: Bodies, reading: Reading, utf8: seq<byte> -> bool)
    returns (next: Bodies)
    requires Tells(front, b, reading) && Printable(r) && Apply(r.header % CRITICAL, r.header >= CRITICAL, r.body, reading, utf8).Ok?
    ensures Tells(front + [r], next, Apply(r.header % CRITICAL, r.header >= CRITICAL, r.body, reading, utf8).value)
  {
    var kind := KindOf(r);
    Applied(r, reading, utf8);
    HoldsNext(front, r, 1, b.protocol);
    HoldsNext(front, r, 4, b.aead);
    HoldsNext(front, r, 7, b.port);
    HoldsNext(front, r, 6, reading.server);
    PositionsNext(front, r, 5, b.cookies);
    BodiesNext(front, r, b.cookies, reading.cookies);
    next := Bodies(
      if kind == 1 then Some(r.body) else b.protocol, if kind == 4 then Some(r.body) else b.aead,
      if kind == 7 then Some(r.body) else b.port, b.cookies + if kind == 5 then [|front|] else []);
    SoundNumbers(r, utf8);
    assert b.cookies + [] == b.cookies && reading.cookies + [] == reading.cookies;
  }

  lemma {:induction false} SoundNumbers(r: Record, utf8: seq<byte> -> bool)
    requires Sound(r, utf8)
    ensures KindOf(r) in {1, 4, 7} ==> |r.body| == 2
  {
    assert !Faulty(r, NoNextProtocol, utf8) && !Faulty(r, NoAead, utf8) && !Faulty(r, BadPort, utf8);
  }

  lemma {:induction false} SaidSnoc(front: seq<Record>, r: Record, reading: Reading, utf8: seq<byte> -> bool)
    ensures var before := Said(front, reading, utf8);
            Said(front + [r], reading, utf8) ==
              if before.Err? then before else Apply(r.header % CRITICAL, r.header >= CRITICAL, r.body, before.value, utf8)
    decreases |front|
  {
    if front == [] {
      assert ([] + [r])[1..] == [];
    } else {
      assert (front + [r])[1..] == front[1..] + [r];
      var a := Apply(front[0].header % CRITICAL, front[0].header >= CRITICAL, front[0].body, reading, utf8);
      if a.Ok? { SaidSnoc(front[1..], r, a.value, utf8); }
    }
  }

  lemma {:induction false} PrintableFront(records: seq<Record>, n: nat)
    requires AllPrintable(records) && n < |records|
    ensures AllPrintable(records[..n]) && Printable(records[n])
  {
    if n > 0 {
      PrintableFront(records[1..], n - 1);
      assert records[..n][1..] == records[1..][..n - 1];
    }
  }

  /** The first record that ends the reading. */
  ghost predicate FirstFault(records: seq<Record>, k: nat, e: NtsError, utf8: seq<byte> -> bool) {
    k < |records| && Faulty(records[k], e, utf8) && AllSound(records[..k], utf8)
  }

  lemma {:induction false} Meant(records: seq<Record>, utf8: seq<byte> -> bool) returns (b: Bodies, k: nat)
    requires AllPrintable(records)
    ensures var said := Said(records, NOTHING_READ, utf8);
            if said.Ok? then AllSound(records, utf8) && Tells(records, b, said.value) else FirstFault(records, k, said.error, utf8)
    decreases |records|
  {
    if records == [] {
      b, k := Bodies(None, None, None, []), 0;
    } else {
      var n := |records| - 1;
      var front, r := records[..n], records[n];
      assert records == front + [r];
      PrintableFront(records, n);
      b, k := Meant(front, utf8);
      SaidSnoc(front, r, NOTHING_READ, utf8);
      var before := Said(front, NOTHING_READ, utf8);
      if before.Ok? {
        Applied(r, before.value, utf8);
        if Said(records, NOTHING_READ, utf8).Ok? {
          b := TellsNext(front, r, b, before.value, utf8);
        } else {
          k := n;
        }
      } else {
        assert records[..k] == front[..k];
      }
    }
  }

  // ---------------------------------------------------------------- the agreement

  /** What is agreed on when a server's records are read: the last next-protocol record is NTPv4's, the
      last algorithm record is of the one asked for, there is a cookie, and no record is refused; the
      cookies are those of all the cookie records in order, the host and the port those of the last
      records that name one. */
  ghost predicate Agrees(records: seq<Record>, requested: u16, utf8: seq<byte> -> bool, cookies: seq<nat>, a: Agreement) {
    && AllSound(records, utf8)
    && (exists k: nat :: LastOf(records, 1, k) && records[k].body == [0, 0])
    && (exists k: nat :: LastOf(records, 4, k) && records[k].body == [requested / 256, requested % 256])
    && a.aead == requested
    && cookies != [] && Positions(records, 5, cookies) && BodiesAt(records, cookies, a.cookies)
    && Holds(records, 6, a.server)
    && (if a.port.None? then NoneOf(records, 7)
        else exists k: nat :: LastOf(records, 7, k) && records[k].body == [a.port.value / 256, a.port.value % 256])
  }

  /** Why there is no agreement: the first record refused, or else what the records fail to add up to. */
  ghost predicate Disagrees(records: seq<Record>, requested: u16, utf8: seq<byte> -> bool, e: NtsError) {
    || (exists k: nat :: FirstFault(records, k, e, utf8))
    || (AllSound(records, utf8)
        && match e
           case MissingProtocol => NoneOf(records, 1)
           case WrongProtocol => exists k: nat :: LastOf(records, 1, k) && records[k].body != [0, 0]
           case MissingAead => Speaks(records) && NoneOf(records, 4)
           case WrongAead => Speaks(records) && exists k: nat :: LastOf(records, 4, k) && records[k].body != [requested / 256, requested % 256]
           case NoCookies => Speaks(records) && NoneOf(records, 5)
                             && exists k: nat :: LastOf(records, 4, k) && records[k].body == [requested / 256, requested % 256]
           case _ => false)
  }

  /** The last next-protocol record is NTPv4's. */
  ghost predicate Speaks(records: seq<Record>) {
    exists k: nat :: LastOf(records, 1, k) && records[k].body == [0, 0]
  }

  lemma {:induction false} NumberIs(body: seq<byte>, n: u16)
    requires |body| == 2 && n == (body[0] as int) * 256 + body[1]
    ensures body == [n / 256, n % 256]
  {
  }

  lemma {:induction false} NumberIsNot(body: seq<byte>, n: u16)
    requires |body| == 2 && n != (body[0] as int) * 256 + body[1]
    ensures body != [n / 256, n % 256]
  {
  }

  lemma {:induction false} ConcludesRight(records: seq<Record>, b: Bodies, reading: Reading, requested: u16, utf8: seq<byte> -> bool)
    requires AllSound(records, utf8) && Tells(records, b, reading) && Conclude(reading, requested).Ok?
    ensures Agrees(records, requested, utf8, b.cookies, Conclude(reading, requested).value)
  {
    NumberIs(b.protocol.value, 0);
    NumberIs(b.aead.value, requested);
    if b.port.Some? { NumberIs(b.port.value, reading.port.value); }
  }

  lemma {:induction false} ConcludesWrong(records: seq<Record>, b: Bodies, reading: Reading, requested: u16, utf8: seq<byte> -> bool)
    requires AllSound(records, utf8) && Tells(records, b, reading) && Conclude(reading, requested).Err?
    ensures Disagrees(records, requested, utf8, Conclude(reading, requested).error)
  {
    if b.protocol.Some? {
      if reading.nextProtocol == Some(0) {
        NumberIs(b.protocol.value, 0);
        assert Speaks(records);
        if b.aead.Some? {
          if reading.aead == Some(requested) {
            NumberIs(b.aead.value, requested);
            NoCookiesThere(records, b.cookies, reading.cookies);
          } else {
            NumberIsNot(b.aead.value, requested);
          }
        }
      } else {
        NumberIsNot(b.protocol.value, 0);
      }
    }
  }

  lemma {:induction false} NoCookiesThere(records: seq<Record>, which: seq<nat>, cookies: seq<seq<byte>>)
    requires Positions(records, 5, which) && BodiesAt(records, which, cookies) && cookies == []
    ensures NoneOf(records, 5)
  {
    forall k | 0 <= k < |records| ensures KindOf(records[k]) != 5 { assert k !in which; }
  }

  /** Whatever records a server prints, the client ends in an agreement that says exactly what they do, or
      in the reason it does not. */
  lemma {:induction false} AgreementIs(records: seq<Record>, endBody: seq<byte>, requested: u16, utf8: seq<byte> -> bool)
    returns (cookies: seq<nat>)
    requires AllPrintable(records) && |endBody| < 0x1_0000
    ensures match Parsed(Printed(records, endBody), requested, utf8)
            case Ok(agreement) => Agrees(records, requested, utf8, cookies, agreement)
            case Err(e) => Disagrees(records, requested, utf8, e)
  {
    var message := Printed(records, endBody);
    assert message == [] + message;
    PrintThenRead(message, [], records, endBody, NOTHING_READ, utf8);
    var b, k := Meant(records, utf8);
    cookies := b.cookies;
    var said := Said(records, NOTHING_READ, utf8);
    if said.Ok? {
      if Conclude(said.value, requested).Ok? {
        ConcludesRight(records, b, said.value, requested, utf8);
      } else {
        ConcludesWrong(records, b, said.value, requested, utf8);
      }
    }
  }

  // ---------------------------------------------------------------- a response that does not end

  /** Records without the one that ends a message. */
  function Unclosed(records: seq<Record>): seq<byte> {
    if records == [] then [] else RecordBytes(records[0].header, records[0].body) + Unclosed(records[1..])
  }

  lemma {:induction false} ReadsToTheEdge(message: seq<byte>, prefix: seq<byte>, records: seq<Record>, reading: Reading, utf8: seq<byte> -> bool)
    requires message == prefix + Unclosed(records) && AllPrintable(records)
    ensures ReadFrom(message, |prefix|, reading, utf8) ==
            match Said(records, reading, utf8) case Ok(_) => Err(Unended) case Err(e) => Err(e)
    decreases |records|
  {
    if records == [] {
      assert message == prefix;
    } else {
      var r := records[0];
      assert Printable(r);
      RecordReads(message, prefix, r.header, r.body, Unclosed(records[1..]));
      ReadStep(message, |prefix|, r, reading, utf8);
      var applied := Apply(r.header % CRITICAL, r.header >= CRITICAL, r.body, reading, utf8);
      if applied.Ok? {
        ReadsToTheEdge(message, prefix + RecordBytes(r.header, r.body), records[1..], applied.value, utf8);
      }
    }
  }

  /** Whole records with no end after them are reported as unended, unless one of them is refused before. */
  lemma {:induction false} UnendedIs(records: seq<Record>, requested: u16, utf8: seq<byte> -> bool) returns (k: nat)
    requires AllPrintable(records)
    ensures var r := Parsed(Unclosed(records), requested, utf8);
            r.Err? && if AllSound(records, utf8) then r.error == Unended else FirstFault(records, k, r.error, utf8)
  {
    var message := Unclosed(records);
    assert message == [] + message;
    ReadsToTheEdge(message, [], records, NOTHING_READ, utf8);
    var b;
    b, k := Meant(records, utf8);
    if Said(records, NOTHING_READ, utf8).Err? { assert !Sound(records[k], utf8); }
  }
}
