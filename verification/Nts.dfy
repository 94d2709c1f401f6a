/** NTS key establishment: the record protocol, when a response is complete, and what it agrees to. */
module Nts {
  import opened Bytes
  import opened Wire

  const NEXT_PROTOCOL_NTPV4: u16 := 0
  const AEAD_AES_SIV_CMAC_256: u16 := 15
  const CRITICAL: nat := 0x8000

  const END_OF_MESSAGE: u16 := 0
  const NEXT_PROTOCOL: u16 := 1
  const ERROR: u16 := 2
  const WARNING: u16 := 3
  const AEAD_ALGORITHM: u16 := 4
  const NEW_COOKIE: u16 := 5
  const SERVER_NEGOTIATION: u16 := 6
  const PORT_NEGOTIATION: u16 := 7

  function KindAt(message: seq<byte>, offset: nat): u16
    requires offset + 2 <= |message|
  {
    U16At(message, offset) % CRITICAL
  }

  predicate CriticalAt(message: seq<byte>, offset: nat)
    requires offset + 2 <= |message|
  {
    U16At(message, offset) >= CRITICAL
  }

  /** Past the record at `offset`, whether or not its body has arrived. */
  function NextRecord(message: seq<byte>, offset: nat): nat
    requires offset + 4 <= |message|
  {
    offset + 4 + U16At(message, offset + 2)
  }

  /** Where the first end-of-message record begins, if its header has arrived. */
  function EndFrom(message: seq<byte>, offset: nat): (r: Option<nat>)
    ensures r.Some? ==> offset <= r.value && r.value + 4 <= |message| && KindAt(message, r.value) == END_OF_MESSAGE
    decreases |message| - offset
  {
    if offset + 4 > |message| then None
    else if KindAt(message, offset) == END_OF_MESSAGE then Some(offset)
    else EndFrom(message, NextRecord(message, offset))
  }

  /** Is there the header of a record that ends the message? */
  method ResponseComplete(message: seq<byte>) returns (r: bool)
    ensures r <==> EndFrom(message, 0).Some?
  {
    var offset := 0;
    while offset + 4 <= |message|
      invariant EndFrom(message, 0) == EndFrom(message, offset)
      decreases |message| - offset
    {
      if KindAt(message, offset) == END_OF_MESSAGE { return true; }
      offset := NextRecord(message, offset);
    }
    return false;
  }

  /** The outcome of key establishment: the cipher, the cookies, and a redirect if there is one. */
  datatype Agreement = Agreement(aead: u16, cookies: seq<seq<byte>>, server: Option<seq<byte>>, port: Option<u16>)

  datatype NtsError =
    | Truncated | NoNextProtocol | ServerError | ServerWarning | NoAead | BadServer | BadPort | UnknownCritical
    | Unended | WrongProtocol | MissingProtocol | WrongAead | MissingAead | NoCookies

  /** What the records read so far have said. */
  datatype Reading = Reading(
    nextProtocol: Option<u16>, aead: Option<u16>, cookies: seq<seq<byte>>, server: Option<seq<byte>>, port: Option<u16>)

  const NOTHING_READ := Reading(None, None, [], None, None)

  /** One record that is not the end, applied. `utf8` says which byte strings are UTF-8. */
  function Apply(kind: u16, critical: bool, body: seq<byte>, reading: Reading, utf8: seq<byte> -> bool): Result<Reading, NtsError> {
    if kind == NEXT_PROTOCOL then
      if |body| != 2 then Err(NoNextProtocol) else Ok(reading.(nextProtocol := Some(U16At(body, 0))))
    else if kind == ERROR then Err(ServerError)
    else if kind == WARNING then Err(ServerWarning)
    else if kind == AEAD_ALGORITHM then
      if |body| != 2 then Err(NoAead) else Ok(reading.(aead := Some(U16At(body, 0))))
    else if kind == NEW_COOKIE then Ok(reading.(cookies := reading.cookies + [body]))
    else if kind == SERVER_NEGOTIATION then
      if !utf8(body) then Err(BadServer) else Ok(reading.(server := Some(body)))
    else if kind == PORT_NEGOTIATION then
      if |body| != 2 then Err(BadPort) else Ok(reading.(port := Some(U16At(body, 0))))
    else if critical then Err(UnknownCritical)
    else Ok(reading)
  }

  /** The records from `offset` to the end-of-message record. */
  function ReadFrom(message: seq<byte>, offset: nat, reading: Reading, utf8: seq<byte> -> bool): Result<Reading, NtsError>
    decreases |message| - offset
  {
    if offset >= |message| then Err(Unended)
    else if offset + 4 > |message| then Err(Truncated)
    else
      var next := NextRecord(message, offset);
      if next > |message| then Err(Truncated)
      else if KindAt(message, offset) == END_OF_MESSAGE then Ok(reading)
      else
        match Apply(KindAt(message, offset), CriticalAt(message, offset), message[offset + 4..next], reading, utf8)
        case Err(e) => Err(e)
        case Ok(later) => ReadFrom(message, next, later, utf8)
  }

  /** What the records must add up to. */
  function Conclude(reading: Reading, requested: u16): Result<Agreement, NtsError> {
    match reading.nextProtocol
    case None => Err(MissingProtocol)
    case Some(protocol) =>
      if protocol != NEXT_PROTOCOL_NTPV4 then Err(WrongProtocol)
      else
        match reading.aead
        case None => Err(MissingAead)
        case Some(chosen) =>
          if chosen != requested then Err(WrongAead)
          else if reading.cookies == [] then Err(NoCookies)
          else Ok(Agreement(requested, reading.cookies, reading.server, reading.port))
  }

  function Parsed(message: seq<byte>, requested: u16, utf8: seq<byte> -> bool): Result<Agreement, NtsError> {
    match ReadFrom(message, 0, NOTHING_READ, utf8)
    case Err(e) => Err(e)
    case Ok(reading) => Conclude(reading, requested)
  }

  /** Parse a complete response. */
  method ParseResponse(message: seq<byte>, requested: u16, utf8: seq<byte> -> bool) returns (r: Result<Agreement, NtsError>)
    ensures r == Parsed(message, requested, utf8)
  {
    var offset := 0;
    var reading := NOTHING_READ;
    var ended := false;
    while offset < |message| && !ended
      invariant !ended ==> ReadFrom(message, 0, NOTHING_READ, utf8) == ReadFrom(message, offset, reading, utf8)
      invariant ended ==> ReadFrom(message, 0, NOTHING_READ, utf8) == Ok(reading)
      decreases !ended, |message| - offset
    {
      if offset + 4 > |message| { return Err(Truncated); }
      var kind, critical, next := KindAt(message, offset), CriticalAt(message, offset), NextRecord(message, offset);
      if next > |message| { return Err(Truncated); }
      if kind == END_OF_MESSAGE {
        ended := true;
      } else {
        match Apply(kind, critical, message[offset + 4..next], reading, utf8) {
          case Err(e) => return Err(e);
          case Ok(later) => reading := later;
        }
      }
      offset := next;
    }
    if !ended { return Err(Unended); }
    return Conclude(reading, requested);
  }

  // ---------------------------------------------------------------- reading does not depend on the cuts

  lemma {:induction false} Agree(a: seq<byte>, b: seq<byte>, i: nat)
    requires a <= b && i + 2 <= |a|
    ensures U16At(a, i) == U16At(b, i)
  {
  }

  /** More bytes never move the end: a complete response stays complete, at the same record. */
  lemma {:induction false} EndIsStable(a: seq<byte>, b: seq<byte>, offset: nat)
    requires a <= b && EndFrom(a, offset).Some?
    ensures EndFrom(b, offset) == EndFrom(a, offset)
    decreases |a| - offset
  {
    Agree(a, b, offset);
    Agree(a, b, offset + 2);
    if KindAt(a, offset) != END_OF_MESSAGE { EndIsStable(a, b, NextRecord(a, offset)); }
  }

  /** Once the end-of-message record is there in full, no later byte changes what the records say. */
  lemma {:induction false} ReadingIsStable(a: seq<byte>, b: seq<byte>, offset: nat, reading: Reading, utf8: seq<byte> -> bool)
    requires a <= b && EndFrom(a, offset).Some? && NextRecord(a, EndFrom(a, offset).value) <= |a|
    ensures ReadFrom(a, offset, reading, utf8) == ReadFrom(b, offset, reading, utf8)
    decreases |a| - offset
  {
    Agree(a, b, offset);
    Agree(a, b, offset + 2);
    if KindAt(a, offset) != END_OF_MESSAGE {
      var next := NextRecord(a, offset);
      assert a[offset + 4..next] == b[offset + 4..next];
      var applied := Apply(KindAt(a, offset), CriticalAt(a, offset), a[offset + 4..next], reading, utf8);
      if applied.Ok? { ReadingIsStable(a, b, next, applied.value, utf8); }
    }
  }

  /** And until its body is there, the response cannot be read. */
  lemma {:induction false} HalfAnEndFails(a: seq<byte>, offset: nat, reading: Reading, utf8: seq<byte> -> bool)
    requires EndFrom(a, offset).Some? && NextRecord(a, EndFrom(a, offset).value) > |a|
    ensures ReadFrom(a, offset, reading, utf8).Err?
    decreases |a| - offset
  {
    if KindAt(a, offset) != END_OF_MESSAGE && NextRecord(a, offset) <= |a| {
      var next := NextRecord(a, offset);
      var applied := Apply(KindAt(a, offset), CriticalAt(a, offset), a[offset + 4..next], reading, utf8);
      if applied.Ok? { HalfAnEndFails(a, next, applied.value, utf8); }
    }
  }

  /** Whatever reads successfully is complete. */
  lemma {:induction false} ReadMeansComplete(a: seq<byte>, offset: nat, reading: Reading, utf8: seq<byte> -> bool)
    requires ReadFrom(a, offset, reading, utf8).Ok?
    ensures EndFrom(a, offset).Some? && NextRecord(a, EndFrom(a, offset).value) <= |a|
    decreases |a| - offset
  {
    if KindAt(a, offset) != END_OF_MESSAGE {
      var next := NextRecord(a, offset);
      ReadMeansComplete(a, next, Apply(KindAt(a, offset), CriticalAt(a, offset), a[offset + 4..next], reading, utf8).value, utf8);
    }
  }

  /** A stream cut anywhere after the header of its end-of-message record: the same result as the
      whole if that record's body has arrived too, and a failure otherwise. */
  lemma {:induction false} CutResult(a: seq<byte>, b: seq<byte>, requested: u16, utf8: seq<byte> -> bool)
    requires a <= b && EndFrom(a, 0).Some?
    ensures if NextRecord(a, EndFrom(a, 0).value) <= |a|
            then Parsed(a, requested, utf8) == Parsed(b, requested, utf8)
            else Parsed(a, requested, utf8).Err?
  {
    if NextRecord(a, EndFrom(a, 0).value) <= |a| {
      ReadingIsStable(a, b, 0, NOTHING_READ, utf8);
    } else {
      HalfAnEndFails(a, 0, NOTHING_READ, utf8);
    }
  }

  /** So for a stream that reads at all, every cut that counts as complete reads the same exactly when
      the end-of-message record has no body, as the protocol says it must not. */
  lemma {:induction false} CutsDoNotMatterIff(s: seq<byte>, requested: u16, utf8: seq<byte> -> bool)
    requires Parsed(s, requested, utf8).Ok?
    ensures EndFrom(s, 0).Some?
    ensures (forall a :: a <= s && EndFrom(a, 0).Some? ==> Parsed(a, requested, utf8) == Parsed(s, requested, utf8))
       <==> U16At(s, EndFrom(s, 0).value + 2) == 0
  {
    ReadMeansComplete(s, 0, NOTHING_READ, utf8);
    var e := EndFrom(s, 0).value;
    if U16At(s, e + 2) == 0 {
      forall a | a <= s && EndFrom(a, 0).Some? ensures Parsed(a, requested, utf8) == Parsed(s, requested, utf8) {
        EndIsStable(a, s, 0);
        Agree(a, s, e + 2);
        CutResult(a, s, requested, utf8);
      }
    } else {
      var cut := CutBeforeBody(s, requested, utf8);
    }
  }

  /** The cut that matters: after the header of an end-of-message record that has a body. */
  lemma {:induction false} CutBeforeBody(s: seq<byte>, requested: u16, utf8: seq<byte> -> bool) returns (cut: seq<byte>)
    requires EndFrom(s, 0).Some? && U16At(s, EndFrom(s, 0).value + 2) > 0
    ensures cut <= s && EndFrom(cut, 0).Some? && Parsed(cut, requested, utf8).Err?
  {
    var e := EndFrom(s, 0).value;
    cut := s[..e + 4];
    EndInPrefix(s, 0, e + 4);
    Agree(cut, s, e + 2);
    CutResult(cut, s, requested, utf8);
  }

  lemma {:induction false} EndInPrefix(s: seq<byte>, offset: nat, n: nat)
    requires EndFrom(s, offset).Some? && EndFrom(s, offset).value + 4 <= n <= |s|
    ensures EndFrom(s[..n], offset) == EndFrom(s, offset)
    decreases |s| - offset
  {
    Agree(s[..n], s, offset);
    Agree(s[..n], s, offset + 2);
    if KindAt(s, offset) != END_OF_MESSAGE { EndInPrefix(s, NextRecord(s, offset), n); }
  }

  // ---------------------------------------------------------------- how long a cookie can be

  function CookieBytes(cookies: seq<seq<byte>>): nat {
    if cookies == [] then 0 else CookieBytes(cookies[..|cookies| - 1]) + 4 + |cookies[|cookies| - 1]|
  }

  /** The least number of message bytes it takes to have said this much. */
  function Weight(reading: Reading): nat {
    (if reading.nextProtocol.Some? then 6 else 0) + (if reading.aead.Some? then 6 else 0) + CookieBytes(reading.cookies)
  }

  lemma {:induction false} ApplyWeight(kind: u16, critical: bool, body: seq<byte>, reading: Reading, utf8: seq<byte> -> bool)
    requires Apply(kind, critical, body, reading, utf8).Ok?
    ensures Weight(Apply(kind, critical, body, reading, utf8).value) <= Weight(reading) + 4 + |body|
  {
    assert (reading.cookies + [body])[..|reading.cookies|] == reading.cookies;
  }

  lemma {:induction false} ReadWeight(message: seq<byte>, offset: nat, reading: Reading, utf8: seq<byte> -> bool)
    requires ReadFrom(message, offset, reading, utf8).Ok?
    ensures Weight(ReadFrom(message, offset, reading, utf8).value) + 4 <= Weight(reading) + (|message| - offset)
    decreases |message| - offset
  {
    if KindAt(message, offset) != END_OF_MESSAGE {
      var next := NextRecord(message, offset);
      var body := message[offset + 4..next];
      ApplyWeight(KindAt(message, offset), CriticalAt(message, offset), body, reading, utf8);
      ReadWeight(message, next, Apply(KindAt(message, offset), CriticalAt(message, offset), body, reading, utf8).value, utf8);
    }
  }

  lemma {:induction false} CookieWeight(cookies: seq<seq<byte>>, k: nat)
    requires k < |cookies|
    ensures CookieBytes(cookies) >= 4 + |cookies[k]|
  {
    if k < |cookies| - 1 { CookieWeight(cookies[..|cookies| - 1], k); }
  }

  /** The records that must be there beside a cookie leave it at most twenty bytes less than the message. */
  lemma {:induction false} CookieLeavesRoom(message: seq<byte>, requested: u16, utf8: seq<byte> -> bool, k: nat)
    requires Parsed(message, requested, utf8).Ok? && k < |Parsed(message, requested, utf8).value.cookies|
    ensures |Parsed(message, requested, utf8).value.cookies[k]| + 20 <= |message|
  {
    ReadWeight(message, 0, NOTHING_READ, utf8);
    CookieWeight(Parsed(message, requested, utf8).value.cookies, k);
  }

  // ---------------------------------------------------------------- printing, and reading back

  datatype Record = Record(header: u16, body: seq<byte>)

  predicate Printable(r: Record) {
    |r.body| < 0x1_0000 && r.header % CRITICAL != END_OF_MESSAGE
  }

  predicate AllPrintable(records: seq<Record>) {
    records == [] || (Printable(records[0]) && AllPrintable(records[1..]))
  }

  function RecordBytes(header: u16, body: seq<byte>): seq<byte> {
    Be16(header) + Be16(|body|) + body
  }

  /** Records and the end-of-message record after them, whose body the protocol says must be empty. */
  function Printed(records: seq<Record>, endBody: seq<byte> := []): seq<byte> {
    if records == [] then RecordBytes(CRITICAL, endBody)
    else RecordBytes(records[0].header, records[0].body) + Printed(records[1..], endBody)
  }

  /** What a list of records says, one after the other. */
  function Said(records: seq<Record>, reading: Reading, utf8: seq<byte> -> bool): Result<Reading, NtsError> {
    if records == [] then Ok(reading)
    else
      match Apply(records[0].header % CRITICAL, records[0].header >= CRITICAL, records[0].body, reading, utf8)
      case Err(e) => Err(e)
      case Ok(later) => Said(records[1..], later, utf8)
  }

  lemma {:induction false} RecordReads(message: seq<byte>, prefix: seq<byte>, header: u16, body: seq<byte>, rest: seq<byte>)
    requires message == prefix + (RecordBytes(header, body) + rest) && |body| < 0x1_0000
    ensures |message| == |prefix| + 4 + |body| + |rest|
    ensures U16At(message, |prefix|) == header && U16At(message, |prefix| + 2) == |body|
    ensures message[|prefix| + 4..|prefix| + 4 + |body|] == body
    ensures message == prefix + RecordBytes(header, body) + rest
  {
    assert message[|prefix|..|prefix| + 2] == Be16(header);
    assert message[|prefix| + 2..|prefix| + 4] == Be16(|body|);
    Be16ReadsBack(message, |prefix|, header);
    Be16ReadsBack(message, |prefix| + 2, |body|);
  }

  lemma {:induction false} ReadStep(message: seq<byte>, offset: nat, r: Record, reading: Reading, utf8: seq<byte> -> bool)
    requires Printable(r) && offset + 4 + |r.body| <= |message|
    requires U16At(message, offset) == r.header && U16At(message, offset + 2) == |r.body|
    requires message[offset + 4..offset + 4 + |r.body|] == r.body
    ensures ReadFrom(message, offset, reading, utf8) ==
            match Apply(r.header % CRITICAL, r.header >= CRITICAL, r.body, reading, utf8)
            case Ok(later) => ReadFrom(message, offset + 4 + |r.body|, later, utf8)
            case Err(e) => Err(e)
  {
  }

  /** Reading back what a server printed says exactly what its records say, in order. */
  lemma {:induction false} PrintThenRead(message: seq<byte>, prefix: seq<byte>, records: seq<Record>, endBody: seq<byte>,
                                         reading: Reading, utf8: seq<byte> -> bool)
    requires message == prefix + Printed(records, endBody)
    requires AllPrintable(records) && |endBody| < 0x1_0000
    ensures ReadFrom(message, |prefix|, reading, utf8) == Said(records, reading, utf8)
    decreases |records|
  {
    if records == [] {
      assert message == prefix + (RecordBytes(CRITICAL, endBody) + []);
      RecordReads(message, prefix, CRITICAL, endBody, []);
    } else {
      var r := records[0];
      assert Printable(r);
      RecordReads(message, prefix, r.header, r.body, Printed(records[1..], endBody));
      ReadStep(message, |prefix|, r, reading, utf8);
      var applied := Apply(r.header % CRITICAL, r.header >= CRITICAL, r.body, reading, utf8);
      if applied.Ok? {
        PrintThenRead(message, prefix + RecordBytes(r.header, r.body), records[1..], endBody, applied.value, utf8);
      }
    }
  }

  lemma {:induction false} EndFits(message: seq<byte>, offset: nat, header: u16, body: seq<byte>, next: nat)
    requires next == offset + 4 + |body| <= |message|
    requires U16At(message, offset) == header && U16At(message, offset + 2) == |body|
    ensures EndFrom(message, offset) == if header % CRITICAL == END_OF_MESSAGE then Some(offset) else EndFrom(message, next)
  {
  }

  lemma {:induction false} EndAtRecord(message: seq<byte>, prefix: seq<byte>, header: u16, body: seq<byte>, rest: seq<byte>)
    requires message == prefix + (RecordBytes(header, body) + rest) && |body| < 0x1_0000
    ensures var next := |prefix| + |RecordBytes(header, body)|;
            EndFrom(message, |prefix|) == if header % CRITICAL == END_OF_MESSAGE then Some(|prefix|) else EndFrom(message, next)
    ensures message == prefix + RecordBytes(header, body) + rest
    ensures |message| >= |prefix| + 4 && U16At(message, |prefix| + 2) == |body|
  {
    RecordReads(message, prefix, header, body, rest);
    EndFits(message, |prefix|, header, body, |prefix| + |RecordBytes(header, body)|);
  }
}
