/** The part of the DNS message format that finding a host's addresses takes: encoding a question,
    skipping names with compression pointers, and reading the answers. */
module Dns {
  import opened Bytes
  import opened Wire

  const TYPE_A: u16 := 1
  const TYPE_AAAA: u16 := 28
  const CLASS_IN: u16 := 1
  const MAX_JUMPS: nat := 64
  const DOT: byte := 46

  datatype DnsError =
    | LabelTooLong
    | Truncated | LabelPast | PointerLimit | PointerPast | Reserved
    | Short | WrongId | NotAResponse | TruncatedAnswer | Rcode(code: nat) | QuestionPast | DataPast
    | BadLength(length: nat) | NoAddresses

  // ---------------------------------------------------------------- names

  /** Where a name ends that starts at `offset`: after its terminator, or after its first pointer. */
  function SkipFrom(message: seq<byte>, offset: nat, jumps: nat, after: Option<nat>): Result<nat, DnsError>
    requires jumps <= MAX_JUMPS
    decreases MAX_JUMPS - jumps, |message| - offset
  {
    if offset >= |message| then Err(Truncated)
    else
      var length := message[offset];
      if length == 0 then Ok(if after.Some? then after.value else offset + 1)
      else if length < 64 then
        if offset + 1 + length > |message| then Err(LabelPast) else SkipFrom(message, offset + 1 + length, jumps, after)
      else if length >= 192 then
        if offset + 2 > |message| then Err(Truncated)
        else
          var pointer := U16At(message, offset) % 0x4000;
          if jumps + 1 > MAX_JUMPS then Err(PointerLimit)
          else if pointer >= |message| then Err(PointerPast)
          else SkipFrom(message, pointer, jumps + 1, if after.Some? then after else Some(offset + 2))
      else Err(Reserved)
  }

  /** The loop, and how many turns it can take at most. */
  method SkipName(message: seq<byte>, start: nat) returns (r: Result<nat, DnsError>, ghost turns: nat)
    ensures r == SkipFrom(message, start, 0, None)
    ensures turns <= (MAX_JUMPS + 1) * (|message| + 1)
  {
    var offset: nat, jumps: nat, after: Option<nat> := start, 0, None;
    turns := 0;
    while true
      invariant jumps <= MAX_JUMPS
      invariant SkipFrom(message, start, 0, None) == SkipFrom(message, offset, jumps, after)
      invariant offset <= |message| || turns == 0
      invariant turns == 0 || turns <= Budget(jumps, |message| + 1) + offset
      decreases MAX_JUMPS - jumps, |message| - offset
    {
      BudgetFits(jumps + 1, MAX_JUMPS + 1, |message| + 1);
      turns := turns + 1;
      if offset >= |message| { return Err(Truncated), turns; }
      var length := message[offset];
      if length == 0 {
        return Ok(if after.Some? then after.value else offset + 1), turns;
      } else if length < 64 {
        offset := offset + 1 + length;
        if offset > |message| { return Err(LabelPast), turns; }
      } else if length >= 192 {
        if offset + 2 > |message| { return Err(Truncated), turns; }
        var pointer := U16At(message, offset) % 0x4000;
        if after.None? { after := Some(offset + 2); }
        if jumps + 1 > MAX_JUMPS { return Err(PointerLimit), turns; }
        jumps := jumps + 1;
        if pointer >= |message| { return Err(PointerPast), turns; }
        offset := pointer;
      } else {
        return Err(Reserved), turns;
      }
    }
  }

  function Budget(runs: nat, n: nat): nat {
    if runs == 0 then 0 else Budget(runs - 1, n) + n
  }

  lemma {:induction false} BudgetFits(a: nat, b: nat, n: nat)
    requires a <= b
    ensures Budget(a, n) <= Budget(b, n) == b * n
  {
    if b > 0 { BudgetFits(if a < b then a else b - 1, b - 1, n); }
  }

  /** The position just past a name, read off its literal labels up to the terminator or first pointer. */
  function LiteralEnd(message: seq<byte>, offset: nat): Option<nat>
    decreases |message| - offset
  {
    if offset >= |message| then None
    else if message[offset] == 0 then Some(offset + 1)
    else if message[offset] < 64 then LiteralEnd(message, offset + 1 + message[offset])
    else if message[offset] >= 192 && offset + 2 <= |message| then Some(offset + 2)
    else None
  }

  lemma {:induction false} AfterIsKept(message: seq<byte>, offset: nat, jumps: nat, after: nat)
    requires jumps <= MAX_JUMPS && SkipFrom(message, offset, jumps, Some(after)).Ok?
    ensures SkipFrom(message, offset, jumps, Some(after)) == Ok(after)
    decreases MAX_JUMPS - jumps, |message| - offset
  {
    var length := message[offset];
    if 0 < length < 64 {
      AfterIsKept(message, offset + 1 + length, jumps, after);
    } else if length >= 192 {
      AfterIsKept(message, U16At(message, offset) % 0x4000, jumps + 1, after);
    }
  }

  /** However far the pointers lead, the cursor moves forward, stays inside, and is where the literal
      part of the name ends. */
  lemma {:induction false} SkipEndsAtLiteral(message: seq<byte>, offset: nat)
    requires SkipFrom(message, offset, 0, None).Ok?
    ensures LiteralEnd(message, offset) == Some(SkipFrom(message, offset, 0, None).value)
    ensures offset < SkipFrom(message, offset, 0, None).value <= |message|
    decreases |message| - offset
  {
    var length := message[offset];
    if 0 < length < 64 {
      SkipEndsAtLiteral(message, offset + 1 + length);
    } else if length >= 192 {
      AfterIsKept(message, U16At(message, offset) % 0x4000, 1, offset + 2);
    }
  }

  /** A pointer that leads back to itself is refused, not followed for ever. */
  lemma {:induction false} SelfPointerRefused(message: seq<byte>, offset: nat, jumps: nat, after: Option<nat>)
    requires jumps <= MAX_JUMPS && offset + 2 <= |message| && message[offset] >= 192
    requires U16At(message, offset) % 0x4000 == offset
    ensures SkipFrom(message, offset, jumps, after) == Err(PointerLimit)
    decreases MAX_JUMPS - jumps
  {
    if jumps < MAX_JUMPS { SelfPointerRefused(message, offset, jumps + 1, if after.Some? then after else Some(offset + 2)); }
  }

  // ---------------------------------------------------------------- the question

  /** The non-empty pieces of a name between its dots. */
  function Labels(name: seq<byte>): seq<seq<byte>> {
    LabelsFrom(name, [])
  }

  function LabelsFrom(name: seq<byte>, piece: seq<byte>): seq<seq<byte>> {
    if name == [] then (if piece == [] then [] else [piece])
    else if name[0] == DOT then (if piece == [] then [] else [piece]) + LabelsFrom(name[1..], [])
    else LabelsFrom(name[1..], piece + [name[0]])
  }

  predicate AllFit(labels: seq<seq<byte>>) {
    labels == [] || (|labels[0]| <= 63 && AllFit(labels[1..]))
  }

  function NameBytes(labels: seq<seq<byte>>): seq<byte>
    requires AllFit(labels)
  {
    if labels == [] then [0] else [|labels[0]|] + labels[0] + NameBytes(labels[1..])
  }

  function QueryHeader(id: u16): seq<byte> {
    Be16(id) + Be16(0x0100) + Be16(1) + Fill(6)
  }

  function EncodedQuery(id: u16, name: seq<byte>, qtype: u16): Result<seq<byte>, DnsError> {
    if !AllFit(Labels(name)) then Err(LabelTooLong)
    else Ok(QueryHeader(id) + NameBytes(Labels(name)) + Be16(qtype) + Be16(CLASS_IN))
  }

  /** The labels written out, before the terminator. */
  function Pieces(labels: seq<seq<byte>>): seq<byte>
    requires AllFit(labels)
  {
    if labels == [] then [] else [|labels[0]|] + labels[0] + Pieces(labels[1..])
  }

  lemma {:induction false} PiecesThenZero(labels: seq<seq<byte>>)
    requires AllFit(labels)
    ensures NameBytes(labels) == Pieces(labels) + [0]
  {
    if labels != [] { PiecesThenZero(labels[1..]); }
  }

  lemma {:induction false} PiecesSnoc(labels: seq<seq<byte>>, piece: seq<byte>)
    requires AllFit(labels)
    ensures AllFit(labels + [piece]) <==> |piece| <= 63
    ensures |piece| <= 63 ==> Pieces(labels + [piece]) == Pieces(labels) + ([|piece|] + piece)
  {
    var all := labels + [piece];
    if labels == [] {
      assert |all[1..]| == 0;
    } else {
      assert all[1..] == labels[1..] + [piece];
      PiecesSnoc(labels[1..], piece);
    }
  }

  lemma {:induction false} FitInPrefix(labels: seq<seq<byte>>, n: nat)
    requires AllFit(labels) && n <= |labels|
    ensures AllFit(labels[..n])
  {
    if n > 0 {
      assert labels[..n][1..] == labels[1..][..n - 1];
      FitInPrefix(labels[1..], n - 1);
    }
  }

  /** Write the question, label by label. */
  method EncodeQuery(id: u16, name: seq<byte>, qtype: u16) returns (r: Result<seq<byte>, DnsError>)
    ensures r == EncodedQuery(id, name, qtype)
  {
    var out := QueryHeader(id);
    var labels := Labels(name);
    for i := 0 to |labels|
      invariant AllFit(labels[..i]) && out == QueryHeader(id) + Pieces(labels[..i])
    {
      var piece := labels[i];
      assert labels[..i + 1] == labels[..i] + [piece];
      PiecesSnoc(labels[..i], piece);
      if |piece| > 63 {
        if AllFit(labels) { FitInPrefix(labels, i + 1); }
        return Err(LabelTooLong);
      }
      out := out + ([|piece|] + piece);
    }
    assert labels[..|labels|] == labels;
    PiecesThenZero(labels);
    assert out + [0] == QueryHeader(id) + NameBytes(labels);
    return Ok(out + [0] + Be16(qtype) + Be16(CLASS_IN));
  }

  /** Labels that are neither empty nor too long to write. */
  predicate Writable(labels: seq<seq<byte>>) {
    labels == [] || (1 <= |labels[0]| <= 63 && Writable(labels[1..]))
  }

  lemma {:induction false} WritableFits(labels: seq<seq<byte>>)
    requires Writable(labels)
    ensures AllFit(labels)
  {
    if labels != [] { WritableFits(labels[1..]); }
  }

  lemma {:induction false} LabelsAreNotEmpty(name: seq<byte>, piece: seq<byte>)
    ensures forall k :: 0 <= k < |LabelsFrom(name, piece)| ==> LabelsFrom(name, piece)[k] != []
    decreases |name|
  {
    if name != [] {
      if name[0] == DOT { LabelsAreNotEmpty(name[1..], []); } else { LabelsAreNotEmpty(name[1..], piece + [name[0]]); }
    }
  }

  lemma {:induction false} FitAndNotEmpty(labels: seq<seq<byte>>)
    requires AllFit(labels) && forall k :: 0 <= k < |labels| ==> labels[k] != []
    ensures Writable(labels)
  {
    if labels != [] {
      assert labels[0] != [];
      FitAndNotEmpty(labels[1..]);
    }
  }

  lemma {:induction false} NameStep(message: seq<byte>, prefix: seq<byte>, piece: seq<byte>, rest: seq<byte>)
    requires message == prefix + ([|piece|] + piece + rest) && |piece| <= 63
    ensures |prefix| < |message| && message[|prefix|] == |piece|
    ensures |prefix| + 1 + |piece| <= |message|
    ensures message == (prefix + ([|piece|] + piece)) + rest
  {
  }

  /** A name written from labels is skipped exactly, whatever follows it, and by way of a pointer too. */
  lemma {:induction false} SkipsWritten(message: seq<byte>, prefix: seq<byte>, labels: seq<seq<byte>>, rest: seq<byte>, jumps: nat, after: Option<nat>)
    requires jumps <= MAX_JUMPS && Writable(labels) && AllFit(labels) && message == prefix + (NameBytes(labels) + rest)
    ensures SkipFrom(message, |prefix|, jumps, after) == Ok(if after.Some? then after.value else |prefix| + |NameBytes(labels)|)
    decreases |labels|
  {
    if labels == [] {
      assert message[|prefix|] == 0;
    } else {
      var piece := labels[0];
      var more := NameBytes(labels[1..]);
      assert NameBytes(labels) + rest == [|piece|] + piece + (more + rest);
      NameStep(message, prefix, piece, more + rest);
      SkipsWritten(message, prefix + ([|piece|] + piece), labels[1..], rest, jumps, after);
    }
  }

  /** The name of an encoded question is skipped exactly, to its type and class. */
  lemma {:induction false} QuestionIsSkipped(id: u16, name: seq<byte>, qtype: u16)
    requires EncodedQuery(id, name, qtype).Ok?
    ensures var query := EncodedQuery(id, name, qtype).value;
            SkipFrom(query, 12, 0, None) == Ok(|query| - 4)
  {
    var query := EncodedQuery(id, name, qtype).value;
    var labels := Labels(name);
    LabelsAreNotEmpty(name, []);
    FitAndNotEmpty(labels);
    assert query == QueryHeader(id) + (NameBytes(labels) + (Be16(qtype) + Be16(CLASS_IN)));
    SkipsWritten(query, QueryHeader(id), labels, Be16(qtype) + Be16(CLASS_IN), 0, None);
  }

  // ---------------------------------------------------------------- the answer

  /** What a record of the Internet class contributes: an address of the asked type, nothing, or a fault. */
  function Contribution(rtype: u16, rclass: u16, data: seq<byte>, qtype: u16): Result<seq<Address>, DnsError> {
    if rclass != CLASS_IN then Ok([])
    else if rtype == TYPE_A && qtype == TYPE_A then (if |data| == 4 then Ok([V4(data)]) else Err(BadLength(|data|)))
    else if rtype == TYPE_AAAA && qtype == TYPE_AAAA then (if |data| == 16 then Ok([V6(data)]) else Err(BadLength(|data|)))
    else Ok([])
  }

  /** One answer record: where it ends, and what it contributes. */
  function RecordAt(message: seq<byte>, offset: nat, qtype: u16): Result<(nat, seq<Address>), DnsError> {
    match SkipFrom(message, offset, 0, None)
    case Err(e) => Err(e)
    case Ok(at) =>
      if at + 10 > |message| then Err(Truncated)
      else
        var length := U16At(message, at + 8);
        if at + 10 + length > |message| then Err(DataPast)
        else
          match Contribution(U16At(message, at), U16At(message, at + 2), message[at + 10..at + 10 + length], qtype)
          case Err(e) => Err(e)
          case Ok(addresses) => Ok((at + 10 + length, addresses))
  }

  function AnswersFrom(message: seq<byte>, offset: nat, count: nat, qtype: u16): Result<seq<Address>, DnsError>
    decreases count
  {
    if count == 0 then Ok([])
    else
      match RecordAt(message, offset, qtype)
      case Err(e) => Err(e)
      case Ok((next, addresses)) => Before(addresses, AnswersFrom(message, next, count - 1, qtype))
  }

  function Before(found: seq<Address>, rest: Result<seq<Address>, DnsError>): Result<seq<Address>, DnsError> {
    if rest.Ok? then Ok(found + rest.value) else rest
  }

  function QuestionsFrom(message: seq<byte>, offset: nat, count: nat): Result<nat, DnsError>
    decreases count
  {
    if count == 0 then Ok(offset)
    else
      match SkipFrom(message, offset, 0, None)
      case Err(e) => Err(e)
      case Ok(at) => if at + 4 > |message| then Err(QuestionPast) else QuestionsFrom(message, at + 4, count - 1)
  }

  function CheckHeader(message: seq<byte>, id: u16): Result<(), DnsError> {
    if |message| < 12 then Err(Short)
    else if U16At(message, 0) != id then Err(WrongId)
    else
      var flags := U16At(message, 2);
      if flags < 0x8000 then Err(NotAResponse)
      else if flags / 0x0200 % 2 == 1 then Err(TruncatedAnswer)
      else if flags % 16 != 0 then Err(Rcode(flags % 16))
      else Ok(())
  }

  /** What a whole response says: a header that fits the query, questions to skip, and answers. */
  function Parsed(message: seq<byte>, id: u16, qtype: u16): Result<seq<Address>, DnsError> {
    match CheckHeader(message, id)
    case Err(e) => Err(e)
    case Ok(_) =>
      match QuestionsFrom(message, 12, U16At(message, 4))
      case Err(e) => Err(e)
      case Ok(offset) =>
        match AnswersFrom(message, offset, U16At(message, 6), qtype)
        case Err(e) => Err(e)
        case Ok(found) => if found == [] then Err(NoAddresses) else Ok(found)
  }

  method ReadQuestions(message: seq<byte>, start: nat, count: nat) returns (r: Result<nat, DnsError>)
    ensures r == QuestionsFrom(message, start, count)
  {
    var offset := start;
    for i := 0 to count
      invariant QuestionsFrom(message, start, count) == QuestionsFrom(message, offset, count - i)
    {
      var skipped, _ := SkipName(message, offset);
      match skipped {
        case Err(e) => return Err(e);
        case Ok(at) => offset := at + 4;
      }
      if offset > |message| { return Err(QuestionPast); }
    }
    return Ok(offset);
  }

  method ReadRecord(message: seq<byte>, offset: nat, qtype: u16) returns (r: Result<(nat, seq<Address>), DnsError>)
    ensures r == RecordAt(message, offset, qtype)
  {
    var skipped, _ := SkipName(message, offset);
    if skipped.Err? { return Err(skipped.error); }
    var at := skipped.value;
    if at + 10 > |message| { return Err(Truncated); }
    var length := U16At(message, at + 8);
    if at + 10 + length > |message| { return Err(DataPast); }
    match Contribution(U16At(message, at), U16At(message, at + 2), message[at + 10..at + 10 + length], qtype) {
      case Err(e) => return Err(e);
      case Ok(addresses) => return Ok((at + 10 + length, addresses));
    }
  }

  lemma {:induction false} BeforeTwice(a: seq<Address>, b: seq<Address>, rest: Result<seq<Address>, DnsError>)
    ensures Before(a, Before(b, rest)) == Before(a + b, rest)
  {
    if rest.Ok? { assert a + (b + rest.value) == a + b + rest.value; }
  }

  method ReadAnswers(message: seq<byte>, start: nat, count: nat, qtype: u16) returns (r: Result<seq<Address>, DnsError>)
    ensures r == AnswersFrom(message, start, count, qtype)
  {
    var offset := start;
    var found: seq<Address> := [];
    assert forall rest: seq<Address> :: found + rest == rest;
    for i := 0 to count
      invariant AnswersFrom(message, start, count, qtype) == Before(found, AnswersFrom(message, offset, count - i, qtype))
    {
      var record := ReadRecord(message, offset, qtype);
      match record {
        case Err(e) => return Err(e);
        case Ok((next, addresses)) =>
          BeforeTwice(found, addresses, AnswersFrom(message, next, count - i - 1, qtype));
          offset := next;
          found := found + addresses;
      }
    }
    assert found + [] == found;
    return Ok(found);
  }

  method ParseResponse(message: seq<byte>, id: u16, qtype: u16) returns (r: Result<seq<Address>, DnsError>)
    ensures r == Parsed(message, id, qtype)
  {
    match CheckHeader(message, id) {
      case Err(e) => return Err(e);
      case Ok(_) =>
    }
    var offset := ReadQuestions(message, 12, U16At(message, 4));
    if offset.Err? { return Err(offset.error); }
    var found := ReadAnswers(message, offset.value, U16At(message, 6), qtype);
    if found.Ok? && found.value == [] { return Err(NoAddresses); }
    return found;
  }

  // ---------------------------------------------------------------- a response written and read back

  /** The owner of a record: spelled out, or a pointer to the name of the question. */
  datatype Owner = Literal(labels: seq<seq<byte>>) | QuestionName

  datatype Record = Record(owner: Owner, rtype: u16, rclass: u16, ttl: seq<byte>, data: seq<byte>)

  predicate Printable(r: Record) {
    |r.ttl| == 4 && |r.data| < 0x1_0000 && (r.owner.Literal? ==> Writable(r.owner.labels) && AllFit(r.owner.labels))
  }

  predicate AllPrintable(records: seq<Record>) {
    records == [] || (Printable(records[0]) && AllPrintable(records[1..]))
  }

  function OwnerBytes(owner: Owner): seq<byte>
    requires owner.Literal? ==> AllFit(owner.labels)
  {
    if owner.Literal? then NameBytes(owner.labels) else [0xC0, 12]
  }

  function TailBytes(r: Record): seq<byte> {
    Be16(r.rtype) + Be16(r.rclass) + r.ttl + Be16(|r.data|) + r.data
  }

  function Printed(records: seq<Record>): seq<byte>
    requires AllPrintable(records)
  {
    if records == [] then [] else OwnerBytes(records[0].owner) + (TailBytes(records[0]) + Printed(records[1..]))
  }

  /** The addresses a list of records carries, in order; a fault if one has the wrong length. */
  function Carried(records: seq<Record>, qtype: u16): Result<seq<Address>, DnsError> {
    if records == [] then Ok([])
    else Along(Contribution(records[0].rtype, records[0].rclass, records[0].data, qtype), Carried(records[1..], qtype))
  }

  /** What one record contributes, before what the rest do. */
  function Along(c: Result<seq<Address>, DnsError>, rest: Result<seq<Address>, DnsError>): Result<seq<Address>, DnsError> {
    if c.Ok? then Before(c.value, rest) else c
  }

  function ResponseHeader(id: u16, answers: nat): (r: seq<byte>)
    ensures |r| == 12
  {
    Be16(id) + Be16(0x8180) + Be16(1) + Be16(answers) + Fill(4)
  }

  function Response(id: u16, labels: seq<seq<byte>>, qtype: u16, records: seq<Record>): seq<byte>
    requires AllFit(labels) && AllPrintable(records)
  {
    ResponseHeader(id, |records|) + (NameBytes(labels) + (Be16(qtype) + Be16(CLASS_IN) + Printed(records)))
  }

  /** A name that can be skipped lies at byte twelve. */
  ghost predicate NameAt12(message: seq<byte>) {
    12 < |message| && forall after: nat :: SkipFrom(message, 12, 1, Some(after)) == Ok(after)
  }

  lemma {:induction false} PointerBytes(message: seq<byte>, prefix: seq<byte>, rest: seq<byte>)
    requires message == prefix + ([0xC0, 12] + rest)
    ensures |prefix| + 2 <= |message| && message[|prefix|] == 0xC0 && U16At(message, |prefix|) == 0xC00C
  {
  }

  lemma {:induction false} PointerSkips(message: seq<byte>, offset: nat)
    requires NameAt12(message)
    requires offset + 2 <= |message| && message[offset] == 0xC0 && U16At(message, offset) == 0xC00C
    ensures SkipFrom(message, offset, 0, None) == Ok(offset + 2)
  {
    var after := offset + 2;
    assert SkipFrom(message, 12, 1, Some(after)) == Ok(after);
  }

  lemma {:induction false} OwnerIsSkipped(message: seq<byte>, prefix: seq<byte>, owner: Owner, rest: seq<byte>, end: nat)
    requires owner.Literal? ==> Writable(owner.labels) && AllFit(owner.labels)
    requires NameAt12(message) && message == prefix + (OwnerBytes(owner) + rest) && end == |prefix| + |OwnerBytes(owner)|
    ensures SkipFrom(message, |prefix|, 0, None) == Ok(end)
  {
    if owner.Literal? {
      SkipsWritten(message, prefix, owner.labels, rest, 0, None);
    } else {
      PointerBytes(message, prefix, rest);
      PointerSkips(message, |prefix|);
    }
  }

  lemma {:induction false} TailReads(message: seq<byte>, prefix: seq<byte>, r: Record, rest: seq<byte>)
    requires Printable(r) && message == prefix + (TailBytes(r) + rest)
    ensures var at := |prefix|;
            && at + 10 + |r.data| <= |message|
            && U16At(message, at) == r.rtype && U16At(message, at + 2) == r.rclass && U16At(message, at + 8) == |r.data|
            && message[at + 10..at + 10 + |r.data|] == r.data
            && message == prefix + TailBytes(r) + rest && |TailBytes(r)| == 10 + |r.data|
  {
    var at := |prefix|;
    assert message[at..at + 2] == Be16(r.rtype);
    assert message[at + 2..at + 4] == Be16(r.rclass);
    assert message[at + 8..at + 10] == Be16(|r.data|);
    Be16ReadsBack(message, at, r.rtype);
    Be16ReadsBack(message, at + 2, r.rclass);
    Be16ReadsBack(message, at + 8, |r.data|);
  }

  /** A record read: what it contributes, and where the next one starts. */
  function Reached(c: Result<seq<Address>, DnsError>, next: nat): Result<(nat, seq<Address>), DnsError> {
    match c
    case Err(e) => Err(e)
    case Ok(addresses) => Ok((next, addresses))
  }

  lemma {:induction false} RecordReads(message: seq<byte>, prefix: seq<byte>, r: Record, rest: seq<byte>, qtype: u16)
    requires Printable(r) && NameAt12(message)
    requires message == prefix + (OwnerBytes(r.owner) + (TailBytes(r) + rest))
    ensures RecordAt(message, |prefix|, qtype) ==
            Reached(Contribution(r.rtype, r.rclass, r.data, qtype), |prefix| + |OwnerBytes(r.owner)| + |TailBytes(r)|)
  {
    OwnerIsSkipped(message, prefix, r.owner, TailBytes(r) + rest, |prefix| + |OwnerBytes(r.owner)|);
    var longer := prefix + OwnerBytes(r.owner);
    assert message == longer + (TailBytes(r) + rest);
    TailReads(message, longer, r, rest);
    RecordFrom(message, |prefix|, |longer|, r, qtype);
  }

  lemma {:induction false} RecordFrom(message: seq<byte>, offset: nat, at: nat, r: Record, qtype: u16)
    requires SkipFrom(message, offset, 0, None) == Ok(at) && at + 10 + |r.data| <= |message|
    requires U16At(message, at) == r.rtype && U16At(message, at + 2) == r.rclass && U16At(message, at + 8) == |r.data|
    requires message[at + 10..at + 10 + |r.data|] == r.data
    ensures RecordAt(message, offset, qtype) ==
            Reached(Contribution(r.rtype, r.rclass, r.data, qtype), at + 10 + |r.data|)
  {
  }

  lemma {:induction false} AnswersStep(message: seq<byte>, offset: nat, count: nat, qtype: u16, c: Result<seq<Address>, DnsError>, next: nat)
    requires RecordAt(message, offset, qtype) == Reached(c, next)
    ensures AnswersFrom(message, offset, count + 1, qtype) == Along(c, AnswersFrom(message, next, count, qtype))
  {
  }

  /** The first of the records printed at `at`, and where the rest are. */
  lemma {:induction false} OneAnswer(message: seq<byte>, at: nat, records: seq<Record>, qtype: u16) returns (next: nat)
    requires records != [] && AllPrintable(records) && NameAt12(message) && at <= |message| && message[at..] == Printed(records)
    ensures next <= |message| && message[next..] == Printed(records[1..])
    ensures AnswersFrom(message, at, |records|, qtype)
         == Along(Contribution(records[0].rtype, records[0].rclass, records[0].data, qtype),
                  AnswersFrom(message, next, |records| - 1, qtype))
  {
    var r, rest := records[0], Printed(records[1..]);
    var prefix := message[..at];
    assert message == prefix + (OwnerBytes(r.owner) + (TailBytes(r) + rest));
    next := |prefix| + |OwnerBytes(r.owner)| + |TailBytes(r)|;
    Regroup(prefix, OwnerBytes(r.owner), TailBytes(r), rest);
    assert message[next..] == rest;
    RecordReads(message, prefix, r, rest, qtype);
    AnswersStep(message, at, |records| - 1, qtype, Contribution(r.rtype, r.rclass, r.data, qtype), next);
  }

  lemma {:induction false} AnswersRead(message: seq<byte>, at: nat, records: seq<Record>, qtype: u16)
    requires AllPrintable(records) && NameAt12(message) && at <= |message| && message[at..] == Printed(records)
    ensures AnswersFrom(message, at, |records|, qtype) == Carried(records, qtype)
    decreases |records|
  {
    if records != [] {
      var next := OneAnswer(message, at, records, qtype);
      AnswersRead(message, next, records[1..], qtype);
      CarriedStep(records, qtype, AnswersFrom(message, at, |records|, qtype), AnswersFrom(message, next, |records| - 1, qtype));
    }
  }

  lemma {:induction false} CarriedStep(records: seq<Record>, qtype: u16, all: Result<seq<Address>, DnsError>, tail: Result<seq<Address>, DnsError>)
    requires records != [] && tail == Carried(records[1..], qtype)
    requires all == Along(Contribution(records[0].rtype, records[0].rclass, records[0].data, qtype), tail)
    ensures all == Carried(records, qtype)
  {
  }

  lemma {:induction false} Regroup(a: seq<byte>, b: seq<byte>, c: seq<byte>, d: seq<byte>)
    ensures a + (b + (c + d)) == a + b + c + d
  {
  }

  lemma {:induction false} QuestionReads(message: seq<byte>, header: seq<byte>, labels: seq<seq<byte>>, tail: seq<byte>, rest: seq<byte>)
    requires |header| == 12 && |tail| == 4 && Writable(labels) && AllFit(labels)
    requires message == header + (NameBytes(labels) + (tail + rest))
    ensures NameAt12(message)
    ensures QuestionsFrom(message, 12, 1) == Ok(|header + NameBytes(labels) + tail|)
    ensures message == header + NameBytes(labels) + tail + rest
  {
    SkipsWritten(message, header, labels, tail + rest, 0, None);
    forall after: nat ensures SkipFrom(message, 12, 1, Some(after)) == Ok(after) {
      SkipsWritten(message, header, labels, tail + rest, 1, Some(after));
    }
    Regroup(header, NameBytes(labels), tail, rest);
    var at := 12 + |NameBytes(labels)|;
    assert QuestionsFrom(message, at + 4, 0) == Ok(at + 4);
  }

  lemma {:induction false} HeaderReads(message: seq<byte>, id: u16, answers: nat)
    requires |message| >= 12 && message[..12] == ResponseHeader(id, answers) && answers < 0x1_0000
    ensures CheckHeader(message, id) == Ok(()) && U16At(message, 4) == 1 && U16At(message, 6) == answers
  {
    var h := ResponseHeader(id, answers);
    assert forall i :: 0 <= i < 12 ==> message[i] == message[..12][i] == h[i];
    assert message[0..2] == Be16(id) && message[2..4] == Be16(0x8180) && message[4..6] == Be16(1) && message[6..8] == Be16(answers);
    Be16ReadsBack(message, 0, id);
    Be16ReadsBack(message, 2, 0x8180);
    Be16ReadsBack(message, 4, 1);
    Be16ReadsBack(message, 6, answers);
  }

  /** Reading a response written from any list of records, with owners spelled out or compressed,
      gives exactly the addresses they carry, in order. */
  lemma {:induction false} ResponseReads(id: u16, labels: seq<seq<byte>>, qtype: u16, records: seq<Record>)
    requires Writable(labels) && AllFit(labels) && AllPrintable(records) && |records| < 0x1_0000
    ensures Parsed(Response(id, labels, qtype, records), id, qtype) ==
            match Carried(records, qtype)
            case Err(e) => Err(e)
            case Ok(found) => if found == [] then Err(NoAddresses) else Ok(found)
  {
    var message := Response(id, labels, qtype, records);
    var header, tail := ResponseHeader(id, |records|), Be16(qtype) + Be16(CLASS_IN);
    assert message[..12] == header;
    HeaderReads(message, id, |records|);
    QuestionReads(message, header, labels, tail, Printed(records));
    AnswersRead(message, |header + NameBytes(labels) + tail|, records, qtype);
  }

  // ---------------------------------------------------------------- what comes out of a response

  /** Increasing positions in a list of records, each with an address of the family asked for. */
  ghost predicate Picks(records: seq<Record>, which: seq<nat>, from: nat, qtype: u16) {
    && (forall k: nat :: k in which <==> from <= k < |records| && records[k].rclass == 1 && records[k].rtype == qtype && qtype in {1, 28})
    && forall i, j :: 0 <= i < j < |which| ==> which[i] < which[j]
  }

  lemma {:induction false} PickBefore(records: seq<Record>, rest: seq<nat>, from: nat, qtype: u16) returns (which: seq<nat>)
    requires from < |records| && Picks(records, rest, from + 1, qtype)
    ensures Picks(records, which, from, qtype)
    ensures which == (if records[from].rclass == 1 && records[from].rtype == qtype && qtype in {1, 28} then [from] else []) + rest
  {
    var first := if records[from].rclass == 1 && records[from].rtype == qtype && qtype in {1, 28} then [from] else [];
    which := first + rest;
    forall i, j | 0 <= i < j < |which| ensures which[i] < which[j] {
      assert which[j] in rest;
    }
  }

  /** What the records picked give: their addresses in order, or the length of the first that is wrong. */
  ghost predicate Gives(records: seq<Record>, which: seq<nat>, width: nat, four: bool, r: Result<seq<Address>, DnsError>)
    requires forall m :: 0 <= m < |which| ==> which[m] < |records|
  {
    match r
    case Ok(found) =>
      && |found| == |which|
      && forall m :: 0 <= m < |which| ==> (
           var data := records[which[m]].data;
           |data| == width && found[m] == if four then V4(data) else V6(data))
    case Err(e) =>
      exists m :: 0 <= m < |which| && |records[which[m]].data| != width && e == BadLength(|records[which[m]].data|)
                  && forall n :: 0 <= n < m ==> |records[which[n]].data| == width
  }

  lemma {:induction false} PickedInside(records: seq<Record>, which: seq<nat>, from: nat, qtype: u16)
    requires Picks(records, which, from, qtype)
    ensures forall m :: 0 <= m < |which| ==> which[m] < |records|
  {
    forall m | 0 <= m < |which| ensures which[m] < |records| { assert which[m] in which; }
  }

  lemma {:induction false} GivesMore(records: seq<Record>, rest: seq<nat>, k: nat, width: nat, four: bool,
                                     r: Result<seq<Address>, DnsError>)
    requires k < |records| && |records[k].data| == width && forall m :: 0 <= m < |rest| ==> rest[m] < |records|
    requires Gives(records, rest, width, four, r)
    ensures Gives(records, [k] + rest, width, four, Before([if four then V4(records[k].data) else V6(records[k].data)], r))
  {
    var which := [k] + rest;
    if r.Err? {
      var m :| 0 <= m < |rest| && |records[rest[m]].data| != width && r.error == BadLength(|records[rest[m]].data|)
               && forall n :: 0 <= n < m ==> |records[rest[n]].data| == width;
      assert which[m + 1] == rest[m];
      forall n | 0 <= n < m + 1 ensures |records[which[n]].data| == width {}
    }
  }

  lemma {:induction false} GivesFault(records: seq<Record>, rest: seq<nat>, k: nat, width: nat, four: bool)
    requires k < |records| && |records[k].data| != width && forall m :: 0 <= m < |rest| ==> rest[m] < |records|
    ensures Gives(records, [k] + rest, width, four, Err(BadLength(|records[k].data|)))
  {
    assert ([k] + rest)[0] == k;
  }

  lemma {:induction false} CarriedGives(records: seq<Record>, from: nat, qtype: u16) returns (which: seq<nat>)
    requires from <= |records|
    ensures Picks(records, which, from, qtype) && forall m :: 0 <= m < |which| ==> which[m] < |records|
    ensures Gives(records, which, if qtype == 1 then 4 else 16, qtype == 1, Carried(records[from..], qtype))
    decreases |records| - from
  {
    if from == |records| {
      which := [];
    } else {
      var rest := CarriedGives(records, from + 1, qtype);
      which := PickBefore(records, rest, from, qtype);
      PickedInside(records, which, from, qtype);
      assert records[from..][1..] == records[from + 1..];
      var tail := Carried(records[from + 1..], qtype);
      OneGives(records, rest, from, which, qtype, tail, Carried(records[from..], qtype));
    }
  }

  lemma {:induction false} OneGives(records: seq<Record>, rest: seq<nat>, k: nat, which: seq<nat>, qtype: u16,
                                    tail: Result<seq<Address>, DnsError>, all: Result<seq<Address>, DnsError>)
    requires k < |records| && forall m :: 0 <= m < |rest| ==> rest[m] < |records|
    requires which == (if records[k].rclass == 1 && records[k].rtype == qtype && qtype in {1, 28} then [k] else []) + rest
    requires Gives(records, rest, if qtype == 1 then 4 else 16, qtype == 1, tail)
    requires all == Along(Contribution(records[k].rtype, records[k].rclass, records[k].data, qtype), tail)
    ensures forall m :: 0 <= m < |which| ==> which[m] < |records|
    ensures Gives(records, which, if qtype == 1 then 4 else 16, qtype == 1, all)
  {
    var r, width := records[k], if qtype == 1 then 4 else 16;
    if r.rclass == 1 && r.rtype == qtype && qtype in {1, 28} {
      if |r.data| == width {
        GivesMore(records, rest, k, width, qtype == 1, tail);
      } else {
        GivesFault(records, rest, k, width, qtype == 1);
      }
    } else {
      NothingBefore(tail);
      assert which == rest;
    }
  }

  lemma {:induction false} NothingBefore(rest: Result<seq<Address>, DnsError>)
    ensures Before([], rest) == rest
  {
    if rest.Ok? { assert [] + rest.value == rest.value; }
  }

  /** What a response gives, whatever records it was written from: the addresses in the records of the
      Internet class and the asked family, in order; the length of the first of those that has the wrong
      one; or that there is none. */
  lemma {:induction false} ResponseGives(id: u16, labels: seq<seq<byte>>, qtype: u16, records: seq<Record>) returns (which: seq<nat>)
    requires Writable(labels) && AllFit(labels) && AllPrintable(records) && |records| < 0x1_0000
    ensures forall i, j :: 0 <= i < j < |which| ==> which[i] < which[j]
    ensures forall k: nat :: k in which <==> k < |records| && records[k].rclass == 1 && records[k].rtype == qtype && (qtype == 1 || qtype == 28)
    ensures forall m :: 0 <= m < |which| ==> which[m] < |records|
    ensures var r := Parsed(Response(id, labels, qtype, records), id, qtype);
            if r.Ok? then
              && |r.value| == |which| > 0
              && (qtype == 1 ==> forall m :: 0 <= m < |which| ==> |records[which[m]].data| == 4 && r.value[m] == V4(records[which[m]].data))
              && (qtype == 28 ==> forall m :: 0 <= m < |which| ==> |records[which[m]].data| == 16 && r.value[m] == V6(records[which[m]].data))
            else if which == [] then r.error == NoAddresses
            else
              exists m :: 0 <= m < |which| && |records[which[m]].data| != (if qtype == 1 then 4 else 16)
                          && r.error == BadLength(|records[which[m]].data|)
                          && forall n :: 0 <= n < m ==> |records[which[n]].data| == if qtype == 1 then 4 else 16
  {
    ResponseReads(id, labels, qtype, records);
    which := CarriedGives(records, 0, qtype);
    assert records[0..] == records;
    if which != [] { assert which[0] in which; }
  }
}
