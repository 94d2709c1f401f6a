/** The bytes of a question, and which answers are refused by their header, told byte by byte. */
module DnsMeaning {
  import opened Bytes
  import opened Wire
  import opened Dns

  // ---------------------------------------------------------------- the pieces of a name

  lemma {:induction false} PiecesAfter(a: seq<byte>, b: seq<byte>, piece: seq<byte>)
    ensures LabelsFrom(a + [46] + b, piece) == LabelsFrom(a, piece) + LabelsFrom(b, [])
    decreases |a|
  {
    if a == [] {
      assert (a + [46] + b)[1..] == b;
    } else {
      assert (a + [46] + b)[1..] == a[1..] + [46] + b;
      if a[0] == 46 { PiecesAfter(a[1..], b, []); } else { PiecesAfter(a[1..], b, piece + [a[0]]); }
    }
  }

  lemma {:induction false} OnePiece(name: seq<byte>, piece: seq<byte>)
    requires 46 !in name && piece + name != []
    ensures LabelsFrom(name, piece) == [piece + name]
    decreases |name|
  {
    if name == [] {
      assert piece + name == piece;
    } else {
      assert name[0] in name && forall b <- name[1..] :: b in name;
      OnePiece(name[1..], piece + [name[0]]);
      assert piece + [name[0]] + name[1..] == piece + name;
    }
  }

  /** Names are cut at the dots, wherever they are, and what is empty is left out. With the two lemmas
      after this one that settles the pieces of every name. */
  lemma {:induction false} CutAtDots(a: seq<byte>, b: seq<byte>)
    ensures Labels(a + [46] + b) == Labels(a) + Labels(b)
  {
    PiecesAfter(a, b, []);
  }

  lemma {:induction false} NoDots(name: seq<byte>)
    requires 46 !in name
    ensures Labels(name) == if name == [] then [] else [name]
  {
    if name != [] {
      assert [] + name == name;
      OnePiece(name, []);
    }
  }

  // ---------------------------------------------------------------- pointers

  /** A name that is `n` pointers, one to the next, and a terminator. */
  ghost predicate Chain(m: seq<byte>, offset: nat, n: nat)
    decreases n
  {
    if n == 0 then offset < |m| && m[offset] == 0
    else offset + 2 <= |m| && m[offset] >= 192 && Chain(m, (m[offset] as int) % 64 * 256 + m[offset + 1], n - 1)
  }

  lemma {:induction false} ChainInside(m: seq<byte>, offset: nat, n: nat)
    requires Chain(m, offset, n)
    ensures offset < |m|
  {
  }

  lemma {:induction false} PointerIs(m: seq<byte>, offset: nat)
    requires offset + 2 <= |m| && m[offset] >= 192
    ensures U16At(m, offset) % 0x4000 == (m[offset] as int) % 64 * 256 + m[offset + 1]
  {
    var hi: nat, lo: nat := m[offset], m[offset + 1];
    assert hi == 192 + hi % 64;
  }

  lemma {:induction false} ChainFrom(m: seq<byte>, offset: nat, n: nat, jumps: nat, after: Option<nat>)
    requires Chain(m, offset, n) && jumps <= MAX_JUMPS
    ensures SkipFrom(m, offset, jumps, after)
         == if jumps + n > 64 then Err(PointerLimit)
            else Ok(if after.Some? then after.value else if n == 0 then offset + 1 else offset + 2)
    decreases n
  {
    if n > 0 {
      var next := (m[offset] as int) % 64 * 256 + m[offset + 1];
      PointerIs(m, offset);
      ChainInside(m, next, n - 1);
      if jumps < MAX_JUMPS { ChainFrom(m, next, n - 1, jumps + 1, if after.Some? then after else Some(offset + 2)); }
    }
  }

  /** Up to sixty-four pointers are followed, and the cursor is left after the first; one more is refused. */
  lemma {:induction false} SixtyFourPointers(m: seq<byte>, offset: nat, n: nat)
    requires Chain(m, offset, n)
    ensures SkipFrom(m, offset, 0, None) == if n > 64 then Err(PointerLimit) else Ok(if n == 0 then offset + 1 else offset + 2)
  {
    ChainFrom(m, offset, n, 0, None);
  }

  // ---------------------------------------------------------------- the question

  lemma {:induction false} FitIs(labels: seq<seq<byte>>)
    ensures AllFit(labels) <==> forall l <- labels :: |l| <= 63
  {
    if labels != [] {
      FitIs(labels[1..]);
      assert forall l :: l in labels <==> l == labels[0] || l in labels[1..];
    }
  }

  /** Each piece after its length, and a zero. */
  ghost predicate SpellsOut(labels: seq<seq<byte>>, bytes: seq<byte>) {
    if labels == [] then bytes == [0]
    else
      |bytes| > |labels[0]| && bytes[0] == |labels[0]| && bytes[1..|labels[0]| + 1] == labels[0]
      && SpellsOut(labels[1..], bytes[|labels[0]| + 1..])
  }

  lemma {:induction false} NameSpelt(labels: seq<seq<byte>>)
    requires AllFit(labels)
    ensures SpellsOut(labels, NameBytes(labels))
  {
    if labels != [] {
      NameSpelt(labels[1..]);
      var bytes, more := NameBytes(labels), NameBytes(labels[1..]);
      assert bytes[1..|labels[0]| + 1] == labels[0] && bytes[|labels[0]| + 1..] == more;
    }
  }

  lemma {:induction false} HeaderSpelt(id: u16)
    ensures QueryHeader(id) == [id / 256, id % 256] + [1, 0, 0, 1, 0, 0, 0, 0, 0, 0]
  {
  }

  /** The question as bytes: the identifier, the flag that asks for recursion, one question and nothing
      else, the pieces of the name, the type and the Internet class. It cannot be put exactly when some
      piece is longer than 63 bytes. */
  lemma {:induction false} QuestionIs(id: u16, name: seq<byte>, qtype: u16) returns (spelt: seq<byte>)
    ensures EncodedQuery(id, name, qtype) == Err(LabelTooLong) <==> exists l <- Labels(name) :: |l| > 63
    ensures EncodedQuery(id, name, qtype).Ok? ==>
              SpellsOut(Labels(name), spelt)
              && EncodedQuery(id, name, qtype).value
                 == [id / 256, id % 256] + [1, 0, 0, 1, 0, 0, 0, 0, 0, 0] + spelt + [qtype / 256, qtype % 256, 0, 1]
  {
    FitIs(Labels(name));
    HeaderSpelt(id);
    spelt := [];
    if AllFit(Labels(name)) {
      spelt := NameBytes(Labels(name));
      NameSpelt(Labels(name));
      assert QueryHeader(id) + spelt + Be16(qtype) + Be16(CLASS_IN) == QueryHeader(id) + spelt + [qtype / 256, qtype % 256, 0, 1];
    }
  }

  // ---------------------------------------------------------------- the header of an answer

  lemma {:induction false} SkipFaults(message: seq<byte>, offset: nat, jumps: nat, after: Option<nat>)
    requires jumps <= MAX_JUMPS && SkipFrom(message, offset, jumps, after).Err?
    ensures SkipFrom(message, offset, jumps, after).error in {Truncated, LabelPast, PointerLimit, PointerPast, Reserved}
    decreases MAX_JUMPS - jumps, |message| - offset
  {
    if offset < |message| {
      var length := message[offset];
      if 0 < length < 64 && offset + 1 + length <= |message| {
        SkipFaults(message, offset + 1 + length, jumps, after);
      } else if length >= 192 && offset + 2 <= |message| {
        var pointer := U16At(message, offset) % 0x4000;
        if jumps < MAX_JUMPS && pointer < |message| {
          SkipFaults(message, pointer, jumps + 1, if after.Some? then after else Some(offset + 2));
        }
      }
    }
  }

  predicate OfTheHeader(e: DnsError) {
    e.Short? || e.WrongId? || e.NotAResponse? || e.TruncatedAnswer? || e.Rcode?
  }

  lemma {:induction false} QuestionFaults(message: seq<byte>, offset: nat, count: nat)
    requires QuestionsFrom(message, offset, count).Err?
    ensures !OfTheHeader(QuestionsFrom(message, offset, count).error)
    decreases count
  {
    var skipped := SkipFrom(message, offset, 0, None);
    if skipped.Err? {
      SkipFaults(message, offset, 0, None);
    } else if skipped.value + 4 <= |message| {
      QuestionFaults(message, skipped.value + 4, count - 1);
    }
  }

  lemma {:induction false} RecordFaults(message: seq<byte>, offset: nat, qtype: u16)
    requires RecordAt(message, offset, qtype).Err?
    ensures !OfTheHeader(RecordAt(message, offset, qtype).error)
  {
    if SkipFrom(message, offset, 0, None).Err? { SkipFaults(message, offset, 0, None); }
  }

  lemma {:induction false} AnswerFaults(message: seq<byte>, offset: nat, count: nat, qtype: u16)
    requires AnswersFrom(message, offset, count, qtype).Err?
    ensures !OfTheHeader(AnswersFrom(message, offset, count, qtype).error)
    decreases count
  {
    var record := RecordAt(message, offset, qtype);
    if record.Err? {
      RecordFaults(message, offset, qtype);
    } else {
      AnswerFaults(message, record.value.0, count - 1, qtype);
    }
  }

  lemma {:induction false} FlagsSplit(flags: nat, hi: nat, lo: nat)
    requires flags == hi * 256 + lo && lo < 256 && hi < 256
    ensures flags < 0x8000 <==> hi < 128
    ensures flags / 0x0200 % 2 == hi / 2 % 2
    ensures flags % 16 == lo % 16
  {
    assert flags / 0x0200 == hi / 2;
  }

  /** Why a header is refused, in the order it is looked at. */
  ghost predicate HeaderFault(m: seq<byte>, id: u16, e: DnsError) {
    match e
    case Short => |m| < 12
    case WrongId => |m| >= 12 && (m[0] as int) * 256 + m[1] != id
    case NotAResponse => |m| >= 12 && (m[0] as int) * 256 + m[1] == id && m[2] < 128
    case TruncatedAnswer => |m| >= 12 && (m[0] as int) * 256 + m[1] == id && m[2] >= 128 && m[2] / 2 % 2 == 1
    case Rcode(code) =>
      |m| >= 12 && (m[0] as int) * 256 + m[1] == id && m[2] >= 128 && m[2] / 2 % 2 == 0 && m[3] % 16 == code != 0
    case _ => false
  }

  lemma {:induction false} CheckFaults(m: seq<byte>, id: u16, e: DnsError)
    ensures CheckHeader(m, id) == Err(e) <==> HeaderFault(m, id, e)
    ensures CheckHeader(m, id).Ok?
            ==> |m| >= 12 && (m[0] as int) * 256 + m[1] == id && m[2] >= 128 && m[2] / 2 % 2 == 0 && m[3] % 16 == 0
  {
    if |m| >= 12 {
      var hi: nat, lo: nat := m[2], m[3];
      FlagsSplit(U16At(m, 2), hi, lo);
    }
  }

  /** An answer is refused by its header exactly so, whatever follows it: too short for one, not to this
      query, no answer at all, cut off, or an error of the server's. Addresses come only from one that is
      none of these. */
  lemma {:induction false} HeaderDecides(message: seq<byte>, id: u16, qtype: u16, e: DnsError)
    requires OfTheHeader(e)
    ensures Parsed(message, id, qtype) == Err(e) <==> HeaderFault(message, id, e)
    ensures Parsed(message, id, qtype).Ok? ==>
              |message| >= 12 && (message[0] as int) * 256 + message[1] == id
              && message[2] >= 128 && message[2] / 2 % 2 == 0 && message[3] % 16 == 0
  {
    CheckFaults(message, id, e);
    if CheckHeader(message, id).Ok? {
      var offset := QuestionsFrom(message, 12, U16At(message, 4));
      if offset.Err? {
        QuestionFaults(message, 12, U16At(message, 4));
      } else if AnswersFrom(message, offset.value, U16At(message, 6), qtype).Err? {
        AnswerFaults(message, offset.value, U16At(message, 6), qtype);
      }
    }
  }

  // ---------------------------------------------------------------- which family

  /** An address of the family asked for, of its length. */
  predicate OfFamily(a: Address, qtype: u16) {
    if qtype == 1 then a.V4? && |a.octets| == 4 else qtype == 28 && a.V6? && |a.octets| == 16
  }

  lemma {:induction false} AnswersOfFamily(message: seq<byte>, offset: nat, count: nat, qtype: u16)
    requires AnswersFrom(message, offset, count, qtype).Ok?
    ensures forall a <- AnswersFrom(message, offset, count, qtype).value :: OfFamily(a, qtype)
    decreases count
  {
    if count > 0 {
      var record := RecordAt(message, offset, qtype);
      AnswersOfFamily(message, record.value.0, count - 1, qtype);
    }
  }

  /** Whatever a message says, only addresses of the family asked for come out of it. */
  lemma {:induction false} OnlyTheFamily(message: seq<byte>, id: u16, qtype: u16)
    requires Parsed(message, id, qtype).Ok?
    ensures forall a <- Parsed(message, id, qtype).value :: OfFamily(a, qtype)
  {
    AnswersOfFamily(message, QuestionsFrom(message, 12, U16At(message, 4)).value, U16At(message, 6), qtype);
  }
}
