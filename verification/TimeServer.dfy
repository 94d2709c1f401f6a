/** Reading a key-establishment response off the session, and spending the cookie it brings. */
module TimeServer {
  import opened Bytes
  import opened Wire
  import opened Nts
  import Ntp
  import NtpExchange

  const MAX_KE_RESPONSE: nat := 64 * 1024
  const DEFAULT_NTP_PORT: u16 := 123

  /** What one read of the session can find. */
  datatype Arrival = Chunk(bytes: seq<byte>) | Closed | UnexpectedEof | Broken

  datatype KeFault = TooLong | ReadFailed | ClosedEarly | Unreadable(error: NtsError)

  /** The bytes a script of reads brings, up to where the session ends. */
  function Stream(script: seq<Arrival>): seq<byte> {
    if script == [] || !script[0].Chunk? then [] else script[0].bytes + Stream(script[1..])
  }

  /** The response as gathered: reads are appended until it is complete, the session ends, or it is too long. */
  function Gather(script: seq<Arrival>, response: seq<byte>): Result<seq<byte>, KeFault>
    decreases |script|
  {
    if EndFrom(response, 0).Some? then Ok(response)
    else if script == [] then Err(ClosedEarly)
    else
      match script[0]
      case Broken => Err(ReadFailed)
      case Closed => Err(ClosedEarly)
      case UnexpectedEof => Err(ClosedEarly)
      case Chunk(bytes) =>
        if |response + bytes| > MAX_KE_RESPONSE then Err(TooLong) else Gather(script[1..], response + bytes)
  }

  function Established(script: seq<Arrival>, utf8: seq<byte> -> bool): Result<Agreement, KeFault> {
    match Gather(script, [])
    case Err(e) => Err(e)
    case Ok(response) =>
      match Parsed(response, AEAD_AES_SIV_CMAC_256, utf8)
      case Err(e) => Err(Unreadable(e))
      case Ok(agreement) => Ok(agreement)
  }

  /** The read loop. A session that ends without a clean close is judged by what arrived. */
  method Establish(script: seq<Arrival>, utf8: seq<byte> -> bool) returns (r: Result<Agreement, KeFault>)
    ensures r == Established(script, utf8)
  {
    var response: seq<byte> := [];
    var i := 0;
    var complete := ResponseComplete(response);
    while !complete
      invariant 0 <= i <= |script|
      invariant Gather(script, []) == Gather(script[i..], response)
      invariant complete <==> EndFrom(response, 0).Some?
      decreases |script| - i, !complete
    {
      if i == |script| { break; }
      assert script[i..][0] == script[i] && script[i..][1..] == script[i + 1..];
      match script[i] {
        case Closed => break;
        case UnexpectedEof => break;
        case Broken => return Err(ReadFailed);
        case Chunk(bytes) =>
          response := response + bytes;
          if |response| > MAX_KE_RESPONSE { return Err(TooLong); }
      }
      i := i + 1;
      complete := ResponseComplete(response);
    }
    if !complete { return Err(ClosedEarly); }
    var parsed := ParseResponse(response, AEAD_AES_SIV_CMAC_256, utf8);
    match parsed {
      case Err(e) => return Err(Unreadable(e));
      case Ok(agreement) => return Ok(agreement);
    }
  }

  /** What is gathered is the beginning of the stream, within the cap and complete. */
  lemma {:induction false} GatheredIsPrefix(script: seq<Arrival>, response: seq<byte>)
    requires |response| <= MAX_KE_RESPONSE
    ensures Gather(script, response).Ok? ==>
              var m := Gather(script, response).value;
              m <= response + Stream(script) && |m| <= MAX_KE_RESPONSE && EndFrom(m, 0).Some?
    decreases |script|
  {
    if EndFrom(response, 0).None? && script != [] && script[0].Chunk? && |response + script[0].bytes| <= MAX_KE_RESPONSE {
      GatheredIsPrefix(script[1..], response + script[0].bytes);
      assert response + script[0].bytes + Stream(script[1..]) == response + Stream(script);
    }
  }

  /** If the stream has its end-of-message record, gathering finds it unless the cap cuts it off. */
  lemma {:induction false} GatheringFindsEnd(script: seq<Arrival>, response: seq<byte>)
    requires EndFrom(response + Stream(script), 0).Some? && Gather(script, response) != Err(TooLong)
    ensures Gather(script, response).Ok?
    decreases |script|
  {
    if EndFrom(response, 0).None? {
      assert response + [] == response;
      if script != [] && script[0].Chunk? {
        assert response + script[0].bytes + Stream(script[1..]) == response + Stream(script);
        GatheringFindsEnd(script[1..], response + script[0].bytes);
      }
    }
  }

  lemma {:induction false} BodylessEnd(m: seq<byte>, s: seq<byte>)
    requires m <= s && EndFrom(m, 0).Some? && EndFrom(s, 0).Some? && U16At(s, EndFrom(s, 0).value + 2) == 0
    ensures NextRecord(m, EndFrom(m, 0).value) <= |m|
  {
    EndIsStable(m, s, 0);
    Nts.Agree(m, s, EndFrom(m, 0).value + 2);
  }

  /** One result for every chunking: a stream whose first end-of-message record has no body gives the
      result of reading the whole of it, however it is cut into reads that stay within the cap. */
  lemma {:induction false} ChunkingDoesNotMatter(script: seq<Arrival>, s: seq<byte>, utf8: seq<byte> -> bool)
    requires s == Stream(script) && EndFrom(s, 0).Some? && U16At(s, EndFrom(s, 0).value + 2) == 0
    requires Gather(script, []) != Err(TooLong)
    ensures Established(script, utf8) ==
            match Parsed(s, AEAD_AES_SIV_CMAC_256, utf8) case Ok(a) => Ok(a) case Err(e) => Err(Unreadable(e))
  {
    assert [] + s == s;
    GatheredIsPrefix(script, []);
    GatheringFindsEnd(script, []);
    var m := Gather(script, []).value;
    BodylessEnd(m, s);
    CutResult(m, s, AEAD_AES_SIV_CMAC_256, utf8);
  }

  /** Every cookie of an agreement reached within the cap fits the request that spends it: the padded
      length of its field is never cut, and a server reads the request as it was meant. */
  lemma {:induction false} CookieCanBeSpent(script: seq<Arrival>, utf8: seq<byte> -> bool, k: nat, siv: Ntp.Siv, c2s: seq<byte>, uniqueId: seq<byte>, nonce: seq<byte>)
    requires Established(script, utf8).Ok? && k < |Established(script, utf8).value.cookies|
    requires Ntp.Lawful(siv) && |c2s| == Ntp.KEY_LENGTH && |uniqueId| == Ntp.UNIQUE_ID_LENGTH && |nonce| == Ntp.NONCE_LENGTH
    ensures var cookie := Established(script, utf8).value.cookies[k];
            && |cookie| <= 65516
            && NtpExchange.ServerFinds(siv, NtpExchange.BuildRequest(siv, cookie, c2s, uniqueId, nonce).value, cookie, c2s, uniqueId, nonce)
  {
    GatheredIsPrefix(script, []);
    var m := Gather(script, []).value;
    CookieLeavesRoom(m, AEAD_AES_SIV_CMAC_256, utf8, k);
    var cookie := Established(script, utf8).value.cookies[k];
    NtpExchange.PaddedFacts(|cookie|);
    NtpExchange.RequestReads(siv, cookie, c2s, uniqueId, nonce);
  }

  /** The least a server can print: its protocol, its algorithm and one cookie. */
  function LeastRecords(cookie: seq<byte>): seq<Record> {
    [Record(0x8001, [0, 0]), Record(0x8004, [0, 15]), Record(5, cookie)]
  }

  lemma {:induction false} LeastLength(cookie: seq<byte>)
    ensures |Printed(LeastRecords(cookie))| == |cookie| + 20
  {
    var records := LeastRecords(cookie);
    var a: seq<Record>, b: seq<Record> := records[1..], records[2..];
    assert a[0] == records[1] && a[1..] == b && b[0] == records[2] && |b[1..]| == 0;
    assert |Printed(b[1..])| == 4;
    assert |Printed(b)| == |cookie| + 8;
    assert |Printed(a)| == |cookie| + 14;
  }

  lemma {:induction false} LeastSays(cookie: seq<byte>, utf8: seq<byte> -> bool)
    ensures Said(LeastRecords(cookie), NOTHING_READ, utf8) == Ok(Reading(Some(0), Some(15), [cookie], None, None))
  {
    var records := LeastRecords(cookie);
    var a: seq<Record>, b: seq<Record> := records[1..], records[2..];
    assert a[0] == records[1] && a[1..] == b && b[0] == records[2] && |b[1..]| == 0;
    var one := NOTHING_READ.(nextProtocol := Some(0));
    var two := one.(aead := Some(15));
    assert U16At([0, 0], 0) == 0 && U16At([0, 15], 0) == 15;
    var three := two.(cookies := [cookie]);
    assert Said(b[1..], three, utf8) == Ok(three);
    assert [] + [cookie] == [cookie];
    assert Said(b, two, utf8) == Ok(three);
    assert Said(a, one, utf8) == Ok(three);
  }

  /** The bound is reached: a response of exactly the cap can carry a cookie of 65516 bytes. */
  lemma {:induction false} CookieBoundIsTight(cookie: seq<byte>, utf8: seq<byte> -> bool)
    requires |cookie| == 65516
    ensures |Printed(LeastRecords(cookie))| == MAX_KE_RESPONSE
    ensures Parsed(Printed(LeastRecords(cookie)), AEAD_AES_SIV_CMAC_256, utf8) == Ok(Agreement(AEAD_AES_SIV_CMAC_256, [cookie], None, None))
  {
    LeastLength(cookie);
    LeastSays(cookie, utf8);
    AllLeastPrintable(cookie);
    var message := Printed(LeastRecords(cookie));
    assert [] + message == message;
    PrintThenRead(message, [], LeastRecords(cookie), [], NOTHING_READ, utf8);
  }

  /** The end is looked for past each of the records in turn. */
  lemma {:induction false} PastThree(s: seq<byte>, cookie: seq<byte>, end: seq<byte>, three: seq<byte>)
    requires |cookie| < 0x1_0000 && three == RecordBytes(0x8001, [0, 0]) + RecordBytes(0x8004, [0, 15]) + RecordBytes(5, cookie)
    requires s == [] + (RecordBytes(0x8001, [0, 0]) + (RecordBytes(0x8004, [0, 15]) + (RecordBytes(5, cookie) + end)))
    ensures EndFrom(s, 0) == EndFrom(s, |three|) && s == three + end
  {
    var protocol, algorithm, offered := RecordBytes(0x8001, [0, 0]), RecordBytes(0x8004, [0, 15]), RecordBytes(5, cookie);
    EndAtRecord(s, [], 0x8001, [0, 0], algorithm + (offered + end));
    EndAtRecord(s, protocol, 0x8004, [0, 15], offered + end);
    EndAtRecord(s, protocol + algorithm, 5, cookie, end);
  }

  lemma {:induction false} LeastEnds(cookie: seq<byte>, endBody: seq<byte>, s: seq<byte>)
    requires |cookie| < 0x1_0000 && |endBody| < 0x1_0000 && s == Printed(LeastRecords(cookie), endBody)
    ensures EndFrom(s, 0).Some? && U16At(s, EndFrom(s, 0).value + 2) == |endBody|
  {
    var three := RecordBytes(0x8001, [0, 0]) + RecordBytes(0x8004, [0, 15]) + RecordBytes(5, cookie);
    var end := RecordBytes(CRITICAL, endBody);
    LeastPieces(cookie, endBody, s);
    PastThree(s, cookie, end, three);
    assert end == end + [];
    EndAtRecord(s, three, CRITICAL, endBody, []);
  }

  lemma {:induction false} LeastPieces(cookie: seq<byte>, endBody: seq<byte>, s: seq<byte>)
    requires s == Printed(LeastRecords(cookie), endBody)
    ensures s == [] + (RecordBytes(0x8001, [0, 0])
                       + (RecordBytes(0x8004, [0, 15]) + (RecordBytes(5, cookie) + RecordBytes(CRITICAL, endBody))))
  {
    var records := LeastRecords(cookie);
    var a: seq<Record>, b: seq<Record> := records[1..], records[2..];
    assert a[0] == records[1] && a[1..] == b && b[0] == records[2] && |b[1..]| == 0;
    assert Printed(b, endBody) == RecordBytes(5, cookie) + Printed(b[1..], endBody);
    assert Printed(a, endBody) == RecordBytes(0x8004, [0, 15]) + Printed(b, endBody);
  }

  lemma {:induction false} LeastWithBody(cookie: seq<byte>, endBody: seq<byte>, utf8: seq<byte> -> bool, s: seq<byte>)
    requires |cookie| < 0x1_0000 && |endBody| < 0x1_0000 && s == Printed(LeastRecords(cookie), endBody)
    ensures Parsed(s, AEAD_AES_SIV_CMAC_256, utf8) == Ok(Agreement(AEAD_AES_SIV_CMAC_256, [cookie], None, None))
  {
    LeastSays(cookie, utf8);
    AllLeastPrintable(cookie);
    assert [] + s == s;
    PrintThenRead(s, [], LeastRecords(cookie), endBody, NOTHING_READ, utf8);
  }

  /** A response can read and yet end in a record with a body, and then where it is cut decides what it says. */
  lemma {:induction false} BodyMakesCutsMatter(cookie: seq<byte>, endBody: seq<byte>, utf8: seq<byte> -> bool, s: seq<byte>)
    returns (cut: seq<byte>)
    requires |cookie| < 0x1_0000 && 0 < |endBody| < 0x1_0000 && s == Printed(LeastRecords(cookie), endBody)
    ensures Parsed(s, AEAD_AES_SIV_CMAC_256, utf8) == Ok(Agreement(AEAD_AES_SIV_CMAC_256, [cookie], None, None))
    ensures cut <= s && EndFrom(cut, 0).Some? && Parsed(cut, AEAD_AES_SIV_CMAC_256, utf8).Err?
  {
    LeastWithBody(cookie, endBody, utf8, s);
    LeastEnds(cookie, endBody, s);
    cut := CutBeforeBody(s, AEAD_AES_SIV_CMAC_256, utf8);
  }

  lemma {:induction false} AllLeastPrintable(cookie: seq<byte>)
    requires |cookie| < 0x1_0000
    ensures AllPrintable(LeastRecords(cookie))
  {
    var records := LeastRecords(cookie);
    var a: seq<Record>, b: seq<Record> := records[1..], records[2..];
    assert a[0] == records[1] && a[1..] == b && b[0] == records[2] && |b[1..]| == 0;
    assert AllPrintable(b) && AllPrintable(a);
  }

  // ---------------------------------------------------------------- what every establishment comes to

  /** The first `n` reads bring bytes, never too many, and none but the last can have completed them. */
  ghost predicate Gathering(script: seq<Arrival>, n: nat) {
    && n <= |script| && (forall j :: 0 <= j < n ==> script[j].Chunk?)
    && forall j :: 0 <= j <= n ==> |Stream(script[..j])| <= 65536 && (j < n ==> EndFrom(Stream(script[..j]), 0).None?)
  }

  /** What the `n`th read, or the bytes before it, make of the establishment. */
  ghost predicate EndsAt(script: seq<Arrival>, n: nat, r: Result<seq<byte>, KeFault>) {
    && Gathering(script, n)
    && var got := Stream(script[..n]);
       if EndFrom(got, 0).Some? then r == Ok(got)
       else if n == |script| || script[n].Closed? || script[n].UnexpectedEof? then r == Err(ClosedEarly)
       else if script[n].Broken? then r == Err(ReadFailed)
       else |got| + |script[n].bytes| > 65536 && r == Err(TooLong)
  }

  lemma {:induction false} StreamSnoc(script: seq<Arrival>, n: nat)
    requires n < |script| && forall j :: 0 <= j <= n ==> script[j].Chunk?
    ensures Stream(script[..n + 1]) == Stream(script[..n]) + script[n].bytes
  {
    if n == 0 {
      assert script[..1][1..] == [] && script[..0] == [];
      assert script[0].bytes + [] == script[0].bytes == [] + script[0].bytes;
    } else {
      StreamSnoc(script[1..], n - 1);
      assert script[..n + 1][1..] == script[1..][..n] && script[..n][1..] == script[1..][..n - 1];
      var first, rest := script[0].bytes, Stream(script[1..][..n - 1]);
      assert first + (rest + script[n].bytes) == first + rest + script[n].bytes;
    }
  }

  lemma {:induction false} GatherEnds(script: seq<Arrival>, k: nat) returns (n: nat)
    requires Gathering(script, k)
    ensures EndsAt(script, n, Gather(script[k..], Stream(script[..k])))
    decreases |script| - k
  {
    n := k;
    if EndFrom(Stream(script[..k]), 0).None? && k < |script| && script[k].Chunk? {
      StreamSnoc(script, k);
      assert script[k..][0] == script[k] && script[k..][1..] == script[k + 1..];
      if |Stream(script[..k]) + script[k].bytes| <= 65536 { n := GatherEnds(script, k + 1); }
    }
  }

  /** Every establishment, whatever the reads bring: bytes are gathered until they hold an end-of-message
      header, and then read; a session that ends before fails as closed or broken as it ended, and one read
      that takes them past 64 KiB fails as too long. */
  lemma {:induction false} EstablishmentIs(script: seq<Arrival>, utf8: seq<byte> -> bool) returns (n: nat, gathered: Result<seq<byte>, KeFault>)
    ensures EndsAt(script, n, gathered)
    ensures Established(script, utf8) == match gathered
              case Err(e) => Err(e)
              case Ok(m) => match Parsed(m, 15, utf8) case Ok(a) => Ok(a) case Err(e) => Err(Unreadable(e))
  {
    assert script[0..] == script && script[..0] == [] && Stream([]) == [];
    gathered := Gather(script, []);
    n := GatherEnds(script, 0);
  }
}
