# Verified model of the monitoring and time-correction programs

The repository configures a small fleet of hosts and carries the Rust programs that run on them. This
project models the four of them that hold real algorithms and proves what they are for:

* `bms-monitoring`: frames cut out of an endless serial stream, and the loop that reports the freshest;
* `inverter-monitoring`: the checksum, the request/response protocol, and the polling session;
* `time-correction`: the DNS, NTS-KE and NTP codecs, the choice of providers, the quorum, deferred
  certificate validation, and the run that steps the clock or leaves it alone;
* `system-metrics`: per-resolver health derived from refresh passes in a journal;

together with the port lock that the two serial producers share.

## How it is laid out

| files | what they model |
|---|---|
| `Bytes`, `Wire`, `Sorting`, `Silence` | shared vocabulary: bytes and results, addresses and big-endian words, what any sort returns, three silences in a row |
| `Serial` | a scripted serial line: what each read brought, how long it took, and when each byte arrived |
| `BmsFrame`, `BmsListen`, `BmsRecord`, `BmsMeaning` | the frame reader, the waits and the measurement loop of `bms-monitoring`; that a run is determined by its line; what its record says in bytes and moments |
| `Polynomial`, `Crc`, `Register` | polynomials over GF(2), CRC-16/XMODEM on bits, and the program's arithmetic on words |
| `Words`, `Period` | the register as a machine word; the order of x modulo the generator, and so which pairs of flips pass |
| `Protocol`, `Collision` | the inverter's frames; two frames that the escaped checksum cannot tell apart |
| `InverterPort`, `InverterSession`, `PollingMeaning` | reading one response; the polling session; what its record says in replies and payloads |
| `Ntp`, `NtpExchange`, `Nts`, `TimeServer`, `NtpMeaning`, `NtsMeaning` | extension fields and the authenticator; the exchange; key establishment; the read loop and the cookie it yields; what each response comes to |
| `Dns`, `DnsMeaning` | the question, compressed names, the answers; the same byte by byte |
| `Quorum`, `Mixing`, `QuorumMeaning`, `Choose`, `ChooseMeaning` | drawing, and that the draw reaches everyone; voting, deciding, and why not; the arity rules and the pairs |
| `Verify`, `Deferred`, `Asking`, `Candidates`, `Correction` | windows and the two passes; gathered chains; one pair, and the same from the network's side; one whole run |
| `Provenance` | the bytes of one run: from DNS messages, key-establishment records and NTP packets to the second adopted |
| `DnsCrypt`, `Health` | passes and statuses; every field of a status |
| `PortLock` | any number of producers interleaving on one port |

Objects that the source updates in place are classes here (`Line`, `FrameReader`, `Freshest`, `Unit`, `Session`,
`Gathered`, `TimeAgnosticVerifier`, `Host`), and its loops are loops, each proved equal to a specification
function; the properties are lemmas about those functions. What the programs read from outside (the serial
line, the network, the clock, the certificate library, random seeds) is a script or a function parameter, so
every theorem is about every behaviour of the outside. Beside the properties there is,
for each program, a statement of what it comes to on every input, told by bytes, record fields, positions and
literal numbers instead of the specification functions: `BmsMeaning`, `PollingMeaning`, `DnsMeaning`, `NtpMeaning`,
`NtsMeaning`, `Candidates`, `QuorumMeaning`, `ChooseMeaning`, `Health`, `InverterPort.ReadIs`,
`TimeServer.EstablishmentIs`, `Deferred.JudgementIs`, `Correction.EndsIn`. Automatic induction is switched off on every lemma:
each inductive proof is spelled out.

## The main results

* **Framing.** However a stream is cut into chunks and however reads are interleaved with feeding, the frames,
  the four counters and the retained bytes are those of a byte-at-a-time scan of the whole stream; that scan
  is the only leftmost-greedy choice of genuine frames.
* **Listening.** A whole measurement run is a function of what the line brought: every frame taken once, in order,
  stamped with the moment it was taken; every measurement at the first look at the clock after it was due, on the
  newest frame by then; the end on the first three measurements in a row without a fresh one. Two records of one
  script are equal, in everything they say.
* **Asking.** A whole polling run writes exactly the commands its record of sweeps says: in every sweep the listed
  ones minus those already refused, in order; and the counters are those of that record.
* **Checksum.** `xmodem` is the remainder of the message times x^16 by x^16 + x^12 + x^5 + 1, and from that
  alone: it is linear, a message with its own checksum gives zero, and odd numbers of flips and bursts of up
  to sixteen bits always change it, and two flips do unless they are a multiple of 32767 bits apart. The escape weakens this: exactly which corruptions pass is stated.
* **Authenticated time.** A response is believed only if its first authenticator carries the server's seal of
  everything before it, which holds the header and the identifier, and whatever is sealed so is believed. A
  server's time comes back for every second of an interval, except one.
* **Key establishment.** One result for every chunking, exactly when the end-of-message record has no body; and no cookie
  within the cap can overflow the 16-bit length of the field that spends it.
* **One run.** The clock is stepped exactly when every pair answered, every two times agree, and (unless
  forced) the clock is not already inside every pair's certificate window. Behind every step stands a chain
  of the resolver and of the key server verified at the very time adopted, and the floor. From bytes to clock: the
  second adopted lies in a header sealed under the keys of a session, with an address that a verified resolver's
  answer carried for the server's name, whose own chain verifies at that second. Every other outcome has its
  exact condition too.
* **Passes.** Refresh passes are exactly the maximal clusters of successes, in whatever order those come; a provider is up exactly when it
  succeeded within the last one.
* **The port.** In every interleaving of processes that open, lock, claim and configure in that order, crashes
  included, only the lock's holder touches the line. The kernel of the model lets anyone who has the port open
  touch it, so the order is what keeps them apart; opening, as the programs do it, is proved to follow it.

## Where the code and its own words differ

The model follows the code in each case.

* `drain_until` looks at the clock between frames, so it can return with a whole frame still buffered
  (`BmsListen.DeadlineLeavesAFrame`). The frame is late, not lost. Exactly when: `BmsListen.LeavesBehindIff`.
* The checksum escape maps distinct checksum bytes to one wire byte, so some odd numbers of flipped bits pass,
  which the raw checksum would catch: in the parser after any beginning of a frame (`Protocol.OddFlipsAccepted`),
  and on the wire between two whole frames of printable bytes (`Collision.OddFlipsGoThrough`). Exactly when:
  `Protocol.CorruptionAcceptedIff`.
* The end-of-message record of NTS-KE may carry a body. Then what `parse_response` says depends on where the
  reads were cut (`Nts.CutsDoNotMatterIff`), and such responses exist (`TimeServer.BodyMakesCutsMatter`).
* The identifier check compares the field's end with the start of the authenticator's body, four bytes after
  the start of its header. Because fields tile the packet, the identifier is inside the covered bytes all the
  same (`Ntp.TilesInOrder`).
* `parse_args` does not require names to be distinct, and compares the number of operators named by `--only`
  with the length of the list rather than with the number of servers that match it. With one name on two
  servers of one operator that operator is asked twice, or choosing fails; with one name on two resolvers both
  pairs share one (`Choose.OneNameTwice`, `Choose.OneResolverTwice`). The exact conditions are
  `Choose.ServedExactlyWhen` and `Choose.OneEachExactlyWhen` for servers, `Choose.OwnMeansDrawnDistinct` and
  `Choose.OwnResolversExactlyWhen` for resolvers.
* Opening the port configures the line before its last call, so when that call fails the opener returns an error
  with the line already set up. It was set up while holding the lock (`PortLock.Device.OpenPort`).
* An identity payload that does not parse is dropped uncounted, a live one is counted.

## Model

| member | source | states |
|---|---|---|
| BmsFrame.ScanIsGreedy | packages/bms-monitoring/src/frame.rs:105-158 | every window with header and good sum is delivered or begins inside a delivered frame, and delivered frames are genuine and do not overlap |
| BmsFrame.GreedyIsUnique | packages/bms-monitoring/src/frame.rs:105-158 | only one set of frames can meet that description, so it determines what is delivered |
| BmsFrame.DiscardsAreExact | packages/bms-monitoring/src/frame.rs:105-127 | the refused headers are exactly those with 300 bytes behind them, a wrong sum, and no delivered frame over them |
| BmsFrame.DiscardsAreIncreasing | packages/bms-monitoring/src/frame.rs:105-127 | each is refused once |
| BmsFrame.ScanExtends | packages/bms-monitoring/src/frame.rs:89-127 | more bytes never undo a decision: the longer stream resumes where the shorter one stopped |
| BmsFrame.ScanStops | packages/bms-monitoring/src/frame.rs:130-158 | what waits is fewer than four bytes, or a header short of its 300 |
| BmsFrame.ScanSkips | packages/bms-monitoring/src/frame.rs:130-166 | jumping to the next header, or keeping three bytes, equals going byte by byte |
| BmsFrame.StepAdvances | packages/bms-monitoring/src/frame.rs:130-158 | each step of the reader is some steps of the reference scan of the whole stream |
| BmsFrame.FindHeader | packages/bms-monitoring/src/frame.rs:161-166 | the first header at or after a position, or none anywhere after it |
| BmsFrame.Sum8IsTotal | packages/bms-monitoring/src/frame.rs:29-31 | the wrapping sum of some bytes is their arithmetic sum modulo 256 |
| BmsFrame.Sum8Joins | packages/bms-monitoring/src/frame.rs:29-31 | the sum of two stretches is the sum of theirs modulo 256 |
| BmsFrame.OneByteShows | packages/bms-monitoring/src/frame.rs:29-31 | any one byte of a genuine frame changed shows: in the header it is no frame, in any of the others it is refused |
| BmsMeaning.GenuineIs | packages/bms-monitoring/src/frame.rs:130-158 | a frame is 300 bytes that begin 55 AA EB 90 and end with the low byte of the arithmetic sum of the 299 before it |
| BmsFrame.FrameReader.Feed | packages/bms-monitoring/src/frame.rs:89-94 | buffer, history and byte count grow by the chunk; the reader stays the scan of its whole history, paused |
| BmsFrame.FrameReader.Advance | packages/bms-monitoring/src/frame.rs:105-127 | one step keeps the scan and the accounting of bytes, consumes something unless incomplete, and delivers only the frame found |
| BmsFrame.FrameReader.NextFrame | packages/bms-monitoring/src/frame.rs:105-127 | terminates; hands out the scan's next frame, or has caught up with the scan of all that was fed, with fewer than 300 bytes left |
| BmsFrame.Drive | packages/bms-monitoring/src/frame.rs:72-158 | for any interleaving of feeding and taking, then a drain: frames, all four counters and retained bytes equal those of the scan of the whole stream |
| BmsListen.ReadUntil | packages/bms-monitoring/src/port.rs:59-86 | returns the first accepted frame; every frame on the way is taken once, in stream order; otherwise the deadline has passed or the adapter is gone |
| BmsListen.Freshest.Accept | packages/bms-monitoring/src/main.rs:237-248 | overwrites the kind of the frame and only that |
| BmsListen.DrainUntil | packages/bms-monitoring/src/main.rs:254-268 | every frame taken, once each and in order, with the moment it was taken; the last of each kind is held; a drain entered too late does nothing, and one that stops has taken all that was complete before its last read and the first frame that read completed |
| BmsListen.NewestIsLast | packages/bms-monitoring/src/main.rs:232-248 | the frame held is one after which none of its kind arrived |
| BmsListen.LeavesBehindIff | packages/bms-monitoring/src/main.rs:254-268 | a drain leaves a whole frame behind exactly when it was entered at or after the deadline with one waiting, or the read that crossed the deadline completed two or more |
| BmsListen.DeadlineLeavesAFrame | packages/bms-monitoring/src/main.rs:254-268 | it happens with any two frames back to back: one read of 100 bytes before the deadline and one of 500 across it |
| BmsListen.Run | packages/bms-monitoring/src/main.rs:418-520 | the record is of what the line brought: all frames taken in stream order, each with its moment, and every measurement made at the first look at the clock after it was due, of exactly the frames taken by then; each looks at the newest realtime frame, exactly the fresh ones are handed on in order; the run gives up exactly on three silent measurements in a row, and otherwise ends after the one asked for or with the adapter found gone while waiting for what was due next |
| BmsMeaning.TakenIs | packages/bms-monitoring/src/frame.rs:105-158 | every frame a run takes is 300 such bytes of what arrived, and its kind is the fifth of them |
| BmsMeaning.WaitsForSettings | packages/bms-monitoring/src/main.rs:428-441 | the wait ends with a frame of kind one, and every frame passed over is of another kind |
| BmsMeaning.MeasuredWhenDue | packages/bms-monitoring/src/main.rs:446-458 | a measurement is made at or after its multiple of the interval from the start, by the read that crosses that moment if one is needed |
| BmsMeaning.LooksAtTheLast | packages/bms-monitoring/src/main.rs:237-268 | what it looks at is the last frame of kind two taken by then, or the one discovery saw if there has been none |
| BmsMeaning.HandsOnTheFresh | packages/bms-monitoring/src/main.rs:462-469 | the frames handed on are, in order, the newest ones at exactly those measurements where the newest is no older than the timeout |
| BmsMeaning.GivesUpExactlyWhen | packages/bms-monitoring/src/main.rs:462-497 | a run gives up exactly when each of its last three measurements had no frame or only one older than the timeout |
| BmsMeaning.NoThreeBefore | packages/bms-monitoring/src/main.rs:462-497 | of any three measurements in a row before those, one had a frame no older than the timeout |
| BmsRecord.RecordIsUnique | packages/bms-monitoring/src/main.rs:418-520 | two such records of one script are equal: the end, the part of the script used, the wait, every frame and its moment, every measurement, everything handed on |
| BmsRecord.WaitIsUnique | packages/bms-monitoring/src/main.rs:428-441 | one script has one wait for settings: what it took, when it ended and how |
| BmsRecord.LostForGood | packages/bms-monitoring/src/port.rs:59-86 | once the adapter is lost before a deadline, no run reaches that deadline with it still there |
| BmsListen.TicksInOrder | packages/bms-monitoring/src/main.rs:446-520 | measurements are in order of time, none before it was due, none after the present, and none counts a frame that had not arrived |
| BmsListen.ArrivalMoment | packages/bms-monitoring/src/main.rs:237-248 | every stamp lies between the start of the run and the present |
| BmsListen.ArrivalAndTick | packages/bms-monitoring/src/main.rs:237-268 | a frame is stamped no later than a measurement that counts it and no earlier than one that does not |
| BmsListen.ArrivalsAreOrdered | packages/bms-monitoring/src/main.rs:237-268 | stamps follow the order of the stream |
| Silence.LimitMeans | packages/bms-monitoring/src/main.rs:60-64 | a counter reset on success stands at three or more exactly when the last three measurements were silent |
| Silence.GivesUp | packages/bms-monitoring/src/main.rs:60-64 | a run stopped at the limit ends in three silent measurements, any other does not, and no shorter part of either does |
| Polynomial.QuotientIsUnique | packages/inverter-monitoring/src/crc.rs:7-13 | division by a polynomial that leads with one has one quotient and one remainder |
| Crc.XmodemIsRemainder | packages/inverter-monitoring/src/crc.rs:7-13 | the bytewise fold is the remainder of message times x^16 by x^16 + x^12 + x^5 + 1, and no other word is |
| Crc.TapsAreThePolynomial | packages/inverter-monitoring/src/crc.rs:7-13 | the constant 0x1021 is that polynomial without its leading term |
| Crc.XmodemLinear | packages/inverter-monitoring/src/crc.rs:7-13 | the checksum of an xor of equal-length messages is the xor of the checksums |
| Crc.OwnChecksumGivesZero | packages/inverter-monitoring/src/crc.rs:7-24 | a message followed by its own two big-endian checksum bytes has checksum zero |
| Crc.BurstDetected | packages/inverter-monitoring/src/crc.rs:7-13 | bits that differ only within sixteen consecutive ones leave the register different |
| Crc.XmodemBurst | packages/inverter-monitoring/src/crc.rs:7-13 | two messages that differ only within sixteen consecutive bits have different checksums |
| Crc.TwoBytesDetected | packages/inverter-monitoring/src/crc.rs:7-13 | so does any change within two adjacent bytes |
| Crc.OddFlipsDetected | packages/inverter-monitoring/src/crc.rs:7-13 | so does any odd number of flipped bits |
| Register.Crc16IsXmodem | packages/inverter-monitoring/src/crc.rs:7-13 | the shifts and exclusive ors on a 16-bit word compute that checksum, for every byte sequence |
| Words.TurnedIsTurn | packages/inverter-monitoring/src/crc.rs:7-13 | the turns of a 16-bit machine word, shift and exclusive or, are those of the register of bits |
| Period.PowerPlus | packages/inverter-monitoring/src/crc.rs:7-13 | turning is multiplication by powers of x: their product is the power of the sum |
| Period.ReturnsIff | packages/inverter-monitoring/src/crc.rs:7-13 | the register comes back after a multiple of 32767 turns and at no other time |
| Period.TwoFlipsMissedIff | packages/inverter-monitoring/src/crc.rs:7-13 | two flipped bits leave the checksum as it was exactly when they are a multiple of 32767 apart |
| Period.TwoFlipsDetected | packages/inverter-monitoring/src/crc.rs:7-13 | so in a message of up to 4095 bytes any two flipped bits change it |
| Protocol.ParseAcceptsExactlyBuilt | packages/inverter-monitoring/src/protocol.rs:98-131 | the parser accepts a byte string exactly when it was built from a payload, and returns that payload, or NAK exactly for the payload NAK |
| Protocol.FrameEndsAtFirstCr | packages/inverter-monitoring/src/crc.rs:21-31 | no wire checksum byte is `(`, LF or CR, so the first CR of a frame is its last byte |
| Protocol.IndistinguishableIff | packages/inverter-monitoring/src/crc.rs:21-31 | two covered parts share wire checksums exactly when the raw checksum bytes alias under the escape |
| Protocol.CorruptionAcceptedIff | packages/inverter-monitoring/src/protocol.rs:98-121 | a payload corrupted under its checksum is accepted exactly when they do |
| Protocol.ChecksumChangeRejected | packages/inverter-monitoring/src/protocol.rs:98-121 | a change confined to the checksum bytes is always rejected |
| Protocol.OddFlipsOnWire | packages/inverter-monitoring/src/crc.rs:7-31 | after an odd number of flips wire checksums coincide only if the raw ones differ by one of four masks |
| Protocol.MaskValues | packages/inverter-monitoring/src/crc.rs:21-31 | those masks are 0x0001, 0x0100, 0x0103 and 0x0301 |
| Protocol.OddFlipsCanPass | packages/inverter-monitoring/src/crc.rs:7-31 | after any prefix there are two continuations an odd number of flips apart with one wire checksum |
| Protocol.OddFlipsAccepted | packages/inverter-monitoring/src/protocol.rs:98-121 | the parser accepts such a corruption of a frame, for every low checksum byte |
| Collision.OddFlipsGoThrough | packages/inverter-monitoring/src/port.rs:255-274 | and the reader can hand it on: a frame of printable bytes, without a carriage return in its payload, is an odd number of flips from another with the same checksum bytes |
| InverterPort.PushChunk | packages/inverter-monitoring/src/port.rs:255-267 | the frame grows up to and including the first CR, or by the whole chunk if it has none |
| InverterPort.ReadFrame | packages/inverter-monitoring/src/port.rs:255-274 | the loop returns what the reads bring; a frame ends at the first CR, or is an over-long line without one; never above 576 bytes; a timeout means the deadline passed |
| InverterPort.FramingIsTransparent | packages/inverter-monitoring/src/port.rs:255-274 | a response of at most 512 bytes, whatever the cuts and whatever follows, is returned whole exactly when reads begun before the deadline bring all of it with the adapter still there; and it parses to its payload |
| InverterPort.InTimeMeans | packages/inverter-monitoring/src/port.rs:255-274 | the loop goes on through enough reads exactly when some number of turns brings the bytes, the last of them begun in time |
| InverterPort.ReadIs | packages/inverter-monitoring/src/port.rs:255-274 | every read of a frame, whatever is on the line, comes to what its first deciding moment says: time is up, the adapter is gone, a read brings a CR, or takes the frame past 512 bytes |
| InverterSession.StillAskedMeans | packages/inverter-monitoring/src/main.rs:243-273 | the commands still asked are the listed ones minus exactly the refused |
| InverterSession.Session.ReadCommand | packages/inverter-monitoring/src/main.rs:243-273 | a refused command is not written; any other is written once and booked; the counters keep matching the record of exchanges |
| InverterSession.PollCycle | packages/inverter-monitoring/src/main.rs:276-303 | a cycle writes exactly the live commands not yet refused, in order, all of them unless the port goes, and reports exactly the payloads that parsed |
| InverterSession.ReadIdentity | packages/inverter-monitoring/src/main.rs:306-335 | likewise for the identity commands, with unparsed payloads left uncounted |
| InverterSession.Run | packages/inverter-monitoring/src/main.rs:531-571 | the record of sweeps is all that was exchanged and written: each sweep, of the kind then due, asks in order the listed commands minus those refused before it, and reports exactly what parsed; the counters match it; the run ends only on a lost port, on the first three empty cycles in a row, or after one cycle by request |
| PollingMeaning.RequestIs | packages/inverter-monitoring/src/protocol.rs:28-54 | a request is the letters of its command, their two checksum bytes and a carriage return |
| PollingMeaning.ExchangeMeans | packages/inverter-monitoring/src/main.rs:243-273 | a failed write or read ends the run, silence or a frame no unit can have built is a loss, a frame built from NAK is a refusal, and any other brings exactly the payload it was built from |
| PollingMeaning.AskedInOrder | packages/inverter-monitoring/src/main.rs:276-335 | the commands still asked keep the order of their list |
| PollingMeaning.OrderOfSweeps | packages/inverter-monitoring/src/main.rs:531-571 | the identity comes first, and again exactly after a cycle at whose tick a refresh is due; otherwise the live commands |
| PollingMeaning.SweepAsksIts | packages/inverter-monitoring/src/main.rs:276-335 | each sweep asks, of the commands of its kind, those not refused before it |
| PollingMeaning.EndsExactlyWhen | packages/inverter-monitoring/src/main.rs:531-571 | a run gives up exactly when its last three completed cycles reported nothing, never passing over three such before, and ends for the port exactly when the last sweep lost it |
| PollingMeaning.CountersMean | packages/inverter-monitoring/src/main.rs:243-303 | one discarded frame for each exchange lost and for each live payload that would not parse; one unsupported command for each refused |
| Ntp.ExtensionFields | packages/time-correction/src/ntp.rs:46-65 | the loop finds the fields of the specification from byte 48 |
| Ntp.FieldsTile | packages/time-correction/src/ntp.rs:46-65 | fields lie end to end and fill the packet but for at most three bytes |
| Ntp.TilesInOrder | packages/time-correction/src/ntp.rs:46-65 | of two fields the earlier ends before the later one's header begins |
| Ntp.IdentifierBefore | packages/time-correction/src/ntp.rs:130-153 | a response that passes the position check has its identifier wholly before the authenticator's header |
| Ntp.HeaderDecides | packages/time-correction/src/ntp.rs:115-128 | a response is refused exactly by its first two bytes as short, not a server's, unsynchronised or a kiss of death; a time comes only from one that is none of these |
| NtpMeaning.ResponseIs | packages/time-correction/src/ntp.rs:109-198 | every other response: refused by its fields, its first seal or its first identifier, each with its error, or giving the second that bytes forty to forty-three spell in their era |
| Ntp.BelievedMeansAuthenticated | packages/time-correction/src/ntp.rs:109-177 | a believed response's first authenticator holds the seal, under the server's key, of everything before it; that is a believable header and an identifier field that echoes the request; the time is read from it alone |
| Ntp.AuthenticatedIsBelieved | packages/time-correction/src/ntp.rs:109-177 | and whatever was sealed so, over such a header and identifier, is believed |
| Ntp.LaterBytesDoNotMatter | packages/time-correction/src/ntp.rs:109-177 | nothing after the first authenticator changes the result while it still parses as fields |
| NtpExchange.WalkBuilt | packages/time-correction/src/ntp.rs:35-65 | walking a packet built from any well-formed fields finds exactly those fields |
| NtpExchange.BodiesBuilt | packages/time-correction/src/ntp.rs:35-65 | and each with exactly the bytes it was built from |
| NtpExchange.WellFormedIffFits | packages/time-correction/src/ntp.rs:35-43 | a built field says its own length exactly when the padded body plus four is below 65536 |
| NtpExchange.RequestReads | packages/time-correction/src/ntp.rs:73-106 | a server walking the request finds the identifier, the cookie and a tag that opens, whenever the padded cookie fits its field |
| NtpExchange.RequestBegins | packages/time-correction/src/ntp.rs:73-87 | a request is built exactly with a key of 32 bytes, and begins with a client's header of version 4, empty but for its first byte |
| NtpExchange.ResponseReads | packages/time-correction/src/ntp.rs:109-177 | a response sealed for the request's identifier passes every check |
| NtpExchange.TimeRoundTrip | packages/time-correction/src/ntp.rs:184-198 | the server's second comes back exactly for those in [-61505152, 4233462143] other than 2085978496 |
| Nts.ResponseComplete | packages/time-correction/src/nts.rs:99-110 | true exactly when an end-of-message record's header has arrived |
| Nts.ParseResponse | packages/time-correction/src/nts.rs:113-211 | the loop reads what the records up to the end say, with each of its failures |
| Nts.EndIsStable | packages/time-correction/src/nts.rs:99-110 | more bytes never move the end: a complete response stays complete |
| Nts.ReadMeansComplete | packages/time-correction/src/nts.rs:99-211 | whatever parses is complete |
| Nts.CutResult | packages/time-correction/src/nts.rs:99-211 | a stream cut after its end header reads as the whole does, or fails for the missing body |
| Nts.CutsDoNotMatterIff | packages/time-correction/src/nts.rs:99-211 | for a stream that reads, every complete cut reads the same exactly when the end-of-message record has no body |
| Nts.CookieLeavesRoom | packages/time-correction/src/nts.rs:113-211 | a cookie is at most the message less twenty bytes, because of the records that must be beside it |
| Nts.PrintThenRead | packages/time-correction/src/nts.rs:113-211 | reading what a server printed says exactly what its records say, in order |
| NtsMeaning.AgreementIs | packages/time-correction/src/nts.rs:113-211 | whatever records a server prints, the client agrees to exactly what they say (the last of each kind, every cookie in order) or reports the first refused, or what they lack |
| NtsMeaning.UnendedIs | packages/time-correction/src/nts.rs:113-195 | whole records with no end after them are reported as unended, unless one of them is refused before |
| TimeServer.Establish | packages/time-correction/src/timeserver.rs:98-122 | the read loop gathers until complete, ended, failed or beyond the cap, and then parses |
| TimeServer.EstablishmentIs | packages/time-correction/src/timeserver.rs:98-122 | every establishment: gathered up to the first read that completes it and then read, or closed early, broken or beyond 64 KiB as the first deciding read was |
| TimeServer.ChunkingDoesNotMatter | packages/time-correction/src/timeserver.rs:98-122 | one result for every cutting of a stream into reads that stay within the cap |
| TimeServer.CookieCanBeSpent | packages/time-correction/src/timeserver.rs:155-170 | every cookie of an agreement within the cap is at most 65516 bytes, and the request that spends it is read as meant |
| TimeServer.CookieBoundIsTight | packages/time-correction/src/timeserver.rs:31-31 | a response of exactly the cap can carry a cookie of 65516 bytes |
| TimeServer.BodyMakesCutsMatter | packages/time-correction/src/timeserver.rs:98-122 | a response that ends in a record with a body can be cut so that it is complete and no longer reads |
| Dns.SkipName | packages/time-correction/src/dns.rs:63-102 | the loop is total, within (64 + 1) times (length + 1) turns |
| Dns.SkipEndsAtLiteral | packages/time-correction/src/dns.rs:63-102 | the position returned is past the start, inside, and fixed by the bytes up to the first pointer |
| Dns.SelfPointerRefused | packages/time-correction/src/dns.rs:63-102 | a pointer to itself ends in the jump limit |
| Dns.EncodeQuery | packages/time-correction/src/dns.rs:28-48 | the question is the header, the labels, the terminator, type and class, or the label that is too long |
| Dns.QuestionIsSkipped | packages/time-correction/src/dns.rs:28-102 | skipping consumes exactly the name that encoding wrote |
| Dns.ParseResponse | packages/time-correction/src/dns.rs:114-191 | the loops return what the records carry, with each of the failures |
| Dns.ResponseReads | packages/time-correction/src/dns.rs:114-191 | a response printed from any list of records, owners literal or compressed, parses to exactly its addresses of the asked type, in order |
| Dns.ResponseGives | packages/time-correction/src/dns.rs:114-191 | what comes out of a printed response: the data of exactly the records of the Internet class and the asked type, in order, as addresses; the length of the first of them that is not 4 or 16; or that there are none |
| DnsMeaning.HeaderDecides | packages/time-correction/src/dns.rs:115-135 | a response is refused by its header exactly when it is short, has another identifier, is no response, is cut off, or carries an error code; addresses come only from one that is none of these |
| DnsMeaning.OnlyTheFamily | packages/time-correction/src/dns.rs:160-185 | whatever a message says, only addresses of the family asked for come out of it |
| DnsMeaning.SixtyFourPointers | packages/time-correction/src/dns.rs:63-102 | up to sixty-four pointers are followed, leaving the cursor after the first, and one more is refused |
| DnsMeaning.QuestionIs | packages/time-correction/src/dns.rs:28-48 | the question byte by byte, or refused exactly when some piece of the name is longer than 63 bytes |
| DnsMeaning.CutAtDots | packages/time-correction/src/dns.rs:35-42 | names are cut at their dots, and empty pieces left out |
| Sorting.SortedIsUnique | packages/time-correction/src/quorum.rs:55-58 | a sorted list is determined by its contents, so any sort will do |
| Quorum.Sample | packages/time-correction/src/quorum.rs:27-46 | the loop draws the specified sample |
| Quorum.SampledFromPool | packages/time-correction/src/quorum.rs:27-46 | a draw is a sub-multiset of the pool, for every seed |
| Quorum.Sampled | packages/time-correction/src/quorum.rs:27-46 | its size is the smaller of the count and the pool |
| Quorum.SampledDistinct | packages/time-correction/src/quorum.rs:27-46 | from distinct names it is distinct names |
| Mixing.EveryEntryCanBeDrawn | packages/time-correction/src/quorum.rs:27-46 | no entry of a pool is beyond the draw: for each there is a 64-bit seed that draws it first |
| Quorum.MiddleIsBracketed | packages/time-correction/src/quorum.rs:55-58 | with fewer than half of the values arbitrary, rounding up, the middle lies between two honest ones |
| Quorum.HalfIsTooMany | packages/time-correction/src/quorum.rs:55-58 | and with half arbitrary it can exceed every honest one |
| Quorum.Decide | packages/time-correction/src/quorum.rs:106-146 | the loop over votes decides as specified, failures in their order |
| QuorumMeaning.MiddleIs | packages/time-correction/src/quorum.rs:55-58 | the middle of some values is the entry at half their number, rounded down, of any ordering of them |
| QuorumMeaning.ReadingsAt | packages/time-correction/src/quorum.rs:106-146 | an operator's readings are the seconds of its answers, each once |
| QuorumMeaning.DecisionIs | packages/time-correction/src/quorum.rs:106-146 | every decision: nothing sampled, who was silent, the first at odds with itself, votes further apart than the tolerance, or the middle of the votes |
| Quorum.BelievedIff | packages/time-correction/src/quorum.rs:66-146 | a time is believed exactly when something was sampled, every sampled operator answered and agrees with itself, and every two votes agree |
| Quorum.BelievedMeansAgreed | packages/time-correction/src/quorum.rs:106-146 | it is then a reading of a sampled operator, within tolerance of every vote and twice that of every reading |
| Quorum.HonestMajorityBrackets | packages/time-correction/src/quorum.rs:106-146 | and lies between the votes of two honest operators when fewer than half are not |
| Quorum.DecisionIgnoresOrder | packages/time-correction/src/quorum.rs:106-146 | the outcome is the same for every order of the answers |
| Choose.DistinctOperators | packages/time-correction/src/main.rs:305-313 | the loop lists operators as specified |
| Choose.DistinctOfIsExact | packages/time-correction/src/main.rs:305-313 | each operator of a configured server once, and no other |
| Choose.CheckArity | packages/time-correction/src/main.rs:238-302 | refuses as the arity rules say, in their order |
| ChooseMeaning.RefusedIs | packages/time-correction/src/main.rs:238-302 | exactly which command lines are refused, and for what, counting operators as a set |
| Choose.SamplingAsksDistinctOperators | packages/time-correction/src/main.rs:659-692 | an accepted command line without `--only` asks exactly the sample, each configured and of a different operator, for every seed |
| Choose.NamingAsksDistinctOperators | packages/time-correction/src/main.rs:249-302 | with distinct names `--only` asks as many servers as it lists, one per operator, by pigeonhole from the arity rules |
| Choose.ChoosingSucceeds | packages/time-correction/src/main.rs:659-712 | with distinct names choosing succeeds for every seed: the right number of pairs, no operator and no resolver twice |
| Choose.ServedExactlyWhen | packages/time-correction/src/main.rs:659-712 | without that assumption, an accepted command line is served exactly when it samples or its matching servers are no more than the resolvers |
| Choose.OneEachExactlyWhen | packages/time-correction/src/main.rs:249-302 | and asks no operator twice exactly when it samples or has as many operators as matching servers |
| Choose.OneNameTwice | packages/time-correction/src/main.rs:249-302 | one name on two servers of one operator is accepted and asks it twice, or fails with a single resolver |
| Choose.OneResolverTwice | packages/time-correction/src/main.rs:694-711 | one name on two resolvers sends both pairs through the first |
| Choose.DistinctResolversAreOwn | packages/time-correction/src/main.rs:694-711 | with distinct resolver names no resolver serves two pairs, for every seed, whatever the servers |
| Choose.OwnMeansDrawnDistinct | packages/time-correction/src/main.rs:694-711 | for any names, no resolver serves two pairs exactly when no name was drawn twice |
| Choose.OwnResolversExactlyWhen | packages/time-correction/src/main.rs:694-711 | when every resolver is needed that is, for every seed, exactly when their names are distinct |
| Verify.Intersect | packages/time-correction/src/verify.rs:77-91 | the loop computes the intersection |
| Verify.IntersectionIsExact | packages/time-correction/src/verify.rs:77-91 | an instant is in it exactly when every window holds then, and it is absent exactly when there is no such instant |
| Verify.CommonWindowIsExact | packages/time-correction/src/main.rs:642-647 | an instant is in the common window exactly when there is a window, every one is known, and all hold then |
| Verify.VerifiedWindowIsExact | packages/time-correction/src/verify.rs:146-167 | known exactly when every certificate is readable and one holds at the verified second; contains that second; is the span of exactly the certificates that hold then |
| Verify.VerifiedMeansKnown | packages/time-correction/src/verify.rs:146-167 | after a verification that date-checks the leaf it is unknown only for an unreadable certificate |
| Verify.TimeAgnosticVerifier.VerifyServerCert | packages/time-correction/src/verify.rs:270-344 | pass 1 accepts exactly when the library does at one of the candidate instants, and keeps only chains that passed |
| Verify.FallbackSuitsAll | packages/time-correction/src/verify.rs:99-109 | the fallback instant is the first at which every certificate sent is valid |
| Verify.PassOneLetsThrough | packages/time-correction/src/verify.rs:270-344 | of the chains that a path-dating library accepts at some instant, pass 1 lets through exactly those whose path is valid at the leaf's first instant, or of which every certificate sent is readable and all overlap |
| Deferred.Gathered.Record | packages/time-correction/src/deferred.rs:73-84 | a chain is appended, nothing else changes |
| Deferred.Gathered.Accept | packages/time-correction/src/deferred.rs:88-139 | the loop accepts, or refuses naming the first leg that fails, as specified |
| Deferred.AcceptedExactlyWhen | packages/time-correction/src/deferred.rs:88-139 | a time is accepted exactly when something was recorded and every recorded chain verifies at it; it is passed on unchanged |
| Deferred.JudgementIs | packages/time-correction/src/deferred.rs:88-139 | every judgement: of nothing, naming the leg of the first chain that the library does not verify then, or passing the second on unchanged |
| Deferred.AcceptedInsideItsWindow | packages/time-correction/src/deferred.rs:88-139 | an accepted time always lies inside its window, which is known exactly when each leg's is |
| Deferred.WindowIsOfEveryLeg | packages/time-correction/src/deferred.rs:88-139 | an instant is inside exactly when every certificate of every leg that could have been used holds then |
| Deferred.UnreadableMakesUnknown | packages/time-correction/src/deferred.rs:88-139 | an unreadable certificate makes the window unknown, never wider, and nothing else does |
| Asking.Resolve | packages/time-correction/src/main.rs:442-483 | both families are asked, each of the first address that answers; one chain is recorded for each answer |
| Asking.EstablishFirst | packages/time-correction/src/main.rs:490-512 | keys come from the first candidate that yields them, and only its chain is recorded |
| Asking.FamilyIsMatched | packages/time-correction/src/main.rs:514-527 | the address asked is one the redirect resolved to, of the reachable family whenever there is one |
| Asking.AskPair | packages/time-correction/src/main.rs:418-547 | the exchange, then the floor, then pass 2 over every chain gathered, as specified |
| Asking.AnswersExactlyWhen | packages/time-correction/src/main.rs:529-547 | a pair answers exactly when its claim is at or above the floor and every chain on the way verifies at it |
| Asking.FloorBeforeChains | packages/time-correction/src/main.rs:529-542 | a pair is refused for the floor exactly when its claim is below it, whatever the library would say; and for a chain exactly when its claim is not and a chain fails at it |
| Asking.LegsOfBothKinds | packages/time-correction/src/main.rs:484-512 | every claim comes with a chain of the resolver and one of the key server, so pass 2 is never empty |
| Asking.IdentifiersDiffer | packages/time-correction/src/main.rs:426-520 | no two lookups of one exchange share an identifier |
| Candidates.ExchangeIs | packages/time-correction/src/main.rs:418-529 | every exchange from the network's side: which candidate was taken at each step, every earlier one having failed, under which identifiers; what each failure is; and exactly which chains are kept |
| Correction.CollectAnswers | packages/time-correction/src/main.rs:563-629 | answers, windows and failures are collected in pair order |
| Correction.NothingFailed | packages/time-correction/src/main.rs:563-629 | no failure exactly when every pair answered, and then every answer and window is there |
| Correction.EpochSecondsIs | packages/time-correction/src/main.rs:346-357 | seconds toward the epoch from either side, absent exactly outside the signed range |
| Correction.OneVoteEach | packages/time-correction/src/main.rs:714-742 | with one answer from each of several operators, a time is believed exactly when every two answers agree |
| Correction.Host.Run | packages/time-correction/src/main.rs:714-760 | the clock becomes the agreed second exactly when the outcome is a step, and is otherwise untouched |
| Correction.EndsIn | packages/time-correction/src/main.rs:714-793 | how every run ends: not chosen, the number of pairs that failed, how the times fail to decide, an unreadable clock, left or would leave inside every window, and otherwise the time of one of the pairs set, to be set or refused by the kernel |
| Correction.DisagreesExactlyWhen | packages/time-correction/src/main.rs:714-742 | when no operator is asked twice, the times fail to decide exactly when there are none or two are further apart than the tolerance |
| Correction.StepsExactlyWhen | packages/time-correction/src/main.rs:714-793 | the exact condition for a step; in particular never unforced inside every known window, and never on a dry run |
| Correction.StepIsVouchedFor | packages/time-correction/src/main.rs:529-793 | after a step: no pair failed, the time is one pair's, it and all of them are at or above the floor, and all lie within twice the tolerance |
| Correction.AnsweredMeansChecked | packages/time-correction/src/main.rs:529-547 | each of those times is the one its server claimed and every chain on the way verifies at it |
| Correction.AcceptedIsJudgedExactly | packages/time-correction/src/main.rs:238-793 | for accepted command lines with distinct names the exact condition applies for every seed |
| Provenance.FoundIsResolved | packages/time-correction/src/main.rs:442-483 | every address found for a name was carried by a message answering an encoded query for it, under a chain that was recorded |
| Provenance.FamilyIsKept | packages/time-correction/src/main.rs:442-483 | a lookup of one family brings addresses of that family alone |
| Provenance.SessionSays | packages/time-correction/src/timeserver.rs:124-153 | where the time is asked: of the key server, the literal or the host its server record names, on the port it names or 123 |
| Provenance.BufferKeeps | packages/time-correction/src/timeserver.rs:155-193 | of a datagram longer than 1024 bytes only those count |
| Provenance.SealedSecondIsClaimed | packages/time-correction/src/timeserver.rs:155-193 | the second a server seals for the request is the second claimed, exactly for those that survive the wire |
| Provenance.ClaimIsShown | packages/time-correction/src/main.rs:484-529 | what a pair claims was sealed under the keys of a session with a resolved address, in answer to a request that spends that session's cookie, at the address the agreement names; all its chains are recorded |
| Provenance.AnswerIsShown | packages/time-correction/src/main.rs:529-547 | an answered pair's time has such a claim behind it, every chain of which verifies at that time |
| Provenance.StepIsShown | packages/time-correction/src/main.rs:714-793 | so has the second a run steps the clock to |
| DnsCrypt.ByTimeSorts | packages/system-metrics/src/dnscrypt.rs:171-172 | the observations in order of time, none lost or added |
| DnsCrypt.ByTimeIsStable | packages/system-metrics/src/dnscrypt.rs:171-172 | and those of one instant keep their order |
| DnsCrypt.Passes | packages/system-metrics/src/dnscrypt.rs:170-189 | the loop builds the specified passes |
| DnsCrypt.LastStart | packages/system-metrics/src/dnscrypt.rs:170-189 | a cluster begins after the last gap above 300 s and has none inside |
| DnsCrypt.PassesAreTheClusters | packages/system-metrics/src/dnscrypt.rs:170-189 | the passes are exactly the maximal clusters, in order |
| DnsCrypt.ClustersAreSpaced | packages/system-metrics/src/dnscrypt.rs:170-189 | and more than the gap apart |
| DnsCrypt.SucceededIs | packages/system-metrics/src/dnscrypt.rs:163-187 | a pass records exactly the providers of its cluster |
| DnsCrypt.EveryPassHolds | packages/system-metrics/src/dnscrypt.rs:163-187 | those observed between its first and last instant |
| DnsCrypt.InExactlyOnePass | packages/system-metrics/src/dnscrypt.rs:170-189 | every observation lies in the span of exactly one pass |
| DnsCrypt.PassesIgnoreOrder | packages/system-metrics/src/dnscrypt.rs:170-189 | whatever order the observations come in, the passes have the same spans and the same providers |
| DnsCrypt.Statuses | packages/system-metrics/src/dnscrypt.rs:201-265 | one status for each configured provider, in order, all read off the same passes |
| DnsCrypt.OkExactlyWhen | packages/system-metrics/src/dnscrypt.rs:201-230 | a provider is up exactly when one of its successes lies in the last pass; with no pass nothing is reported of anyone |
| DnsCrypt.OneOfTheTwo | packages/system-metrics/src/dnscrypt.rs:227-236 | exactly one of last success and last failure is the last pass, the other is absent or older by more than the gap |
| DnsCrypt.AgesAgreeWithVerdict | packages/system-metrics/src/dnscrypt.rs:224-265 | so the reported ages agree with the verdict |
| DnsCrypt.ErrorIsLatest | packages/system-metrics/src/dnscrypt.rs:238-254 | the reason is the provider's latest failure line near the last pass |
| Health.ObservedAt | packages/system-metrics/src/dnscrypt.rs:201-211 | the observations are the successes of configured providers, entry by entry |
| Health.StatusIs | packages/system-metrics/src/dnscrypt.rs:201-265 | every field of every status: the verdict, the time of the latest success if up, the latest failure line about the last pass and of several at one instant the last, and the three ages |
| PortLock.AlwaysSafe | packages/inverter-monitoring/src/port.rs:143-204 | in every interleaving of processes that each keep the order, at most one holds the port, and one the lock turned away has touched nothing |
| PortLock.OnlyTheHolderTouches | packages/bms-monitoring/src/port.rs:194-253 | every touch of the line was by its holder at that moment |
| PortLock.TouchWithoutLock | packages/inverter-monitoring/src/port.rs:119-134 | the order is needed: a touch by a process that has the port open and does not hold it is seen in the trace as one |
| PortLock.FreeAgain | packages/bms-monitoring/src/port.rs:134-145 | whatever anyone did in whatever order, no lock and no flag outlives the descriptors |
| PortLock.FirstLockWins | packages/inverter-monitoring/src/port.rs:119-134 | the first to lock a free port wins and whoever follows loses, however the opens interleave |
| PortLock.OneGetsThrough | packages/inverter-monitoring/src/port.rs:143-204 | the order can be kept to the end: whoever finds the port free and keeps it holds the port, and has touched it only then |
| PortLock.FlagTurnsAway | packages/inverter-monitoring/src/port.rs:152-167 | once the flag is set nobody opens the port until a descriptor is closed |
| PortLock.FlagAloneLetsTwoIn | packages/inverter-monitoring/src/port.rs:127-134 | if both leave the lock out, two processes end up on the line |
| PortLock.Device.OpenPort | packages/inverter-monitoring/src/port.rs:143-204 | whatever others do between the calls and whichever call fails: our own calls keep the order, and a port is returned after exactly open, lock, claim and configure, while holding it; otherwise nothing is left open; a busy port was not touched, and after a failure the line was touched only if the last call failed; busy means the flag or the lock, failed means a call failed |

## Left out

- Device discovery, remembered devices, publication over the Unix socket, and the record tables of both serial
  producers: they neither feed back into what is modelled nor span several functions. Whether a payload parses
  is a parameter of the session.
- The settings publication schedule of `bms-monitoring`: only what the freshest settings frame is.
- Terminal settings, `poll(2)`, `VMIN`/`VTIME` and the difference between signals and spurious wakeups: one
  read of the line yields bytes, nothing, or a lost adapter, and takes some time.
- TLS, HTTP, X.509 parsing, path building and AES-SIV: the certificate library is an arbitrary predicate (with
  the leaf's dates checked where a lemma says so), a certificate has a readable window or not, and sealing is any
  pair in which exactly what was sealed opens.
- UTF-8 decoding and IP-literal parsing are parameters. Log and error texts are left out; error kinds stay.
- Overflow of 64-bit counters and of `i64` differences, and of the 32-bit tick: integers are unbounded except
  where the source truncates (16-bit lengths, 32-bit NTP seconds, 64-bit seeds, the wrapping sum).
- How even the draw is: seeds are arbitrary and every theorem holds for each of them. That every entry can be drawn
  is proved of the first place only.
- How far apart two flipped bits must be for the escape, as opposed to the checksum, to hide them.
- The NTS-KE client request and the key exporter context: constant byte strings.
- The parsing of command-line words into options: the model starts from the options and the arity rules.
- Passing of time between the exchange and the judgement of the clock: `Correction.Host` reads one clock.
- Ages in `system-metrics` are whole microseconds, not floating-point seconds; the journal's line parsers are
  parameters of an entry.
- Choose.OwnResolversExactlyWhen: with resolvers to spare, whether a duplicated name is drawn twice depends on the
  seed; `Choose.OwnMeansDrawnDistinct` decides it for each seed.
- Two lookups of one exchange that ask one resolver address the same query get one answer: what the network does is
  a function of what it is asked.
- That a call which fails leaves the line as it was is assumed by `PortLock`, of `tcgetattr`, `tcsetattr` and `ioctl`.
- Two kernel facts are assumed by `PortLock`: a lock goes with its descriptor, and the exclusive flag goes with the
  last one. A privileged opener that ignores the flag is not modelled.
- The journal, Bluetooth, Wi-Fi, disk and sensor scrapers, and the remote-shell wrapper: text matching and thin
  wrappers with easy properties.
