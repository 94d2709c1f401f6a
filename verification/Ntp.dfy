/** NTPv4 with NTS extension fields, client side: the request, and what makes a response believed.
    AES-SIV is a pair of functions with the law that a receiver opens exactly what was sealed. */
module Ntp {
  import opened Bytes
  import opened Wire

  const NTP_TO_UNIX: int := 2_208_988_800
  const EF_UNIQUE_IDENTIFIER: u16 := 0x0104
  const EF_COOKIE: u16 := 0x0204
  const EF_AUTHENTICATOR: u16 := 0x0404
  const HEADER_LENGTH: nat := 48
  const UNIQUE_ID_LENGTH: nat := 32
  const NONCE_LENGTH: nat := 16
  const KEY_LENGTH: nat := 32

  // ---------------------------------------------------------------- extension fields

  function Padded(n: nat): nat { (n + 3) / 4 * 4 }

  function ExtensionField(kind: u16, body: seq<byte>): (r: seq<byte>)
    ensures |r| == 4 + Padded(|body|)
  {
    Be16(kind) + Be16(4 + Padded(|body|)) + body + Fill(Padded(|body|) - |body|)
  }

  /** A field found in a packet: its kind, and where its body lies. */
  datatype Field = Field(kind: u16, start: nat, end: nat)

  datatype FieldError = BadLength(at: nat) | RunsPast(at: nat)

  function FieldsFrom(packet: seq<byte>, offset: nat): Result<seq<Field>, FieldError>
    decreases |packet| - offset
  {
    if offset + 4 > |packet| then Ok([])
    else
      var kind := U16At(packet, offset);
      var length := U16At(packet, offset + 2);
      if length < 4 || length % 4 != 0 then Err(BadLength(offset))
      else if offset + length > |packet| then Err(RunsPast(offset))
      else
        Prepend([Field(kind, offset + 4, offset + length)], FieldsFrom(packet, offset + length))
  }

  function Prepend(found: seq<Field>, rest: Result<seq<Field>, FieldError>): Result<seq<Field>, FieldError> {
    if rest.Ok? then Ok(found + rest.value) else rest
  }

  /** Walk the extension fields after the fixed header. */
  method ExtensionFields(packet: seq<byte>) returns (r: Result<seq<Field>, FieldError>)
    ensures r == FieldsFrom(packet, HEADER_LENGTH)
  {
    var found: seq<Field> := [];
    var offset := HEADER_LENGTH;
    assert forall rest: seq<Field> :: found + rest == rest;
    while offset + 4 <= |packet|
      invariant FieldsFrom(packet, HEADER_LENGTH) == Prepend(found, FieldsFrom(packet, offset))
      decreases |packet| - offset
    {
      var kind := U16At(packet, offset);
      var length := U16At(packet, offset + 2);
      if length < 4 || length % 4 != 0 { return Err(BadLength(offset)); }
      if offset + length > |packet| { return Err(RunsPast(offset)); }
      var field := Field(kind, offset + 4, offset + length);
      ghost var rest := FieldsFrom(packet, offset + length);
      assert rest.Ok? ==> found + ([field] + rest.value) == found + [field] + rest.value;
      found := found + [field];
      offset := offset + length;
    }
    assert found + [] == found;
    return Ok(found);
  }

  /** The fields lie end to end from `offset`, each after its own four bytes of header, and leave
      fewer than four bytes over. */
  ghost predicate Tiles(n: nat, offset: nat, fields: seq<Field>)
    decreases |fields|
  {
    if fields == [] then n < offset + 4
    else
      var f := fields[0];
      f.start == offset + 4 && f.start <= f.end <= n && Tiles(n, f.end, fields[1..])
  }

  lemma {:induction false} FieldsTile(packet: seq<byte>, offset: nat)
    requires FieldsFrom(packet, offset).Ok?
    ensures Tiles(|packet|, offset, FieldsFrom(packet, offset).value)
    decreases |packet| - offset
  {
    if offset + 4 <= |packet| {
      FieldsTile(packet, offset + U16At(packet, offset + 2));
    }
  }

  /** So of two fields, the one that ends no later than the other starts lies wholly before the
      other's header as well. */
  lemma {:induction false} TilesInOrder(n: nat, offset: nat, fields: seq<Field>, i: nat, j: nat)
    requires Tiles(n, offset, fields) && i < j < |fields|
    ensures offset + 4 <= fields[i].start <= fields[i].end <= fields[j].start - 4
    ensures fields[j].start <= fields[j].end <= n
    decreases |fields|
  {
    var rest := fields[1..];
    if i > 0 {
      TilesInOrder(n, fields[0].end, rest, i - 1, j - 1);
    } else if j > 1 {
      TilesInOrder(n, fields[0].end, rest, 0, j - 1);
    } else {
      assert rest[0] == fields[1];
    }
  }

  /** The first field of a kind. */
  function First(fields: seq<Field>, kind: u16): (r: Option<Field>)
    ensures r.Some? ==> r.value in fields && r.value.kind == kind
    ensures r.None? ==> forall f <- fields :: f.kind != kind
  {
    if fields == [] then None
    else if fields[0].kind == kind then Some(fields[0])
    else First(fields[1..], kind)
  }

  // ---------------------------------------------------------------- the response

  /** AES-SIV over two associated strings: key, associated data, nonce and plaintext (or ciphertext). */
  datatype Siv = Siv(
    seal: (seq<byte>, seq<byte>, seq<byte>, seq<byte>) -> seq<byte>,
    opens: (seq<byte>, seq<byte>, seq<byte>, seq<byte>) -> bool)

  /** What was sealed, and nothing else, opens; and the tag is sixteen bytes. */
  ghost predicate Lawful(siv: Siv) {
    && (forall key, ad, nonce, text :: siv.opens(key, ad, nonce, text) <==> exists plain :: siv.seal(key, ad, nonce, plain) == text)
    && (forall key, ad, nonce, plain :: |siv.seal(key, ad, nonce, plain)| == 16 + |plain|)
  }

  datatype NtpError =
    | Short | NotServer | Unsynchronised | KissOfDeath | BadFields(error: FieldError)
    | NotAuthenticated | NoIdentifier | IdentifierNotCovered | IdentifierMismatch
    | AuthenticatorShort | NonceRunsPast | CiphertextRunsPast | BadKey | Forged | ZeroTimestamp

  /** The nonce and the ciphertext inside an authenticator's body. */
  function AuthenticatorParts(body: seq<byte>): Result<(seq<byte>, seq<byte>), NtpError> {
    if |body| < 4 then Err(AuthenticatorShort)
    else
      var nonceLength, cipherLength := U16At(body, 0), U16At(body, 2);
      var from := 4 + Padded(nonceLength);
      if 4 + nonceLength > |body| then Err(NonceRunsPast)
      else if from + cipherLength > |body| then Err(CiphertextRunsPast)
      else Ok((body[4..4 + nonceLength], body[from..from + cipherLength]))
  }

  function Era0(packet: seq<byte>): nat
    requires |packet| >= 44
  {
    U16At(packet, 40) * 0x1_0000 + U16At(packet, 42)
  }

  /** Seconds since 1900 as Unix seconds; values below the 1968 pivot belong to the next era. */
  function TransmitTimestamp(packet: seq<byte>): Result<int, NtpError>
    requires |packet| >= HEADER_LENGTH
  {
    var era0 := Era0(packet);
    if era0 == 0 then Err(ZeroTimestamp)
    else if era0 >= 2_147_483_648 then Ok(era0 - NTP_TO_UNIX)
    else Ok(era0 + 4_294_967_296 - NTP_TO_UNIX)
  }

  function CheckHeader(packet: seq<byte>): Result<(), NtpError> {
    if |packet| < HEADER_LENGTH then Err(Short)
    else if packet[0] % 8 != 4 then Err(NotServer)
    else if packet[0] / 64 == 3 then Err(Unsynchronised)
    else if packet[1] == 0 then Err(KissOfDeath)
    else Ok(())
  }

  /** Which headers are refused, and for what: it must be a server's, of a clock that is synchronised, and
      not a kiss of death; the first thing wrong is what is reported. */
  lemma {:induction false} HeaderRefusals(packet: seq<byte>)
    ensures CheckHeader(packet).Ok? <==> |packet| >= 48 && packet[0] % 8 == 4 && packet[0] / 64 != 3 && packet[1] != 0
    ensures CheckHeader(packet) == Err(Short) <==> |packet| < 48
    ensures CheckHeader(packet) == Err(NotServer) <==> |packet| >= 48 && packet[0] % 8 != 4
    ensures CheckHeader(packet) == Err(Unsynchronised) <==> |packet| >= 48 && packet[0] % 8 == 4 && packet[0] / 64 == 3
    ensures CheckHeader(packet) == Err(KissOfDeath)
       <==> |packet| >= 48 && packet[0] % 8 == 4 && packet[0] / 64 != 3 && packet[1] == 0
  {
  }

  /** The first authenticator and the first identifier, once the identifier is covered and matches. */
  function Located(packet: seq<byte>, fields: seq<Field>, uniqueId: seq<byte>): Result<Field, NtpError>
    requires forall f <- fields :: 4 <= f.start <= f.end <= |packet|
  {
    match (First(fields, EF_AUTHENTICATOR), First(fields, EF_UNIQUE_IDENTIFIER))
    case (None, _) => Err(NotAuthenticated)
    case (_, None) => Err(NoIdentifier)
    case (Some(auth), Some(unique)) =>
      if unique.end > auth.start then Err(IdentifierNotCovered)
      else if packet[unique.start..unique.end] != uniqueId then Err(IdentifierMismatch)
      else Ok(auth)
  }

  lemma {:induction false} FieldsInside(packet: seq<byte>, offset: nat)
    requires FieldsFrom(packet, offset).Ok?
    ensures forall f <- FieldsFrom(packet, offset).value :: offset + 4 <= f.start <= f.end <= |packet|
  {
    var fields := FieldsFrom(packet, offset).value;
    FieldsTile(packet, offset);
    forall k | 0 <= k < |fields| ensures offset + 4 <= fields[k].start <= fields[k].end <= |packet| {
      if k > 0 { TilesInOrder(|packet|, offset, fields, 0, k); }
    }
  }

  /** Check the authenticator's tag over everything before its own header; the nonce on success. */
  function OpenAuthenticator(siv: Siv, packet: seq<byte>, auth: Field, s2c: seq<byte>): Result<seq<byte>, NtpError>
    requires 4 <= auth.start <= auth.end <= |packet|
  {
    match AuthenticatorParts(packet[auth.start..auth.end])
    case Err(e) => Err(e)
    case Ok((nonce, text)) =>
      if |s2c| != KEY_LENGTH then Err(BadKey)
      else if !siv.opens(s2c, packet[..auth.start - 4], nonce, text) then Err(Forged)
      else Ok(nonce)
  }

  /** The time a response gives, if it passes every check, in the order of the checks. */
  function ParseResponse(siv: Siv, packet: seq<byte>, s2c: seq<byte>, uniqueId: seq<byte>): Result<int, NtpError> {
    match CheckHeader(packet)
    case Err(e) => Err(e)
    case Ok(_) =>
      match FieldsFrom(packet, HEADER_LENGTH)
      case Err(e) => Err(BadFields(e))
      case Ok(fields) =>
        FieldsInside(packet, HEADER_LENGTH);
        match Located(packet, fields, uniqueId)
        case Err(e) => Err(e)
        case Ok(auth) =>
          match OpenAuthenticator(siv, packet, auth, s2c)
          case Err(e) => Err(e)
          case Ok(_) => TransmitTimestamp(packet)
  }

  lemma {:induction false} LaterFaults(siv: Siv, packet: seq<byte>, s2c: seq<byte>, uniqueId: seq<byte>)
    requires CheckHeader(packet).Ok?
    ensures ParseResponse(siv, packet, s2c, uniqueId) !in {Err(Short), Err(NotServer), Err(Unsynchronised), Err(KissOfDeath)}
  {
  }

  /** Which responses are refused by their first two bytes, and for what: one must be a server's, of a clock
      that is synchronised, and not a kiss of death. Nothing later in the packet makes up for it. */
  lemma {:induction false} HeaderDecides(siv: Siv, packet: seq<byte>, s2c: seq<byte>, uniqueId: seq<byte>)
    ensures var r := ParseResponse(siv, packet, s2c, uniqueId);
            && (r == Err(Short) <==> |packet| < 48)
            && (r == Err(NotServer) <==> |packet| >= 48 && packet[0] % 8 != 4)
            && (r == Err(Unsynchronised) <==> |packet| >= 48 && packet[0] % 8 == 4 && packet[0] / 64 == 3)
            && (r == Err(KissOfDeath) <==> |packet| >= 48 && packet[0] % 8 == 4 && packet[0] / 64 != 3 && packet[1] == 0)
            && (r.Ok? ==> |packet| >= 48 && packet[0] % 8 == 4 && packet[0] / 64 != 3 && packet[1] != 0)
  {
    HeaderRefusals(packet);
    if CheckHeader(packet).Ok? { LaterFaults(siv, packet, s2c, uniqueId); }
  }

  /** What the tag of an accepted response covers: a header a client may believe, and an identifier
      field, the first of its kind, that echoes the request's. */
  ghost predicate CoversHeaderAndIdentifier(covered: seq<byte>, uniqueId: seq<byte>) {
    && |covered| >= 48 && covered[0] % 8 == 4 && covered[0] / 64 != 3 && covered[1] != 0
    && FieldsFrom(covered, HEADER_LENGTH).Ok?
    && var f := First(FieldsFrom(covered, HEADER_LENGTH).value, EF_UNIQUE_IDENTIFIER);
       f.Some? && f.value.start <= f.value.end <= |covered| && covered[f.value.start..f.value.end] == uniqueId
  }

  lemma {:induction false} FirstAt(fields: seq<Field>, kind: u16) returns (i: nat)
    requires First(fields, kind).Some?
    ensures i < |fields| && First(fields, kind) == Some(fields[i])
    ensures forall h :: 0 <= h < i ==> fields[h].kind != kind
  {
    if fields[0].kind == kind {
      i := 0;
    } else {
      var k := FirstAt(fields[1..], kind);
      i := k + 1;
      assert forall h :: 0 < h < i ==> fields[h] == fields[1..][h - 1];
    }
  }

  lemma {:induction false} FirstIs(fields: seq<Field>, kind: u16, i: nat)
    requires i < |fields| && fields[i].kind == kind
    requires forall h :: 0 <= h < i ==> fields[h].kind != kind
    ensures First(fields, kind) == Some(fields[i])
  {
    if i > 0 { FirstIs(fields[1..], kind, i - 1); }
  }

  lemma {:induction false} Agree(a: seq<byte>, b: seq<byte>, n: nat, i: nat)
    requires i + 2 <= n <= |a| && n <= |b| && a[..n] == b[..n]
    ensures U16At(a, i) == U16At(b, i)
  {
    assert a[i] == a[..n][i] == b[..n][i] == b[i];
    assert a[i + 1] == a[..n][i + 1] == b[..n][i + 1] == b[i + 1];
  }

  /** Cutting a packet anywhere past its first field leaves that field in front. */
  lemma {:induction false} CutStep(packet: seq<byte>, offset: nat, n: nat)
    requires offset + 4 <= |packet| && FieldsFrom(packet, offset).Ok?
    requires offset + U16At(packet, offset + 2) <= n <= |packet|
    ensures var next := offset + U16At(packet, offset + 2);
            FieldsFrom(packet[..n], offset) == Prepend([FieldsFrom(packet, offset).value[0]], FieldsFrom(packet[..n], next))
  {
    var cut := packet[..n];
    assert cut[..n] == cut;
    Agree(packet, cut, n, offset);
    Agree(packet, cut, n, offset + 2);
  }

  /** The fields before the `j`th are the fields of the packet cut off where the `j`th begins. */
  lemma {:induction false} FieldsBefore(packet: seq<byte>, offset: nat, j: nat)
    requires FieldsFrom(packet, offset).Ok? && j < |FieldsFrom(packet, offset).value|
    ensures var fields := FieldsFrom(packet, offset).value;
            offset + 4 <= fields[j].start <= |packet|
            && FieldsFrom(packet[..fields[j].start - 4], offset) == Ok(fields[..j])
    decreases |packet| - offset
  {
    var fields := FieldsFrom(packet, offset).value;
    if j == 0 {
      NoneBefore(packet, offset);
    } else {
      var next := FirstThenRest(packet, offset);
      FieldsBefore(packet, next, j - 1);
      BeforeStep(packet, offset, next, fields, FieldsFrom(packet, next).value, j);
    }
  }

  lemma {:induction false} NoneBefore(packet: seq<byte>, offset: nat)
    requires FieldsFrom(packet, offset).Ok? && FieldsFrom(packet, offset).value != []
    ensures var first := FieldsFrom(packet, offset).value[0]; first.start == offset + 4 <= |packet|
    ensures FieldsFrom(packet[..offset], offset) == Ok([])
  {
  }

  lemma {:induction false} BeforeStep(packet: seq<byte>, offset: nat, next: nat, fields: seq<Field>, rest: seq<Field>, j: nat)
    requires FieldsFrom(packet, offset) == Ok(fields) && offset + 4 <= |packet| && next == offset + U16At(packet, offset + 2)
    requires 0 < j < |fields| && fields == [fields[0]] + rest
    requires next + 4 <= rest[j - 1].start <= |packet|
    requires FieldsFrom(packet[..rest[j - 1].start - 4], next) == Ok(rest[..j - 1])
    ensures FieldsFrom(packet[..fields[j].start - 4], offset) == Ok(fields[..j])
  {
    CutStep(packet, offset, fields[j].start - 4);
    assert fields[..j] == [fields[0]] + rest[..j - 1];
  }

  lemma {:induction false} FirstThenRest(packet: seq<byte>, offset: nat) returns (next: nat)
    requires FieldsFrom(packet, offset).Ok? && FieldsFrom(packet, offset).value != []
    ensures offset + 4 <= next <= |packet| && next == offset + U16At(packet, offset + 2) && FieldsFrom(packet, next).Ok?
    ensures FieldsFrom(packet, offset).value == [FieldsFrom(packet, offset).value[0]] + FieldsFrom(packet, next).value
  {
    next := offset + U16At(packet, offset + 2);
  }

  lemma {:induction false} SamePrefix(a: seq<Field>, b: seq<Field>, p: seq<Field>, q: seq<Field>, j: nat)
    requires a != [] && b != [] && a[0] == b[0] && a[1..] == p && b[1..] == q && j <= |p| && j <= |q| && p[..j] == q[..j]
    ensures a[..j + 1] == b[..j + 1]
  {
    assert a[..j + 1] == [a[0]] + p[..j] && b[..j + 1] == [b[0]] + q[..j];
  }

  /** Two packets that agree up to the end of the `j`th field have the same fields up to it. */
  lemma {:induction false} FieldsThrough(a: seq<byte>, b: seq<byte>, offset: nat, j: nat)
    requires FieldsFrom(a, offset).Ok? && FieldsFrom(b, offset).Ok? && j < |FieldsFrom(a, offset).value|
    requires var end := FieldsFrom(a, offset).value[j].end; end <= |a| && end <= |b| && a[..end] == b[..end]
    ensures var fields, others := FieldsFrom(a, offset).value, FieldsFrom(b, offset).value;
            j < |others| && others[..j + 1] == fields[..j + 1]
    decreases |a| - offset
  {
    var fields, others := FieldsFrom(a, offset).value, FieldsFrom(b, offset).value;
    var end := fields[j].end;
    FieldsTile(a, offset);
    if j > 0 { TilesInOrder(|a|, offset, fields, 0, j); }
    Agree(a, b, end, offset);
    Agree(a, b, end, offset + 2);
    if j > 0 {
      var next := offset + U16At(a, offset + 2);
      FieldsThrough(a, b, next, j - 1);
      var p, q := FieldsFrom(a, next).value, FieldsFrom(b, next).value;
      SamePrefix(fields, others, p, q, j);
    }
  }

  /** The covered identifier lies wholly before the authenticator's own header. */
  lemma {:induction false} IdentifierBefore(packet: seq<byte>, uniqueId: seq<byte>) returns (i: nat, j: nat)
    requires FieldsFrom(packet, HEADER_LENGTH).Ok?
    requires forall f <- FieldsFrom(packet, HEADER_LENGTH).value :: 4 <= f.start <= f.end <= |packet|
    requires Located(packet, FieldsFrom(packet, HEADER_LENGTH).value, uniqueId).Ok?
    ensures var fields := FieldsFrom(packet, HEADER_LENGTH).value;
            && i < j < |fields| && fields[i].end <= fields[j].start - 4
            && Located(packet, fields, uniqueId) == Ok(fields[j])
            && packet[fields[i].start..fields[i].end] == uniqueId
            && fields[i].kind == EF_UNIQUE_IDENTIFIER && fields[j].kind == EF_AUTHENTICATOR
            && (forall h :: 0 <= h < i ==> fields[h].kind != EF_UNIQUE_IDENTIFIER)
            && (forall h :: 0 <= h < j ==> fields[h].kind != EF_AUTHENTICATOR)
  {
    var fields := FieldsFrom(packet, HEADER_LENGTH).value;
    i := FirstAt(fields, EF_UNIQUE_IDENTIFIER);
    j := FirstAt(fields, EF_AUTHENTICATOR);
    FieldsTile(packet, HEADER_LENGTH);
    if i < j {
      TilesInOrder(|packet|, HEADER_LENGTH, fields, i, j);
    } else {
      assert j < i;
      TilesInOrder(|packet|, HEADER_LENGTH, fields, j, i);
      assert false;
    }
  }

  lemma {:induction false} SameHeader(packet: seq<byte>, other: seq<byte>, n: nat)
    requires HEADER_LENGTH <= n <= |packet| && n <= |other| && packet[..n] == other[..n]
    ensures CheckHeader(packet) == CheckHeader(other) && TransmitTimestamp(packet) == TransmitTimestamp(other)
  {
    assert packet[0] == packet[..n][0] == other[..n][0] == other[0];
    assert packet[1] == packet[..n][1] == other[..n][1] == other[1];
    Agree(packet, other, n, 40);
    Agree(packet, other, n, 42);
  }

  lemma {:induction false} CoveredCovers(packet: seq<byte>, uniqueId: seq<byte>, fields: seq<Field>, i: nat, j: nat)
    requires CheckHeader(packet).Ok? && FieldsFrom(packet, HEADER_LENGTH) == Ok(fields) && i < j < |fields|
    requires HEADER_LENGTH + 4 <= fields[i].start <= fields[i].end <= fields[j].start - 4 && fields[j].start <= |packet|
    requires packet[fields[i].start..fields[i].end] == uniqueId && fields[i].kind == EF_UNIQUE_IDENTIFIER
    requires forall h :: 0 <= h < i ==> fields[h].kind != EF_UNIQUE_IDENTIFIER
    ensures CoversHeaderAndIdentifier(packet[..fields[j].start - 4], uniqueId)
  {
    var n := fields[j].start - 4;
    var covered := packet[..n];
    assert covered[..n] == covered;
    FieldsBefore(packet, HEADER_LENGTH, j);
    assert FieldsFrom(covered, HEADER_LENGTH) == Ok(fields[..j]);
    assert First(fields[..j], EF_UNIQUE_IDENTIFIER) == Some(fields[i]) by {
      assert fields[..j][i] == fields[i];
      FirstIs(fields[..j], EF_UNIQUE_IDENTIFIER, i);
    }
    SameHeader(packet, covered, n);
    SlicesAgree(packet, covered, n, fields[i].start, fields[i].end);
  }

  lemma {:induction false} CoveredPart(packet: seq<byte>, uniqueId: seq<byte>) returns (i: nat, j: nat)
    requires CheckHeader(packet).Ok? && FieldsFrom(packet, HEADER_LENGTH).Ok?
    requires forall f <- FieldsFrom(packet, HEADER_LENGTH).value :: HEADER_LENGTH + 4 <= f.start <= f.end <= |packet|
    requires Located(packet, FieldsFrom(packet, HEADER_LENGTH).value, uniqueId).Ok?
    ensures var fields := FieldsFrom(packet, HEADER_LENGTH).value;
            && i < j < |fields| && fields[j].start >= HEADER_LENGTH + 4
            && Located(packet, fields, uniqueId) == Ok(fields[j])
            && CoversHeaderAndIdentifier(packet[..fields[j].start - 4], uniqueId)
            && TransmitTimestamp(packet) == TransmitTimestamp(packet[..fields[j].start - 4])
  {
    var fields := FieldsFrom(packet, HEADER_LENGTH).value;
    i, j := IdentifierBefore(packet, uniqueId);
    assert fields[i] in fields && fields[j] in fields;
    CoveredCovers(packet, uniqueId, fields, i, j);
    SameHeader(packet, packet[..fields[j].start - 4], fields[j].start - 4);
  }

  /** `auth` is the packet's authenticator, and holds what sealing `plain` under the server's key makes of
      everything before its own header. */
  ghost predicate Authenticates(siv: Siv, packet: seq<byte>, s2c: seq<byte>, auth: Field, nonce: seq<byte>, plain: seq<byte>) {
    && FieldsFrom(packet, HEADER_LENGTH).Ok?
    && First(FieldsFrom(packet, HEADER_LENGTH).value, EF_AUTHENTICATOR) == Some(auth)
    && HEADER_LENGTH + 4 <= auth.start <= auth.end <= |packet|
    && AuthenticatorParts(packet[auth.start..auth.end]) == Ok((nonce, siv.seal(s2c, packet[..auth.start - 4], nonce, plain)))
  }

  /** If a response is believed, then its first authenticator carries the seal, under the server's key, of
      everything before it; that is a believable header followed by an identifier field that echoes the
      request; and the time is read from it alone. */
  lemma {:induction false} BelievedMeansAuthenticated(siv: Siv, packet: seq<byte>, s2c: seq<byte>, uniqueId: seq<byte>)
    returns (auth: Field, nonce: seq<byte>, plain: seq<byte>)
    requires Lawful(siv) && ParseResponse(siv, packet, s2c, uniqueId).Ok?
    ensures Authenticates(siv, packet, s2c, auth, nonce, plain)
    ensures CoversHeaderAndIdentifier(packet[..auth.start - 4], uniqueId)
    ensures ParseResponse(siv, packet, s2c, uniqueId) == TransmitTimestamp(packet[..auth.start - 4])
  {
    FieldsInside(packet, HEADER_LENGTH);
    var i, j := CoveredPart(packet, uniqueId);
    auth := FieldsFrom(packet, HEADER_LENGTH).value[j];
    assert auth in FieldsFrom(packet, HEADER_LENGTH).value;
    var covered, parts := packet[..auth.start - 4], AuthenticatorParts(packet[auth.start..auth.end]).value;
    nonce := parts.0;
    assert siv.opens(s2c, covered, nonce, parts.1);
    plain :| siv.seal(s2c, covered, nonce, plain) == parts.1;
  }

  lemma {:induction false} IdentifierCovered(packet: seq<byte>, uniqueId: seq<byte>, j: nat) returns (i: nat)
    requires FieldsFrom(packet, HEADER_LENGTH).Ok? && j < |FieldsFrom(packet, HEADER_LENGTH).value|
    requires var start := FieldsFrom(packet, HEADER_LENGTH).value[j].start;
             HEADER_LENGTH + 4 <= start <= |packet| && CoversHeaderAndIdentifier(packet[..start - 4], uniqueId)
    ensures var fields := FieldsFrom(packet, HEADER_LENGTH).value;
            && i < j && First(fields, EF_UNIQUE_IDENTIFIER) == Some(fields[i])
            && fields[i].start <= fields[i].end <= fields[j].start - 4 && packet[fields[i].start..fields[i].end] == uniqueId
  {
    var fields := FieldsFrom(packet, HEADER_LENGTH).value;
    var n := fields[j].start - 4;
    FieldsBefore(packet, HEADER_LENGTH, j);
    i := FirstAt(fields[..j], EF_UNIQUE_IDENTIFIER);
    assert forall h :: 0 <= h <= i ==> fields[..j][h] == fields[h];
    FirstIs(fields, EF_UNIQUE_IDENTIFIER, i);
    assert packet[..n][..n] == packet[..n];
    SlicesAgree(packet[..n], packet, n, fields[i].start, fields[i].end);
  }

  lemma {:induction false} CoveredLocates(packet: seq<byte>, uniqueId: seq<byte>, auth: Field)
    requires FieldsFrom(packet, HEADER_LENGTH).Ok? && HEADER_LENGTH + 4 <= auth.start <= auth.end <= |packet|
    requires First(FieldsFrom(packet, HEADER_LENGTH).value, EF_AUTHENTICATOR) == Some(auth)
    requires CoversHeaderAndIdentifier(packet[..auth.start - 4], uniqueId)
    requires forall f <- FieldsFrom(packet, HEADER_LENGTH).value :: HEADER_LENGTH + 4 <= f.start <= f.end <= |packet|
    ensures Located(packet, FieldsFrom(packet, HEADER_LENGTH).value, uniqueId) == Ok(auth)
  {
    var fields := FieldsFrom(packet, HEADER_LENGTH).value;
    var j := FirstAt(fields, EF_AUTHENTICATOR);
    var i := IdentifierCovered(packet, uniqueId, j);
    LocatesGiven(packet, fields, uniqueId, auth, fields[i]);
  }

  lemma {:induction false} LocatesGiven(packet: seq<byte>, fields: seq<Field>, uniqueId: seq<byte>, auth: Field, unique: Field)
    requires forall f <- fields :: 4 <= f.start <= f.end <= |packet|
    requires First(fields, EF_AUTHENTICATOR) == Some(auth) && First(fields, EF_UNIQUE_IDENTIFIER) == Some(unique)
    requires unique.start <= unique.end <= auth.start - 4 <= |packet| && packet[unique.start..unique.end] == uniqueId
    ensures Located(packet, fields, uniqueId) == Ok(auth)
  {
  }

  /** And conversely: whatever was sealed so, over such a header and identifier, is believed. */
  lemma {:induction false} AuthenticatedIsBelieved(siv: Siv, packet: seq<byte>, s2c: seq<byte>, uniqueId: seq<byte>,
                                                   auth: Field, nonce: seq<byte>, plain: seq<byte>)
    requires Lawful(siv) && |s2c| == KEY_LENGTH && Authenticates(siv, packet, s2c, auth, nonce, plain)
    requires CoversHeaderAndIdentifier(packet[..auth.start - 4], uniqueId)
    ensures ParseResponse(siv, packet, s2c, uniqueId) == TransmitTimestamp(packet[..auth.start - 4])
  {
    FieldsInside(packet, HEADER_LENGTH);
    CoveredLocates(packet, uniqueId, auth);
    SameHeader(packet[..auth.start - 4], packet, auth.start - 4);
  }

  lemma {:induction false} FirstShared(fields: seq<Field>, others: seq<Field>, kind: u16, i: nat, j: nat)
    requires i <= j < |fields| && j < |others| && others[..j + 1] == fields[..j + 1]
    requires fields[i].kind == kind && forall h :: 0 <= h < i ==> fields[h].kind != kind
    ensures First(others, kind) == Some(fields[i])
  {
    assert forall h :: 0 <= h <= j ==> others[h] == others[..j + 1][h] == fields[..j + 1][h] == fields[h];
    FirstIs(others, kind, i);
  }

  lemma {:induction false} SameOpening(siv: Siv, packet: seq<byte>, other: seq<byte>, auth: Field, s2c: seq<byte>)
    requires 4 <= auth.start <= auth.end <= |packet| && auth.end <= |other| && packet[..auth.end] == other[..auth.end]
    ensures OpenAuthenticator(siv, other, auth, s2c) == OpenAuthenticator(siv, packet, auth, s2c)
  {
    SlicesAgree(packet, other, auth.end, auth.start, auth.end);
    SlicesAgree(packet, other, auth.end, 0, auth.start - 4);
  }

  /** Nothing after the first authenticator changes the answer, as long as it still parses as fields. */
  lemma {:induction false} LaterBytesDoNotMatter(siv: Siv, packet: seq<byte>, other: seq<byte>, s2c: seq<byte>, uniqueId: seq<byte>, end: nat)
    requires ParseResponse(siv, packet, s2c, uniqueId).Ok?
    requires FieldsFrom(packet, HEADER_LENGTH).Ok? && FieldsFrom(other, HEADER_LENGTH).Ok?
    requires var auth := First(FieldsFrom(packet, HEADER_LENGTH).value, EF_AUTHENTICATOR); auth.Some? && auth.value.end == end
    requires end <= |packet| && end <= |other| && packet[..end] == other[..end]
    ensures ParseResponse(siv, other, s2c, uniqueId) == ParseResponse(siv, packet, s2c, uniqueId)
  {
    FieldsInside(packet, HEADER_LENGTH);
    FieldsInside(other, HEADER_LENGTH);
    var fields := FieldsFrom(packet, HEADER_LENGTH).value;
    var i, j := IdentifierBefore(packet, uniqueId);
    FirstIs(fields, EF_AUTHENTICATOR, j);
    assert fields[i] in fields && fields[j] in fields;
    var others := FieldsFrom(other, HEADER_LENGTH).value;
    FieldsThrough(packet, other, HEADER_LENGTH, j);
    FirstShared(fields, others, EF_AUTHENTICATOR, j, j);
    FirstShared(fields, others, EF_UNIQUE_IDENTIFIER, i, j);
    SlicesAgree(packet, other, end, fields[i].start, fields[i].end);
    SameOpening(siv, packet, other, fields[j], s2c);
    SameHeader(packet, other, end);
  }

  lemma {:induction false} SlicesAgree(a: seq<byte>, b: seq<byte>, n: nat, from: nat, to: nat)
    requires from <= to <= n <= |a| && n <= |b| && a[..n] == b[..n]
    ensures a[from..to] == b[from..to]
  {
    assert a[from..to] == a[..n][from..to];
    assert b[from..to] == b[..n][from..to];
  }
}
