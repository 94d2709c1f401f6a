/** Building NTP packets with extension fields, and reading them back. */
module NtpExchange {
  import opened Bytes
  import opened Wire
  import opened Ntp

  // ---------------------------------------------------------------- any list of well-formed fields

  /** The bytes of one field: kind, its own length, and a body that keeps four-byte alignment. */
  predicate WellFormed(f: seq<byte>) {
    4 <= |f| && |f| % 4 == 0 && U16At(f, 2) == |f|
  }

  predicate AllWellFormed(list: seq<seq<byte>>) {
    list == [] || (WellFormed(list[0]) && AllWellFormed(list[1..]))
  }

  function Concat(list: seq<seq<byte>>): seq<byte> {
    if list == [] then [] else list[0] + Concat(list[1..])
  }

  /** Where the fields of `list` lie when they follow `offset` bytes. */
  function Layout(list: seq<seq<byte>>, offset: nat): (r: seq<Field>)
    requires AllWellFormed(list)
    ensures |r| == |list|
  {
    if list == [] then []
    else [Field(U16At(list[0], 0), offset + 4, offset + |list[0]|)] + Layout(list[1..], offset + |list[0]|)
  }

  lemma {:induction false} SliceAt(packet: seq<byte>, prefix: seq<byte>, f: seq<byte>, rest: seq<byte>)
    requires packet == prefix + (f + rest)
    ensures |prefix| + |f| <= |packet| && packet[|prefix|..|prefix| + |f|] == f && packet == prefix + f + rest
    ensures forall i :: 0 <= i < |f| ==> packet[|prefix| + i] == f[i]
  {
  }

  lemma {:induction false} FirstField(packet: seq<byte>, prefix: seq<byte>, f: seq<byte>, rest: seq<byte>)
    requires WellFormed(f) && packet == prefix + (f + rest)
    ensures packet == prefix + f + rest
    ensures FieldsFrom(packet, |prefix|)
         == Prepend([Field(U16At(f, 0), |prefix| + 4, |prefix| + |f|)], FieldsFrom(packet, |prefix + f|))
  {
    SliceAt(packet, prefix, f, rest);
    assert U16At(packet, |prefix|) == U16At(f, 0) && U16At(packet, |prefix| + 2) == |f|;
  }

  /** Walking a packet built from any list of well-formed fields gives exactly those fields. */
  lemma {:induction false} WalkBuilt(packet: seq<byte>, prefix: seq<byte>, list: seq<seq<byte>>)
    requires AllWellFormed(list) && packet == prefix + Concat(list)
    ensures FieldsFrom(packet, |prefix|) == Ok(Layout(list, |prefix|))
    decreases |list|
  {
    if list != [] {
      var f, rest := list[0], Concat(list[1..]);
      FirstField(packet, prefix, f, rest);
      WalkBuilt(packet, prefix + f, list[1..]);
    }
  }

  /** A field of a packet, and the bytes it was built from. */
  ghost predicate Holds(packet: seq<byte>, f: Field, bytes: seq<byte>) {
    4 <= |bytes| && 4 <= f.start <= f.end <= |packet| && packet[f.start..f.end] == bytes[4..] && f.kind == U16At(bytes, 0)
  }

  /** And the body of each is the bytes it was built from. */
  lemma {:induction false} BodiesBuilt(packet: seq<byte>, prefix: seq<byte>, list: seq<seq<byte>>, k: nat)
    requires AllWellFormed(list) && packet == prefix + Concat(list) && k < |list|
    ensures Holds(packet, Layout(list, |prefix|)[k], list[k])
    decreases |list|
  {
    SliceAt(packet, prefix, list[0], Concat(list[1..]));
    if k > 0 {
      BodiesBuilt(packet, prefix + list[0], list[1..], k - 1);
    } else {
      assert packet[|prefix|..|prefix| + |list[0]|][4..] == packet[|prefix| + 4..|prefix| + |list[0]|];
    }
  }

  lemma {:induction false} SnocBytes(list: seq<seq<byte>>, f: seq<byte>)
    requires AllWellFormed(list) && WellFormed(f)
    ensures AllWellFormed(list + [f]) && Concat(list + [f]) == Concat(list) + f
    decreases |list|
  {
    var all := list + [f];
    if list == [] {
      assert |all[1..]| == 0;
    } else {
      assert all[1..] == list[1..] + [f];
      SnocBytes(list[1..], f);
    }
  }

  lemma {:induction false} SnocLayout(list: seq<seq<byte>>, f: seq<byte>, offset: nat, end: nat)
    requires AllWellFormed(list) && AllWellFormed(list + [f]) && WellFormed(f) && end == offset + |Concat(list)|
    ensures Layout(list + [f], offset) == Layout(list, offset) + [Field(U16At(f, 0), end + 4, end + |f|)]
    decreases |list|
  {
    var all := list + [f];
    if list == [] {
      assert |all[1..]| == 0;
    } else {
      assert all[1..] == list[1..] + [f];
      SnocLayout(list[1..], f, offset + |list[0]|, end);
    }
  }

  // ---------------------------------------------------------------- the fields this program builds

  lemma {:induction false} PaddedFacts(n: nat)
    ensures n <= Padded(n) < n + 4 && Padded(n) % 4 == 0
  {
  }

  function PaddedBody(body: seq<byte>): seq<byte> { body + Fill(Padded(|body|) - |body|) }

  lemma {:induction false} FieldParts(kind: u16, body: seq<byte>)
    ensures var f := ExtensionField(kind, body);
            && U16At(f, 0) == kind && U16At(f, 2) == |f| % 0x1_0000 && f[4..] == PaddedBody(body) && |f| % 4 == 0
  {
    var f := ExtensionField(kind, body);
    assert f == Be16(kind) + Be16(|f|) + PaddedBody(body);
    assert f[0..2] == Be16(kind) && f[2..4] == Be16(|f|);
    Be16ReadsBack(f, 0, kind);
    Be16ReadsBack(f, 2, |f|);
    PaddedFacts(|body|);
  }

  /** A built field is well formed exactly when its padded length fits sixteen bits; past that the
      length is cut and says something else. */
  lemma {:induction false} WellFormedIffFits(kind: u16, body: seq<byte>)
    ensures WellFormed(ExtensionField(kind, body)) <==> 4 + Padded(|body|) < 0x1_0000
  {
    FieldParts(kind, body);
  }

  function AuthenticatorBody(nonce: seq<byte>, text: seq<byte>): seq<byte> {
    Be16(NONCE_LENGTH) + Be16(|text|) + nonce + text
  }

  lemma {:induction false} AuthenticatorReads(body: seq<byte>, nonce: seq<byte>, text: seq<byte>, rest: seq<byte>)
    requires |nonce| == NONCE_LENGTH && |text| < 0x1_0000
    requires body == AuthenticatorBody(nonce, text) + rest
    ensures AuthenticatorParts(body) == Ok((nonce, text))
  {
    assert body[0..2] == Be16(NONCE_LENGTH) && body[2..4] == Be16(|text|);
    Be16ReadsBack(body, 0, NONCE_LENGTH);
    Be16ReadsBack(body, 2, |text|);
    assert body[4..20] == nonce && body[20..20 + |text|] == text;
  }

  /** The authenticator field over a prefix. */
  function Tag(siv: Siv, prefix: seq<byte>, key: seq<byte>, nonce: seq<byte>): seq<byte> {
    ExtensionField(EF_AUTHENTICATOR, AuthenticatorBody(nonce, siv.seal(key, prefix, nonce, [])))
  }

  /** A packet closed by an authenticator over everything before it. */
  function Sealed(siv: Siv, header: seq<byte>, list: seq<seq<byte>>, key: seq<byte>, nonce: seq<byte>): seq<byte> {
    var prefix := header + Concat(list);
    prefix + Tag(siv, prefix, key, nonce)
  }

  /** An authenticator built over a prefix opens over it, and gives its nonce back. */
  lemma {:induction false} TagOpens(siv: Siv, packet: seq<byte>, h: Field, prefix: seq<byte>, key: seq<byte>, nonce: seq<byte>)
    requires Lawful(siv) && |key| == KEY_LENGTH && |nonce| == NONCE_LENGTH
    requires 4 <= h.start <= h.end <= |packet| && packet[..h.start - 4] == prefix
    requires packet[h.start..h.end] == PaddedBody(AuthenticatorBody(nonce, siv.seal(key, prefix, nonce, [])))
    ensures OpenAuthenticator(siv, packet, h, key) == Ok(nonce)
  {
    var text := siv.seal(key, prefix, nonce, []);
    var body := AuthenticatorBody(nonce, text);
    AuthenticatorReads(packet[h.start..h.end], nonce, text, Fill(Padded(|body|) - |body|));
    assert siv.opens(key, prefix, nonce, text);
  }

  lemma {:induction false} TagIsWellFormed(siv: Siv, prefix: seq<byte>, key: seq<byte>, nonce: seq<byte>)
    requires Lawful(siv) && |nonce| == NONCE_LENGTH
    ensures var tag := Tag(siv, prefix, key, nonce);
            && WellFormed(tag) && U16At(tag, 0) == EF_AUTHENTICATOR
            && tag[4..] == PaddedBody(AuthenticatorBody(nonce, siv.seal(key, prefix, nonce, [])))
  {
    FieldParts(EF_AUTHENTICATOR, AuthenticatorBody(nonce, siv.seal(key, prefix, nonce, [])));
  }

  /** Reading a sealed packet finds the fields put in, then an authenticator that opens over them. */
  lemma {:induction false} SealedReads(siv: Siv, packet: seq<byte>, header: seq<byte>, list: seq<seq<byte>>, key: seq<byte>, nonce: seq<byte>) returns (auth: Field)
    requires Lawful(siv) && |key| == KEY_LENGTH && |nonce| == NONCE_LENGTH && AllWellFormed(list)
    requires packet == Sealed(siv, header, list, key, nonce)
    ensures FieldsFrom(packet, |header|) == Ok(Layout(list, |header|) + [auth])
    ensures auth.kind == EF_AUTHENTICATOR && 4 <= auth.start <= auth.end <= |packet|
    ensures packet[..auth.start - 4] == header + Concat(list)
    ensures OpenAuthenticator(siv, packet, auth, key) == Ok(nonce)
  {
    var prefix := header + Concat(list);
    var tag := Tag(siv, prefix, key, nonce);
    auth := Field(EF_AUTHENTICATOR, |prefix| + 4, |prefix| + |tag|);
    TagIsWellFormed(siv, prefix, key, nonce);
    SealedFields(packet, header, list, tag, auth);
    SealedSlices(packet, prefix, tag);
    TagOpens(siv, packet, auth, prefix, key, nonce);
  }

  lemma {:induction false} SealedFields(packet: seq<byte>, header: seq<byte>, list: seq<seq<byte>>, tag: seq<byte>, auth: Field)
    requires AllWellFormed(list) && WellFormed(tag) && packet == header + Concat(list) + tag
    requires auth == Field(U16At(tag, 0), |header + Concat(list)| + 4, |header + Concat(list)| + |tag|)
    ensures FieldsFrom(packet, |header|) == Ok(Layout(list, |header|) + [auth])
  {
    SnocBytes(list, tag);
    SnocLayout(list, tag, |header|, |header + Concat(list)|);
    Associate(header, Concat(list), tag);
    WalkBuilt(packet, header, list + [tag]);
  }

  lemma {:induction false} Associate(a: seq<byte>, b: seq<byte>, c: seq<byte>)
    ensures a + b + c == a + (b + c)
  {
  }

  lemma {:induction false} SealedSlices(packet: seq<byte>, prefix: seq<byte>, tag: seq<byte>)
    requires packet == prefix + tag && |tag| >= 4
    ensures packet[..|prefix|] == prefix && packet[|prefix| + 4..|prefix| + |tag|] == tag[4..]
  {
  }

  // ---------------------------------------------------------------- the request

  /** The zero header of a client: version 4, mode 3, and nothing about its clock. */
  function RequestHeader(): (r: seq<byte>)
    ensures |r| == HEADER_LENGTH
  {
    [0x23] + Fill(HEADER_LENGTH - 1)
  }

  function RequestFields(cookie: seq<byte>, uniqueId: seq<byte>): seq<seq<byte>> {
    [ExtensionField(EF_UNIQUE_IDENTIFIER, uniqueId), ExtensionField(EF_COOKIE, cookie)]
  }

  /** The request; `None` when the key has the wrong length. */
  function BuildRequest(siv: Siv, cookie: seq<byte>, c2s: seq<byte>, uniqueId: seq<byte>, nonce: seq<byte>): Option<seq<byte>> {
    if |c2s| != KEY_LENGTH then None
    else Some(Sealed(siv, RequestHeader(), RequestFields(cookie, uniqueId), c2s, nonce))
  }

  /** What a server that walks the request finds: the identifier, the cookie it issued, and a tag that
      opens over both. */
  ghost predicate ServerFinds(siv: Siv, packet: seq<byte>, cookie: seq<byte>, c2s: seq<byte>, uniqueId: seq<byte>, nonce: seq<byte>) {
    exists f: Field, g: Field, h: Field ::
      && FieldsFrom(packet, 48) == Ok([f, g, h])
      && f.kind == 0x0104 && f.start <= f.end <= |packet| && packet[f.start..f.end] == uniqueId
      && g.kind == 0x0204 && g.start + |cookie| <= g.end <= |packet| && packet[g.start..g.start + |cookie|] == cookie
      && h.kind == 0x0404 && 4 <= h.start <= h.end <= |packet| && OpenAuthenticator(siv, packet, h, c2s) == Ok(nonce)
  }

  /** A request is built exactly with a key of 32 bytes, and begins with a client's header of version 4,
      empty but for its first byte. */
  lemma {:induction false} RequestBegins(siv: Siv, cookie: seq<byte>, c2s: seq<byte>, uniqueId: seq<byte>, nonce: seq<byte>)
    ensures var r := BuildRequest(siv, cookie, c2s, uniqueId, nonce);
            && (r.Some? <==> |c2s| == 32)
            && (r.Some? ==> |r.value| >= 48 && r.value[0] == 0x23 && forall i :: 1 <= i < 48 ==> r.value[i] == 0)
  {
  }

  lemma {:induction false} RequestFieldsWellFormed(cookie: seq<byte>, uniqueId: seq<byte>)
    requires |uniqueId| == UNIQUE_ID_LENGTH && 4 + Padded(|cookie|) < 0x1_0000
    ensures AllWellFormed(RequestFields(cookie, uniqueId))
  {
    var list := RequestFields(cookie, uniqueId);
    WellFormedIffFits(EF_UNIQUE_IDENTIFIER, uniqueId);
    WellFormedIffFits(EF_COOKIE, cookie);
    var rest: seq<seq<byte>> := list[1..];
    assert rest[0] == list[1] && |rest[1..]| == 0;
    assert AllWellFormed(list[1..]);
  }

  lemma {:induction false} BodyBehind(packet: seq<byte>, header: seq<byte>, list: seq<seq<byte>>, k: nat)
    requires AllWellFormed(list) && k < |list|
    requires |header + Concat(list)| <= |packet| && packet[..|header + Concat(list)|] == header + Concat(list)
    ensures Holds(packet, Layout(list, |header|)[k], list[k])
  {
    var prefix := header + Concat(list);
    BodiesBuilt(prefix, header, list, k);
    var f := Layout(list, |header|)[k];
    SliceOfFront(packet, |prefix|, f.start, f.end);
  }

  lemma {:induction false} SliceOfFront(packet: seq<byte>, n: nat, a: nat, b: nat)
    requires a <= b <= n <= |packet|
    ensures packet[..n][a..b] == packet[a..b]
  {
  }

  lemma {:induction false} CookieInFront(packet: seq<byte>, g: Field, cookie: seq<byte>)
    requires g.start <= g.end <= |packet| && packet[g.start..g.end] == PaddedBody(cookie)
    ensures g.start + |cookie| <= g.end && packet[g.start..g.start + |cookie|] == cookie
  {
    PaddedFacts(|cookie|);
    assert packet[g.start..g.start + |cookie|] == packet[g.start..g.end][..|cookie|];
  }

  /** The request is read as it was meant whenever the padded cookie's length fits its field. */
  lemma {:induction false} RequestReads(siv: Siv, cookie: seq<byte>, c2s: seq<byte>, uniqueId: seq<byte>, nonce: seq<byte>)
    requires Lawful(siv) && |c2s| == KEY_LENGTH && |uniqueId| == UNIQUE_ID_LENGTH && |nonce| == NONCE_LENGTH
    requires 4 + Padded(|cookie|) < 0x1_0000
    ensures ServerFinds(siv, BuildRequest(siv, cookie, c2s, uniqueId, nonce).value, cookie, c2s, uniqueId, nonce)
  {
    var list := RequestFields(cookie, uniqueId);
    RequestFieldsWellFormed(cookie, uniqueId);
    var packet := BuildRequest(siv, cookie, c2s, uniqueId, nonce).value;
    var h := SealedReads(siv, packet, RequestHeader(), list, c2s, nonce);
    var f, g := Layout(list, HEADER_LENGTH)[0], Layout(list, HEADER_LENGTH)[1];
    assert Layout(list, HEADER_LENGTH) + [h] == [f, g, h];
    BodyBehind(packet, RequestHeader(), list, 0);
    BodyBehind(packet, RequestHeader(), list, 1);
    FieldParts(EF_UNIQUE_IDENTIFIER, uniqueId);
    FieldParts(EF_COOKIE, cookie);
    assert PaddedBody(uniqueId) == uniqueId;
    CookieInFront(packet, g, cookie);
  }

  // ---------------------------------------------------------------- the response

  function Be32(v: nat): seq<byte> { Be16(v / 0x1_0000) + Be16(v) }

  /** A server's header at a Unix time: version 4, mode 4, a stratum, and the time as 32-bit seconds since 1900. */
  function ServerHeader(seconds: int): (r: seq<byte>)
    ensures |r| == HEADER_LENGTH
  {
    [0x24, 3] + Fill(38) + Be32((seconds + NTP_TO_UNIX) % 0x1_0000_0000) + Fill(4)
  }

  function ServerResponse(siv: Siv, seconds: int, s2c: seq<byte>, uniqueId: seq<byte>, nonce: seq<byte>): seq<byte> {
    Sealed(siv, ServerHeader(seconds), [ExtensionField(EF_UNIQUE_IDENTIFIER, uniqueId)], s2c, nonce)
  }

  lemma {:induction false} ServerHeaderReads(packet: seq<byte>, seconds: int)
    requires |packet| >= HEADER_LENGTH && packet[..HEADER_LENGTH] == ServerHeader(seconds)
    ensures CheckHeader(packet).Ok?
    ensures Era0(packet) == (seconds + NTP_TO_UNIX) % 0x1_0000_0000
  {
    var h := ServerHeader(seconds);
    var v := (seconds + NTP_TO_UNIX) % 0x1_0000_0000;
    assert forall i :: 0 <= i < HEADER_LENGTH ==> packet[i] == packet[..HEADER_LENGTH][i] == h[i];
    assert packet[40..42] == Be16(v / 0x1_0000) && packet[42..44] == Be16(v);
    Be16ReadsBack(packet, 40, v / 0x1_0000);
    Be16ReadsBack(packet, 42, v);
  }

  lemma {:induction false} OneThenAuthenticator(packet: seq<byte>, f: Field, auth: Field, uniqueId: seq<byte>)
    requires f.kind == EF_UNIQUE_IDENTIFIER && auth.kind == EF_AUTHENTICATOR
    requires 4 <= f.start <= f.end <= auth.start <= auth.end <= |packet| && packet[f.start..f.end] == uniqueId
    ensures Located(packet, [f, auth], uniqueId) == Ok(auth)
  {
    FirstIs([f, auth], EF_AUTHENTICATOR, 1);
    FirstIs([f, auth], EF_UNIQUE_IDENTIFIER, 0);
  }

  /** A response built for the request's identifier passes every check; what is left is its time. */
  lemma {:induction false} ResponseReads(siv: Siv, seconds: int, s2c: seq<byte>, uniqueId: seq<byte>, nonce: seq<byte>)
    requires Lawful(siv) && |s2c| == KEY_LENGTH && |uniqueId| == UNIQUE_ID_LENGTH && |nonce| == NONCE_LENGTH
    ensures var packet := ServerResponse(siv, seconds, s2c, uniqueId, nonce);
            && |packet| >= HEADER_LENGTH && packet[..HEADER_LENGTH] == ServerHeader(seconds)
            && ParseResponse(siv, packet, s2c, uniqueId) == TransmitTimestamp(packet)
  {
    var field := ExtensionField(EF_UNIQUE_IDENTIFIER, uniqueId);
    var list := [field];
    WellFormedIffFits(EF_UNIQUE_IDENTIFIER, uniqueId);
    assert list[1..] == [];
    var packet := ServerResponse(siv, seconds, s2c, uniqueId, nonce);
    var auth := SealedReads(siv, packet, ServerHeader(seconds), list, s2c, nonce);
    BodyBehind(packet, ServerHeader(seconds), list, 0);
    var f := Layout(list, HEADER_LENGTH)[0];
    assert Layout(list, HEADER_LENGTH) + [auth] == [f, auth];
    FieldParts(EF_UNIQUE_IDENTIFIER, uniqueId);
    assert PaddedBody(uniqueId) == uniqueId;
    OneThenAuthenticator(packet, f, auth, uniqueId);
    assert packet[..HEADER_LENGTH] == packet[..auth.start - 4][..HEADER_LENGTH];
    ServerHeaderReads(packet, seconds);
  }

  lemma {:induction false} ResponseLength(siv: Siv, seconds: int, s2c: seq<byte>, uniqueId: seq<byte>, nonce: seq<byte>)
    requires Lawful(siv) && |uniqueId| == UNIQUE_ID_LENGTH && |nonce| == NONCE_LENGTH
    ensures |ServerResponse(siv, seconds, s2c, uniqueId, nonce)| == 124
  {
    var field := ExtensionField(EF_UNIQUE_IDENTIFIER, uniqueId);
    var list := [field];
    assert |list[1..]| == 0 && Concat(list) == field + Concat(list[1..]);
    var prefix := ServerHeader(seconds) + Concat(list);
    var body := AuthenticatorBody(nonce, siv.seal(s2c, prefix, nonce, []));
    assert |body| == 36 && Padded(36) == 36 && Padded(UNIQUE_ID_LENGTH) == 32;
    assert |prefix| == 84 && |ExtensionField(EF_AUTHENTICATOR, body)| == 40;
  }

  /** The server's time comes back for every second from 20 January 1968 to 26 February 2104 but one,
      the instant whose 32-bit form is zero, and for no other. */
  lemma {:induction false} TimeRoundTrip(siv: Siv, seconds: int, s2c: seq<byte>, uniqueId: seq<byte>, nonce: seq<byte>)
    requires Lawful(siv) && |s2c| == KEY_LENGTH && |uniqueId| == UNIQUE_ID_LENGTH && |nonce| == NONCE_LENGTH
    ensures ParseResponse(siv, ServerResponse(siv, seconds, s2c, uniqueId, nonce), s2c, uniqueId) == Ok(seconds)
       <==> -61_505_152 <= seconds <= 4_233_462_143 && seconds != 2_085_978_496
  {
    var packet := ServerResponse(siv, seconds, s2c, uniqueId, nonce);
    ResponseReads(siv, seconds, s2c, uniqueId, nonce);
    ServerHeaderReads(packet, seconds);
    EraPivot(packet, seconds);
  }

  lemma {:induction false} EraPivot(packet: seq<byte>, seconds: int)
    requires |packet| >= HEADER_LENGTH && Era0(packet) == (seconds + NTP_TO_UNIX) % 0x1_0000_0000
    ensures TransmitTimestamp(packet) == Ok(seconds) <==> -61_505_152 <= seconds <= 4_233_462_143 && seconds != 2_085_978_496
  {
  }
}
