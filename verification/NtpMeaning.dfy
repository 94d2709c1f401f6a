/** What a response comes to, told by its bytes and its fields: the time it gives, or why it is refused. */
module NtpMeaning {
  import opened Bytes
  import opened Wire
  import opened Ntp

  /** The first field of a kind. */
  ghost predicate FirstOf(fields: seq<Field>, kind: u16, f: Field) {
    exists k :: 0 <= k < |fields| && fields[k] == f && f.kind == kind && forall h :: 0 <= h < k ==> fields[h].kind != kind
  }

  ghost predicate NoField(fields: seq<Field>, kind: u16) {
    forall f <- fields :: f.kind != kind
  }

  lemma {:induction false} FirstMeans(fields: seq<Field>, kind: u16)
    ensures match First(fields, kind) case Some(f) => FirstOf(fields, kind, f) case None => NoField(fields, kind)
  {
    if First(fields, kind).Some? {
      var i := FirstAt(fields, kind);
    } else {
      NoneLike(fields, kind);
    }
  }

  lemma {:induction false} NoneLike(fields: seq<Field>, kind: u16)
    requires First(fields, kind).None?
    ensures NoField(fields, kind)
  {
    if fields != [] {
      NoneLike(fields[1..], kind);
      assert forall f :: f in fields <==> f == fields[0] || f in fields[1..];
    }
  }

  // ---------------------------------------------------------------- the authenticator

  function Number(s: seq<byte>, i: nat): nat
    requires i + 2 <= |s|
  {
    (s[i] as int) * 256 + s[i + 1]
  }

  /** A length made up to a multiple of four. */
  function RoundedUp(n: nat): nat {
    (n + 3) / 4 * 4
  }

  /** Four bytes from byte forty as a number. */
  function Seconds1900(packet: seq<byte>): nat
    requires |packet| >= 44
  {
    Number(packet, 40) * 0x1_0000 + Number(packet, 42)
  }

  /** What a response comes to once its authenticator is found: a fault of its lengths, of the key or of the
      seal; or the seconds since 1900 that bytes forty to forty-three give, of the era that began then from
      2^31 on and of the next one below, four zeros being no time. */
  ghost predicate SealedIn(siv: Siv, packet: seq<byte>, auth: Field, s2c: seq<byte>, r: Result<int, NtpError>)
    requires |packet| >= 48 && 4 <= auth.start <= auth.end <= |packet|
  {
    var body := packet[auth.start..auth.end];
    if |body| < 4 then r == Err(AuthenticatorShort)
    else
      var n, c, t := Number(body, 0), Number(body, 2), Seconds1900(packet);
      if 4 + n > |body| then r == Err(NonceRunsPast)
      else if 4 + RoundedUp(n) + c > |body| then r == Err(CiphertextRunsPast)
      else if |s2c| != 32 then r == Err(BadKey)
      else if !siv.opens(s2c, packet[..auth.start - 4], body[4..4 + n], body[4 + RoundedUp(n)..4 + RoundedUp(n) + c])
      then r == Err(Forged)
      else if t == 0 then r == Err(ZeroTimestamp)
      else if t >= 0x8000_0000 then r == Ok(t - 2_208_988_800)
      else r == Ok(t + 0x1_0000_0000 - 2_208_988_800)
  }

  function Opened(siv: Siv, packet: seq<byte>, auth: Field, s2c: seq<byte>): Result<int, NtpError>
    requires |packet| >= 48 && 4 <= auth.start <= auth.end <= |packet|
  {
    match OpenAuthenticator(siv, packet, auth, s2c)
    case Err(e) => Err(e)
    case Ok(_) => TransmitTimestamp(packet)
  }

  lemma {:induction false} OpenedIs(siv: Siv, packet: seq<byte>, auth: Field, s2c: seq<byte>)
    requires |packet| >= 48 && 4 <= auth.start <= auth.end <= |packet|
    ensures SealedIn(siv, packet, auth, s2c, Opened(siv, packet, auth, s2c))
  {
  }

  // ---------------------------------------------------------------- the response

  lemma {:induction false} LocatedIs(packet: seq<byte>, fields: seq<Field>, uniqueId: seq<byte>) returns (auth: Field, unique: Field)
    requires forall f <- fields :: 4 <= f.start <= f.end <= |packet|
    ensures var r := Located(packet, fields, uniqueId);
            if NoField(fields, 0x0404) then r == Err(NotAuthenticated)
            else if NoField(fields, 0x0104) then r == Err(NoIdentifier)
            else
              auth in fields && unique in fields && FirstOf(fields, 0x0404, auth) && FirstOf(fields, 0x0104, unique)
              && r == if unique.end > auth.start then Err(IdentifierNotCovered)
                      else if packet[unique.start..unique.end] != uniqueId then Err(IdentifierMismatch) else Ok(auth)
  {
    FirstMeans(fields, 0x0404);
    FirstMeans(fields, 0x0104);
    if First(fields, 0x0404).Some? && First(fields, 0x0104).Some? {
      auth, unique := First(fields, 0x0404).value, First(fields, 0x0104).value;
      assert auth in fields && unique in fields;
    } else {
      auth, unique := Field(0, 0, 0), Field(0, 0, 0);
    }
  }

  /** Every response whose header a client may believe: what it comes to is settled by how it is cut into
      fields, its first authenticator, its first identifier, and what the one seals. */
  lemma {:induction false} ResponseIs(siv: Siv, packet: seq<byte>, s2c: seq<byte>, uniqueId: seq<byte>) returns (auth: Field, unique: Field)
    requires |packet| >= 48 && packet[0] % 8 == 4 && packet[0] / 64 != 3 && packet[1] != 0
    ensures var r, walked := ParseResponse(siv, packet, s2c, uniqueId), FieldsFrom(packet, 48);
            if walked.Err? then r == Err(BadFields(walked.error))
            else if NoField(walked.value, 0x0404) then r == Err(NotAuthenticated)
            else if NoField(walked.value, 0x0104) then r == Err(NoIdentifier)
            else
              && FirstOf(walked.value, 0x0404, auth) && FirstOf(walked.value, 0x0104, unique)
              && 4 <= auth.start <= auth.end <= |packet| && 4 <= unique.start <= unique.end <= |packet|
              && if unique.end > auth.start then r == Err(IdentifierNotCovered)
                 else if packet[unique.start..unique.end] != uniqueId then r == Err(IdentifierMismatch)
                 else SealedIn(siv, packet, auth, s2c, r)
  {
    auth, unique := Field(0, 0, 0), Field(0, 0, 0);
    if FieldsFrom(packet, 48).Ok? {
      var fields := FieldsFrom(packet, 48).value;
      FieldsInside(packet, 48);
      auth, unique := LocatedIs(packet, fields, uniqueId);
      if Located(packet, fields, uniqueId).Ok? { OpenedIs(siv, packet, auth, s2c); }
    }
  }
}
