/** Session cookies and claim links (internal/httpapi/session.go, internal/httpapi/claimtoken.go).

    The keyed hash is an arbitrary function `mac` from byte strings to byte strings. */
module Tokens {
  import opened Common
  import opened Text
  import Base64
  import Calendar

  datatype TokenError = Bad | Expired

  const CLAIM_PURPOSE := "clawhub:claim-link:v1:"

  const NUL := 0 as char

  // time.Time.Unix: whole seconds, rounded down.
  function Unix(t: int): int {
    t / Calendar.SECOND
  }

  ghost predicate Hash(mac: string -> string) {
    forall p :: Base64.Bytes(mac(p))
  }

  // Ideal collision freedom, assumed only where a lemma says so.
  ghost predicate CollisionFree(mac: string -> string) {
    forall p, q :: mac(p) == mac(q) ==> p == q
  }

  // ----- sessions -----

  function SessionPayload(userId: string, expiresAt: int): string {
    userId + "." + FormatInt(Unix(expiresAt))
  }

  function EncodeSession(mac: string -> string, userId: string, expiresAt: int): string
    requires Base64.Bytes(mac(SessionPayload(userId, expiresAt)))
  {
    var payload := SessionPayload(userId, expiresAt);
    payload + "." + Base64.Encode(mac(payload))
  }

  // What a payload says once its signature was accepted.
  function ReadSession(payload: string, now: int): Result<string, TokenError> {
    var j := LastIndexOf(payload, '.');
    if j < 0 then Err(Bad)
    else
      var userId, exp := payload[..j], ParseInt(payload[j + 1..]);
      if exp.None? then Err(Bad)
      else if now > exp.value * Calendar.SECOND then Err(Expired)
      else if userId == "" then Err(Bad)
      else Ok(userId)
  }

  function DecodeSession(mac: string -> string, token: string, now: int): Result<string, TokenError> {
    var i := LastIndexOf(token, '.');
    if i < 0 then Err(Bad)
    else
      var payload, sig := token[..i], Base64.Decode(token[i + 1..]);
      if sig.None? || sig.value != mac(payload) then Err(Bad)
      else ReadSession(payload, now)
  }

  // A clock reading whose second count fits the 64 bits Go gives it.
  predicate Representable(t: int) {
    MIN_INT64 <= Unix(t) <= MAX_INT64
  }

  /** A session token opens to its user exactly until its expiry second, for every non-empty
      user id, dots included. */
  lemma SessionRoundTrip(mac: string -> string, userId: string, expiresAt: int, now: int)
    requires Hash(mac) && Representable(expiresAt)
    ensures DecodeSession(mac, EncodeSession(mac, userId, expiresAt), now) ==
            if now > Unix(expiresAt) * Calendar.SECOND then Err(Expired)
            else if userId == "" then Err(Bad)
            else Ok(userId)
  {
    var payload := SessionPayload(userId, expiresAt);
    var sig := Base64.Encode(mac(payload));
    Base64.RoundTrip(mac(payload));
    SealedReads(mac, payload + "." + sig, payload, sig, now);
    IntRoundTrip(Unix(expiresAt));
    SaysReads(payload, userId, FormatInt(Unix(expiresAt)), now);
  }

  // A token made of a payload, a dot and a text that decodes to the payload's tag.
  ghost predicate Sealed(mac: string -> string, token: string, payload: string, tag: string) {
    token == payload + "." + tag && Base64.Decode(tag) == Some(mac(payload))
  }

  // A payload made of a name, a dot and a number.
  ghost predicate Says(payload: string, name: string, number: string) {
    payload == name + "." + number && ParseInt(number).Some?
  }

  // A number read as seconds since the epoch.
  function Deadline(number: string): int
    requires ParseInt(number).Some?
  {
    ParseInt(number).value * Calendar.SECOND
  }

  lemma UnsealedIsBad(mac: string -> string, token: string, now: int)
    requires forall payload, tag :: !Sealed(mac, token, payload, tag)
    ensures DecodeSession(mac, token, now) == Err(Bad)
  {
    var i := LastIndexOf(token, '.');
    if i >= 0 {
      CutAt(token, '.', i);
      assert !Sealed(mac, token, token[..i], token[i + 1..]);
    }
  }

  // A token is cut at its last dot, and the tag holds none.
  lemma SealedReads(mac: string -> string, token: string, payload: string, tag: string, now: int)
    requires token == payload + "." + tag && Base64.Decode(tag).Some?
    ensures DecodeSession(mac, token, now) ==
            if Sealed(mac, token, payload, tag) then ReadSession(payload, now) else Err(Bad)
  {
    Base64.DecodesWithout(tag, '.');
    LastCut(payload, '.', tag);
  }

  lemma SaysReads(payload: string, name: string, number: string, now: int)
    requires Says(payload, name, number)
    ensures ReadSession(payload, now) ==
            if now > Deadline(number) then Err(Expired) else if name == "" then Err(Bad) else Ok(name)
  {
    NumberChars(number, '.');
    LastCut(name, '.', number);
  }

  lemma SaysOnce(payload: string)
    ensures forall x, m, y, n :: Says(payload, x, m) && Says(payload, y, n) ==> x == y && m == n
  {
    forall x, m, y, n | Says(payload, x, m) && Says(payload, y, n)
      ensures x == y && m == n
    {
      NumberChars(m, '.');
      NumberChars(n, '.');
      LastCut(x, '.', m);
      LastCut(y, '.', n);
    }
  }

  lemma SaysNothing(payload: string, now: int)
    requires forall name, number :: !Says(payload, name, number)
    ensures ReadSession(payload, now) == Err(Bad)
  {
    var j := LastIndexOf(payload, '.');
    if j >= 0 {
      CutAt(payload, '.', j);
      assert !Says(payload, payload[..j], payload[j + 1..]);
    }
  }

  /** For every text whatever: as a session it opens to a user exactly if it is the user's name, a
      dot, a number of seconds not yet past, a dot and a text that decodes to the tag of all before
      it; it is out of date exactly if it is so sealed over a number that is past. Anything else is
      refused. */
  lemma SessionOpensExactly(mac: string -> string, token: string, now: int, u: string)
    ensures DecodeSession(mac, token, now) == Ok(u) <==>
            u != "" && exists payload, tag, number ::
                         Sealed(mac, token, payload, tag) && Says(payload, u, number) && now <= Deadline(number)
    ensures DecodeSession(mac, token, now) == Err(Expired) <==>
            exists payload, tag, name, number ::
              Sealed(mac, token, payload, tag) && Says(payload, name, number) && now > Deadline(number)
  {
    if payload, tag :| Sealed(mac, token, payload, tag) {
      SealedReads(mac, token, payload, tag, now);
      SealedOnce(mac, token);
      if name, number :| Says(payload, name, number) {
        SaysReads(payload, name, number, now);
        SaysOnce(payload);
      } else {
        SaysNothing(payload, now);
      }
    } else {
      UnsealedIsBad(mac, token, now);
    }
  }

  lemma SealedOnce(mac: string -> string, token: string)
    ensures forall p, s, q, t :: Sealed(mac, token, p, s) && Sealed(mac, token, q, t) ==> p == q && s == t
  {
    forall p, s, q, t | Sealed(mac, token, p, s) && Sealed(mac, token, q, t)
      ensures p == q && s == t
    {
      Base64.DecodesWithout(s, '.');
      Base64.DecodesWithout(t, '.');
      LastCut(p, '.', s);
      LastCut(q, '.', t);
    }
  }

  /** Without hash collisions a session payload that carries the tag of any other byte string is
      refused, whatever it says and however the tag is written. */
  lemma ForgedSessionRefused(mac: string -> string, payload: string, signed: string, tag: string, now: int)
    requires CollisionFree(mac) && payload != signed && Base64.Decode(tag) == Some(mac(signed))
    ensures DecodeSession(mac, payload + "." + tag, now) == Err(Bad)
  {
    NoCollision(mac, payload, signed);
    SealedReads(mac, payload + "." + tag, payload, tag, now);
  }

  // ----- claim links -----

  function ClaimPayload(storeId: string, expiresAt: int): string {
    storeId + ":" + FormatInt(Unix(expiresAt))
  }

  // The bytes fed to the hash.
  function Signed(claimId: string, payload: string): string {
    CLAIM_PURPOSE + claimId + [NUL] + payload
  }

  lemma ClaimPayloadBytes(storeId: string, expiresAt: int)
    requires Base64.Bytes(storeId)
    ensures Base64.Bytes(ClaimPayload(storeId, expiresAt))
  {
  }

  function EncodeClaim(mac: string -> string, storeId: string, claimId: string, expiresAt: int): string
    requires Base64.Bytes(storeId) && Base64.Bytes(mac(Signed(claimId, ClaimPayload(storeId, expiresAt))))
  {
    ClaimPayloadBytes(storeId, expiresAt);
    var payload := ClaimPayload(storeId, expiresAt);
    Base64.Encode(payload) + "." + Base64.Encode(mac(Signed(claimId, payload)))
  }

  // What a payload says once its signature was accepted.
  function ReadClaimPayload(payload: string, now: int): Result<string, TokenError> {
    var j := IndexOf(payload, ':');
    if j <= 0 then Err(Bad)
    else
      var exp := ParseInt(payload[j + 1..]);
      if exp.None? then Err(Bad)
      else if now > exp.value * Calendar.SECOND then Err(Expired)
      else Ok(payload[..j])
  }

  function DecodeClaim(mac: string -> string, token: string, claimId: string, now: int): Result<string, TokenError> {
    var i := IndexOf(token, '.');
    if i < 0 then Err(Bad)
    else
      var body, sig := Base64.Decode(token[..i]), Base64.Decode(token[i + 1..]);
      if body.None? || sig.None? || sig.value != mac(Signed(claimId, body.value)) then Err(Bad)
      else ReadClaimPayload(body.value, now)
  }

  lemma OpenClaim(mac: string -> string, storeId: string, claimId: string, expiresAt: int)
    requires Hash(mac) && Base64.Bytes(storeId)
    ensures var token := EncodeClaim(mac, storeId, claimId, expiresAt);
            var i := IndexOf(token, '.');
            var payload := ClaimPayload(storeId, expiresAt);
            && i >= 0 && Base64.Decode(token[..i]) == Some(payload)
            && Base64.Decode(token[i + 1..]) == Some(mac(Signed(claimId, payload)))
  {
    ClaimPayloadBytes(storeId, expiresAt);
    var payload := ClaimPayload(storeId, expiresAt);
    Base64.NoSeparator(payload, '.');
    FirstCut(Base64.Encode(payload), '.', Base64.Encode(mac(Signed(claimId, payload))));
    Base64.RoundTrip(payload);
    Base64.RoundTrip(mac(Signed(claimId, payload)));
  }

  // A store id with a colon is cut too early, and what follows is then not a number.
  lemma ColonBreaksPayload(storeId: string, expiresAt: int)
    requires ':' in storeId
    ensures var p := ClaimPayload(storeId, expiresAt);
            IndexOf(p, ':') >= 0 && ParseInt(p[IndexOf(p, ':') + 1..]).None?
  {
    var k := IndexOf(storeId, ':');
    var a, b := storeId[..k], storeId[k + 1..];
    var digits := FormatInt(Unix(expiresAt));
    assert storeId == a + [':'] + b;
    assert ClaimPayload(storeId, expiresAt) == a + [':'] + (b + ":" + digits);
    FirstCut(a, ':', b + ":" + digits);
    ColonIsNoNumber(b, digits);
  }

  lemma ColonIsNoNumber(b: string, digits: string)
    ensures ParseInt(b + ":" + digits).None?
  {
    var rest := b + ":" + digits;
    assert rest[|b|] == ':' && !IsDigit(':');
    assert |b| > 0 ==> rest[1..][|b| - 1] == ':';
  }

  lemma PlainPayload(storeId: string, expiresAt: int)
    requires ':' !in storeId && Representable(expiresAt)
    ensures var p := ClaimPayload(storeId, expiresAt);
            IndexOf(p, ':') == |storeId| && p[..|storeId|] == storeId
            && ParseInt(p[|storeId| + 1..]) == Some(Unix(expiresAt))
  {
    FirstCut(storeId, ':', FormatInt(Unix(expiresAt)));
    IntRoundTrip(Unix(expiresAt));
  }

  lemma ReadWritten(storeId: string, expiresAt: int, now: int)
    requires Representable(expiresAt)
    ensures ReadClaimPayload(ClaimPayload(storeId, expiresAt), now) ==
            if storeId == "" || ':' in storeId then Err(Bad)
            else if now > Unix(expiresAt) * Calendar.SECOND then Err(Expired)
            else Ok(storeId)
  {
    if ':' in storeId {
      ColonBreaksPayload(storeId, expiresAt);
    } else {
      PlainPayload(storeId, expiresAt);
    }
  }

  /** A claim link opens to its store exactly when the store id is non-empty and holds no colon,
      until its expiry second. */
  lemma ClaimRoundTrip(mac: string -> string, storeId: string, claimId: string, expiresAt: int, now: int)
    requires Hash(mac) && Base64.Bytes(storeId) && Representable(expiresAt)
    ensures DecodeClaim(mac, EncodeClaim(mac, storeId, claimId, expiresAt), claimId, now) ==
            if storeId == "" || ':' in storeId then Err(Bad)
            else if now > Unix(expiresAt) * Calendar.SECOND then Err(Expired)
            else Ok(storeId)
  {
    OpenClaim(mac, storeId, claimId, expiresAt);
    ReadWritten(storeId, expiresAt, now);
    var token, payload := EncodeClaim(mac, storeId, claimId, expiresAt), ClaimPayload(storeId, expiresAt);
    DecodeFromParts(mac, token, claimId, now, payload, mac(Signed(claimId, payload)));
  }

  // Decoding a token whose two parts open to a body and a tag.
  lemma DecodeFromParts(mac: string -> string, token: string, claimId: string, now: int, body: string, tag: string)
    requires var i := IndexOf(token, '.');
             i >= 0 && Base64.Decode(token[..i]) == Some(body) && Base64.Decode(token[i + 1..]) == Some(tag)
    ensures DecodeClaim(mac, token, claimId, now)
            == if tag == mac(Signed(claimId, body)) then ReadClaimPayload(body, now) else Err(Bad)
  {
  }

  /** The signed bytes determine both the claim id and the payload, for claim ids without NUL. */
  lemma SignedIsInjective(c: string, p: string, d: string, q: string)
    requires NUL !in c && NUL !in d && Signed(c, p) == Signed(d, q)
    ensures c == d && p == q
  {
    var n := |CLAIM_PURPOSE|;
    assert Signed(c, p)[n..] == c + [NUL] + p;
    assert Signed(d, q)[n..] == d + [NUL] + q;
    FirstCut(c, NUL, p);
    FirstCut(d, NUL, q);
  }

  /** Without hash collisions a link shown with another claim's id is always refused. */
  lemma OtherClaimRefused(mac: string -> string, storeId: string, claimId: string, other: string, expiresAt: int, now: int)
    requires Hash(mac) && CollisionFree(mac) && Base64.Bytes(storeId)
    requires NUL !in claimId && NUL !in other && claimId != other
    ensures DecodeClaim(mac, EncodeClaim(mac, storeId, claimId, expiresAt), other, now) == Err(Bad)
  {
    OpenClaim(mac, storeId, claimId, expiresAt);
    var payload := ClaimPayload(storeId, expiresAt);
    DifferentlySigned(claimId, other, payload);
    NoCollision(mac, Signed(claimId, payload), Signed(other, payload));
    DecodeFromParts(mac, EncodeClaim(mac, storeId, claimId, expiresAt), other, now, payload, mac(Signed(claimId, payload)));
  }

  lemma DifferentlySigned(c: string, d: string, payload: string)
    requires NUL !in c && NUL !in d && c != d
    ensures Signed(c, payload) != Signed(d, payload)
  {
    if Signed(c, payload) == Signed(d, payload) {
      SignedIsInjective(c, payload, d, payload);
    }
  }

  lemma NoCollision(mac: string -> string, p: string, q: string)
    requires CollisionFree(mac) && p != q
    ensures mac(p) != mac(q)
  {
  }

  /** The purpose prefix and the NUL keep the two token kinds apart: no session payload of a
      NUL-free user id is ever the byte string signed for a claim link. */
  lemma SessionsAndLinksDiffer(userId: string, expiresAt: int, claimId: string, payload: string)
    requires NUL !in userId
    ensures SessionPayload(userId, expiresAt) != Signed(claimId, payload)
  {
    FormatIntChars(Unix(expiresAt));
    assert NUL !in SessionPayload(userId, expiresAt);
    assert Signed(claimId, payload)[|CLAIM_PURPOSE| + |claimId|] == NUL;
  }

  // The two parts of a link: the text of a payload and the text of its tag for a claim.
  ghost predicate LinkParts(mac: string -> string, token: string, claimId: string, body: string, tag: string, payload: string) {
    token == body + "." + tag && Base64.Decode(body) == Some(payload)
    && Base64.Decode(tag) == Some(mac(Signed(claimId, payload)))
  }

  lemma LinkReads(mac: string -> string, token: string, claimId: string, body: string, tag: string, payload: string, now: int)
    requires LinkParts(mac, token, claimId, body, tag, payload)
    ensures DecodeClaim(mac, token, claimId, now) == ReadClaimPayload(payload, now)
  {
    Base64.DecodesWithout(body, '.');
    FirstCut(body, '.', tag);
  }

  lemma NoLinkIsBad(mac: string -> string, token: string, claimId: string, now: int)
    requires forall body, tag, payload :: !LinkParts(mac, token, claimId, body, tag, payload)
    ensures DecodeClaim(mac, token, claimId, now) == Err(Bad)
  {
    var i := IndexOf(token, '.');
    if i >= 0 && Base64.Decode(token[..i]).Some? {
      CutAt(token, '.', i);
      assert !LinkParts(mac, token, claimId, token[..i], token[i + 1..], Base64.Decode(token[..i]).value);
    }
  }

  lemma LinkOnce(mac: string -> string, token: string, claimId: string)
    ensures forall b, t, p, c, s, q :: LinkParts(mac, token, claimId, b, t, p) && LinkParts(mac, token, claimId, c, s, q) ==> p == q
  {
    forall b, t, p, c, s, q | LinkParts(mac, token, claimId, b, t, p) && LinkParts(mac, token, claimId, c, s, q)
      ensures p == q
    {
      Base64.DecodesWithout(b, '.');
      Base64.DecodesWithout(c, '.');
      FirstCut(b, '.', t);
      FirstCut(c, '.', s);
    }
  }

  // A payload made of a store, a colon and a number; the colon is the first.
  ghost predicate LinkSays(payload: string, storeId: string, number: string) {
    payload == storeId + ":" + number && storeId != "" && ':' !in storeId && ParseInt(number).Some?
  }

  lemma LinkSaysReads(payload: string, storeId: string, number: string, now: int)
    requires LinkSays(payload, storeId, number)
    ensures ReadClaimPayload(payload, now) == if now > Deadline(number) then Err(Expired) else Ok(storeId)
  {
    FirstCut(storeId, ':', number);
  }

  lemma LinkSaysOnce(payload: string)
    ensures forall x, m, y, n :: LinkSays(payload, x, m) && LinkSays(payload, y, n) ==> x == y && m == n
  {
    forall x, m, y, n | LinkSays(payload, x, m) && LinkSays(payload, y, n)
      ensures x == y && m == n
    {
      FirstCut(x, ':', m);
      FirstCut(y, ':', n);
    }
  }

  lemma LinkSaysNothing(payload: string, now: int)
    requires forall storeId, number :: !LinkSays(payload, storeId, number)
    ensures ReadClaimPayload(payload, now) == Err(Bad)
  {
    var j := IndexOf(payload, ':');
    if j > 0 {
      CutAt(payload, ':', j);
      assert !LinkSays(payload, payload[..j], payload[j + 1..]);
    }
  }

  /** For every text whatever: as a link to a claim it opens to a store exactly if it is two encoded
      parts, the first saying the store and a number of seconds not yet past, the second the tag of
      the first for that claim; it is out of date exactly if that number is past. Anything else is
      refused. */
  lemma ClaimOpensExactly(mac: string -> string, token: string, claimId: string, now: int, storeId: string)
    ensures DecodeClaim(mac, token, claimId, now) == Ok(storeId) <==>
            exists body, tag, payload, number ::
              LinkParts(mac, token, claimId, body, tag, payload) && LinkSays(payload, storeId, number)
              && now <= Deadline(number)
    ensures DecodeClaim(mac, token, claimId, now) == Err(Expired) <==>
            exists body, tag, payload, x, number ::
              LinkParts(mac, token, claimId, body, tag, payload) && LinkSays(payload, x, number) && now > Deadline(number)
  {
    if body, tag, payload :| LinkParts(mac, token, claimId, body, tag, payload) {
      LinkReads(mac, token, claimId, body, tag, payload, now);
      LinkOnce(mac, token, claimId);
      if x, number :| LinkSays(payload, x, number) {
        LinkSaysReads(payload, x, number, now);
        LinkSaysOnce(payload);
      } else {
        LinkSaysNothing(payload, now);
      }
    } else {
      NoLinkIsBad(mac, token, claimId, now);
    }
  }

  /** Without hash collisions neither kind of token opens as the other: no session opens with the tag
      of an issued link, whatever payload it is put behind, ... */
  lemma LinkTagOpensNoSession(mac: string -> string, payload: string, tag: string, claimId: string, storeId: string,
                              expiresAt: int, now: int)
    requires CollisionFree(mac) && Base64.Decode(tag) == Some(mac(Signed(claimId, ClaimPayload(storeId, expiresAt))))
    ensures DecodeSession(mac, payload + "." + tag, now) == Err(Bad)
  {
    var signed := Signed(claimId, ClaimPayload(storeId, expiresAt));
    if payload == signed {
      SealedReads(mac, payload + "." + tag, payload, tag, now);
      SignedIsNoSession(claimId, storeId, expiresAt, now);
    } else {
      ForgedSessionRefused(mac, payload, signed, tag, now);
    }
  }

  // Behind its last dot, if it has one, there is a colon and so no number.
  lemma SignedIsNoSession(claimId: string, storeId: string, expiresAt: int, now: int)
    ensures ReadSession(Signed(claimId, ClaimPayload(storeId, expiresAt)), now) == Err(Bad)
  {
    var front, digits := CLAIM_PURPOSE + claimId + [NUL] + storeId, FormatInt(Unix(expiresAt));
    var s := Signed(claimId, ClaimPayload(storeId, expiresAt));
    assert s == front + ":" + digits;
    FormatIntChars(Unix(expiresAt));
    forall name, number
      ensures !Says(s, name, number)
    {
      ColonBehind(front, digits, name, number);
    }
    SaysNothing(s, now);
  }

  lemma ColonBehind(front: string, digits: string, name: string, number: string)
    requires '.' !in digits
    ensures !Says(front + ":" + digits, name, number)
  {
    var s := front + ":" + digits;
    if Says(s, name, number) {
      assert s[|name|] == '.' && s[|front|] == ':';
      assert |name| < |front|;
      assert number[|front| - |name| - 1] == ':';
      NumberChars(number, ':');
      assert false;
    }
  }

  /** ... and no link opens with the tag of an issued session. */
  lemma SessionTagOpensNoLink(mac: string -> string, body: string, tag: string, userId: string, expiresAt: int,
                              claimId: string, now: int)
    requires CollisionFree(mac) && NUL !in userId && '.' !in body
    requires Base64.Decode(tag) == Some(mac(SessionPayload(userId, expiresAt)))
    ensures DecodeClaim(mac, body + "." + tag, claimId, now) == Err(Bad)
  {
    FirstCut(body, '.', tag);
    var payload := Base64.Decode(body);
    if payload.Some? {
      SessionsAndLinksDiffer(userId, expiresAt, claimId, payload.value);
      NoCollision(mac, SessionPayload(userId, expiresAt), Signed(claimId, payload.value));
    }
  }
}
