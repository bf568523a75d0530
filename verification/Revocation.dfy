/** API tokens and their revocation: APIAuthService over HS256 tokens and the jwt_revocations table. Claim names
    are those of RFC 7519, section 4.1. */
module Revocation {
  import opened Srs
  import opened Decimal
  import opened Wrappers
  import QuizTables

  datatype Claims = Claims(subject: int, issuer: string, audience: string, issuedAt: Instant, expiresAt: Instant,
                           jti: string)

  /** What is written into a token: instants are whole seconds. */
  datatype Payload = Payload(sub: int, iss: string, aud: string, iat: int, exp: int, jti: string)

  /** Signing is a faithful encoding: the payload and the key that signed it can be read off the token. */
  datatype Token = Malformed | Signed(key: string, payload: Payload)

  datatype Fault = Invalid | Expired | Storage | NoId

  function Sign(key: string, c: Claims): Token {
    Signed(key, Payload(c.subject, c.issuer, c.audience, QuizTables.Unix(c.issuedAt), QuizTables.Unix(c.expiresAt),
                        c.jti))
  }

  function Parse(key: string, token: Token, now: Instant): Result<Claims, Fault> {
    if token.Malformed? || token.key != key then Err(Invalid)
    else
      var p := token.payload;
      var c := Claims(p.sub, p.iss, p.aud, QuizTables.FromUnix(p.iat), QuizTables.FromUnix(p.exp), p.jti);
      if now >= c.expiresAt then Err(Invalid) else Ok(c)
  }

  // ----- The table jwt_revocations -----

  datatype Row = Row(userId: int, expiresAt: int)

  type Rows = map<string, Row>

  /** A second revocation of a jti replaces the expiry and keeps the user. */
  function Upsert(rows: Rows, jti: string, userId: int, expiresAt: int): Rows {
    rows[jti := Row(if jti in rows then rows[jti].userId else userId, expiresAt)]
  }

  function Unexpired(rows: Rows, now: Instant): (kept: Rows)
    ensures kept.Keys <= rows.Keys
  {
    map jti | jti in rows && rows[jti].expiresAt > QuizTables.Unix(now) :: rows[jti]
  }

  const MARKER: string := "user-all-"

  function UserMarker(userId: int, now: Instant): string {
    MARKER + Itoa(userId) + "-" + Itoa(now)
  }

  predicate IsMarker(jti: string) {
    |jti| >= |MARKER| && jti[..|MARKER|] == MARKER
  }

  class JWTRevocationRepo {
    var rows: Rows

    constructor ()
      ensures rows == map[]
    {
      rows := map[];
    }

    method Revoke(jti: string, userId: int, expiresAt: Instant)
      modifies this
      ensures forall at :: rows == RowsStep(old(rows), Event.Revoke(jti, userId, expiresAt, at))
      ensures jti in rows && rows[jti].expiresAt == QuizTables.Unix(expiresAt)
      ensures rows[jti].userId == if jti in old(rows) then old(rows)[jti].userId else userId
      ensures forall k :: k != jti ==> (k in rows <==> k in old(rows)) && (k in rows ==> rows[k] == old(rows)[k])
    {
      var user := userId;
      if jti in rows {
        user := rows[jti].userId;
      }
      rows := rows[jti := Row(user, QuizTables.Unix(expiresAt))];
    }

    method IsRevoked(jti: string, fails: bool) returns (r: Result<bool, Fault>)
      ensures r == if fails then Err(Storage) else Ok(jti in rows)
    {
      if fails {
        return Err(Storage);
      }
      return Ok(jti in rows);
    }

    method RevokeAllForUser(userId: int, now: Instant)
      modifies this
      ensures rows == RowsStep(old(rows), RevokeAll(userId, now))
      ensures UserMarker(userId, now) in rows
      ensures rows[UserMarker(userId, now)].expiresAt == QuizTables.Unix(now + 24 * 3600 * SECOND)
      ensures forall jti :: !IsMarker(jti) ==> (jti in rows <==> jti in old(rows))
    {
      Revoke(UserMarker(userId, now), userId, now + DAY);
      MarkerIsMarker(userId, now);
    }

    /** Returns how many rows went. */
    method PurgeExpired(now: Instant) returns (n: nat)
      modifies this
      ensures forall jti :: jti in rows <==> jti in old(rows) && old(rows)[jti].expiresAt > QuizTables.Unix(now)
      ensures forall jti :: jti in rows ==> rows[jti] == old(rows)[jti]
      ensures rows == RowsStep(old(rows), Purge(now))
      ensures n == |old(rows).Keys - rows.Keys|
    {
      var gone := set jti | jti in rows && rows[jti].expiresAt <= QuizTables.Unix(now);
      n := |gone|;
      ghost var before := rows;
      rows := map jti | jti in rows && jti !in gone :: rows[jti];
      assert rows == Unexpired(before, now);
      assert gone == before.Keys - rows.Keys;
    }
  }

  lemma MarkerIsMarker(userId: int, now: Instant)
    ensures IsMarker(UserMarker(userId, now))
  {
    var tail := Itoa(userId) + "-" + Itoa(now);
    assert UserMarker(userId, now) == MARKER + tail;
  }

  // ----- APIAuthService -----

  datatype Config = Config(key: string, issuer: string, audience: string)

  /** Two readings of the clock: the signer's in Parse, then the service's own. `fails` says whether the table
      could be read. */
  function Verify(cfg: Config, rows: Rows, token: Token, parsedAt: Instant, now: Instant,
      fails: bool): Result<int, Fault> {
    var c := Parse(cfg.key, token, parsedAt);
    if c.Err? then Err(Invalid)
    else if c.value.expiresAt <= now then Err(Expired)
    else if c.value.issuer != cfg.issuer || c.value.audience != cfg.audience then Err(Invalid)
    else if fails then Err(Storage)
    else if c.value.jti in rows then Err(Invalid)
    else Ok(c.value.subject)
  }

  function Issue(cfg: Config, userId: int, ttl: int, jti: string, now: Instant): Token {
    Sign(cfg.key, Claims(userId, cfg.issuer, cfg.audience, now, now + ttl, jti))
  }

  class APIAuthService {
    const cfg: Config
    const jwts: JWTRevocationRepo

    constructor (cfg: Config, jwts: JWTRevocationRepo)
      ensures this.cfg == cfg && this.jwts == jwts
    {
      this.cfg, this.jwts := cfg, jwts;
    }

    /** `id` is the generator's answer, None when it fails. */
    method IssueToken(userId: int, ttl: int, id: Option<string>, now: Instant)
      returns (r: Result<(Token, string, Instant), Fault>)
      ensures id.None? ==> r == Err(NoId)
      ensures id.Some? ==> r == Ok((Issue(cfg, userId, ttl, id.value, now), id.value, now + ttl))
      ensures id.Some? ==>
                r.value.0 == Signed(cfg.key, Payload(userId, cfg.issuer, cfg.audience, QuizTables.Unix(now),
                                                     QuizTables.Unix(now + ttl), id.value))
    {
      var expiresAt := now + ttl;
      if id.None? {
        return Err(NoId);
      }
      var c := Claims(userId, cfg.issuer, cfg.audience, now, expiresAt, id.value);
      return Ok((Sign(cfg.key, c), id.value, expiresAt));
    }

    method VerifyToken(token: Token, parsedAt: Instant, now: Instant, fails: bool) returns (r: Result<int, Fault>)
      ensures r == Verify(cfg, jwts.rows, token, parsedAt, now, fails)
    {
      var c := Parse(cfg.key, token, parsedAt);
      if c.Err? {
        return Err(Invalid);
      }
      if !(c.value.expiresAt > now) {
        return Err(Expired);
      }
      if c.value.issuer != cfg.issuer || c.value.audience != cfg.audience {
        return Err(Invalid);
      }
      var revoked := jwts.IsRevoked(c.value.jti, fails);
      if revoked.Err? {
        return Err(Storage);
      }
      if revoked.value {
        return Err(Invalid);
      }
      return Ok(c.value.subject);
    }

    /** The logout handler: read the token's own jti and expiry, then revoke it. */
    method Logout(token: Token, parsedAt: Instant, userId: int) returns (r: Result<(), Fault>)
      modifies jwts
      ensures r.Ok? <==> Parse(cfg.key, token, parsedAt).Ok?
      ensures r.Ok? ==> jwts.rows == Upsert(old(jwts.rows), token.payload.jti, userId, token.payload.exp)
      ensures r.Err? ==> jwts.rows == old(jwts.rows)
    {
      var c := Parse(cfg.key, token, parsedAt);
      if c.Err? {
        return Err(c.error);
      }
      OwnExpiry(token.payload.exp);
      jwts.Revoke(c.value.jti, userId, c.value.expiresAt);
      return Ok(());
    }
  }

  lemma OwnExpiry(exp: int)
    ensures QuizTables.Unix(QuizTables.FromUnix(exp)) == exp
  {
    QuizTables.AddSeconds(0, exp);
  }

  // ----- Runs -----

  /** `SignElsewhere` is any other use of the same signing key; `Check` is a VerifyToken call. */
  datatype Event =
    | IssueHere(userId: int, ttl: int, jti: string, at: Instant)
    | SignElsewhere(claims: Claims, at: Instant)
    | Revoke(jti: string, userId: int, expiresAt: Instant, at: Instant)
    | RevokeAll(userId: int, at: Instant)
    | Purge(at: Instant)
    | Check(token: Token, at: Instant)

  function RowsStep(rows: Rows, e: Event): Rows {
    match e
    case Revoke(jti, userId, expiresAt, _) => Upsert(rows, jti, userId, QuizTables.Unix(expiresAt))
    case RevokeAll(userId, at) => Upsert(rows, UserMarker(userId, at), userId, QuizTables.Unix(at + DAY))
    case Purge(at) => Unexpired(rows, at)
    case _ => rows
  }

  function RowsAfter(events: seq<Event>): Rows {
    if events == [] then map[] else RowsStep(RowsAfter(events[..|events| - 1]), events[|events| - 1])
  }

  /** The reference: sets that only grow. Purges and user markers do not exist here. */
  datatype History = History(issued: set<Token>, signed: set<Token>, revoked: set<string>, clock: Option<Instant>)

  function HistoryStep(cfg: Config, h: History, e: Event): History {
    var h := h.(clock := Some(e.at));
    match e
    case IssueHere(userId, ttl, jti, at) =>
      var t := Issue(cfg, userId, ttl, jti, at);
      h.(issued := h.issued + {t}, signed := h.signed + {t})
    case SignElsewhere(claims, _) => h.(signed := h.signed + {Sign(cfg.key, claims)})
    case Revoke(jti, _, _, _) => h.(revoked := h.revoked + {jti})
    case _ => h
  }

  function HistoryAfter(cfg: Config, events: seq<Event>): History {
    if events == [] then History({}, {}, {}, None)
    else HistoryStep(cfg, HistoryAfter(cfg, events[..|events| - 1]), events[|events| - 1])
  }

  /** Never handed out or revoked before, and not of the markers' form. */
  ghost predicate FreshJti(h: History, jti: string) {
    !IsMarker(jti) && jti !in h.revoked && forall t :: t in h.signed && t.Signed? ==> t.payload.jti != jti
  }

  /** The clock does not go back, ids are fresh, other users of the key name another issuer or audience, and a
      token is revoked with an expiry no earlier than its own, to the second. */
  ghost predicate Legal(cfg: Config, h: History, e: Event) {
    && (h.clock.None? || h.clock.value <= e.at)
    && match e
       case IssueHere(_, _, jti, _) => FreshJti(h, jti)
       case SignElsewhere(claims, _) =>
         FreshJti(h, claims.jti) && (claims.issuer != cfg.issuer || claims.audience != cfg.audience)
       case Revoke(jti, _, expiresAt, _) =>
         forall t :: t in h.issued && t.Signed? && t.payload.jti == jti ==> QuizTables.Unix(expiresAt) >= t.payload.exp
       case _ => true
  }

  ghost predicate LegalRun(cfg: Config, events: seq<Event>) {
    events != [] ==>
      && LegalRun(cfg, events[..|events| - 1])
      && Legal(cfg, HistoryAfter(cfg, events[..|events| - 1]), events[|events| - 1])
  }

  predicate PastExpiry(h: History, exp: int) {
    h.clock.Some? && QuizTables.FromUnix(exp) <= h.clock.value
  }

  /** A token signed with our key was signed by us exactly when it names us. */
  ghost predicate Provenance(cfg: Config, h: History) {
    && (forall t :: t in h.signed ==> t.Signed? && t.key == cfg.key && !IsMarker(t.payload.jti))
    && (forall t :: t in h.issued <==> t in h.signed && t.payload.iss == cfg.issuer && t.payload.aud == cfg.audience)
  }

  /** The table remembers a revoked jti until its token has expired. */
  ghost predicate Remembers(h: History, rows: Rows) {
    forall t :: t in h.issued && t.Signed? && t.payload.jti in h.revoked ==>
      PastExpiry(h, t.payload.exp) || (t.payload.jti in rows && rows[t.payload.jti].expiresAt >= t.payload.exp)
  }

  /** Apart from markers, nothing is in the table that was not revoked. */
  ghost predicate Justified(h: History, rows: Rows) {
    forall jti :: jti in rows && !IsMarker(jti) ==> jti in h.revoked
  }

  lemma ProvenanceKept(cfg: Config, h: History, e: Event)
    requires Provenance(cfg, h) && Legal(cfg, h, e)
    ensures Provenance(cfg, HistoryStep(cfg, h, e))
  {
  }

  lemma JustifiedKept(cfg: Config, h: History, rows: Rows, e: Event)
    requires Justified(h, rows)
    ensures Justified(HistoryStep(cfg, h, e), RowsStep(rows, e))
  {
    if e.RevokeAll? { MarkerIsMarker(e.userId, e.at); }
  }

  /** What a purge removes has expired, even though the purge compares whole seconds. */
  lemma WholeSeconds(exp: int, now: Instant)
    ensures exp <= QuizTables.Unix(now) <==> QuizTables.FromUnix(exp) <= now
  {
  }

  lemma ClockKept(cfg: Config, h: History, e: Event, exp: int)
    requires Legal(cfg, h, e) && PastExpiry(h, exp)
    ensures PastExpiry(HistoryStep(cfg, h, e), exp)
  {
  }

  lemma RemembersToken(cfg: Config, h: History, rows: Rows, e: Event, t: Token)
    requires Provenance(cfg, h) && Remembers(h, rows) && Legal(cfg, h, e)
    requires t in HistoryStep(cfg, h, e).issued && t.Signed? && t.payload.jti in HistoryStep(cfg, h, e).revoked
    ensures var (h', rows') := (HistoryStep(cfg, h, e), RowsStep(rows, e));
            PastExpiry(h', t.payload.exp) || (t.payload.jti in rows' && rows'[t.payload.jti].expiresAt >= t.payload.exp)
  {
    if t in h.issued && PastExpiry(h, t.payload.exp) {
      ClockKept(cfg, h, e, t.payload.exp);
    } else {
      match e
      case RevokeAll(userId, at) => MarkerIsMarker(userId, at);
      case Purge(at) => WholeSeconds(t.payload.exp, at);
      case _ =>
    }
  }

  lemma {:induction false} RunKeeps(cfg: Config, events: seq<Event>)
    requires LegalRun(cfg, events)
    ensures Provenance(cfg, HistoryAfter(cfg, events))
    ensures Remembers(HistoryAfter(cfg, events), RowsAfter(events))
    ensures Justified(HistoryAfter(cfg, events), RowsAfter(events))
    decreases |events|
  {
    if events != [] {
      var before, e := events[..|events| - 1], events[|events| - 1];
      RunKeeps(cfg, before);
      var h, rows := HistoryAfter(cfg, before), RowsAfter(before);
      ProvenanceKept(cfg, h, e);
      JustifiedKept(cfg, h, rows, e);
      forall t | t in HistoryStep(cfg, h, e).issued && t.Signed? && t.payload.jti in HistoryStep(cfg, h, e).revoked
        ensures PastExpiry(HistoryStep(cfg, h, e), t.payload.exp) ||
                (t.payload.jti in RowsStep(rows, e) && RowsStep(rows, e)[t.payload.jti].expiresAt >= t.payload.exp)
      {
        RemembersToken(cfg, h, rows, e, t);
      }
    }
  }

  /** Nobody without the key can produce its signatures. */
  ghost predicate Unforged(cfg: Config, h: History, token: Token) {
    token.Signed? && token.key == cfg.key ==> token in h.signed
  }

  /** Whatever was purged in between: a token is accepted exactly when it was issued here, has not expired and was
      never revoked; its subject is then returned. */
  lemma VerifyIsGrowOnly(cfg: Config, events: seq<Event>, token: Token, parsedAt: Instant, now: Instant)
    requires LegalRun(cfg, events)
    requires var h := HistoryAfter(cfg, events);
             Unforged(cfg, h, token) && (h.clock.None? || h.clock.value <= parsedAt) && parsedAt <= now
    ensures var h, r := HistoryAfter(cfg, events), Verify(cfg, RowsAfter(events), token, parsedAt, now, false);
            && (r.Ok? <==> token in h.issued && token.Signed? && now < QuizTables.FromUnix(token.payload.exp) &&
                           token.payload.jti !in h.revoked)
            && (r.Ok? ==> r.value == token.payload.sub)
  {
    RunKeeps(cfg, events);
  }

  /** A table that cannot be read lets nobody in. */
  lemma FailsClosed(cfg: Config, rows: Rows, token: Token, parsedAt: Instant, now: Instant)
    ensures Verify(cfg, rows, token, parsedAt, now, true).Err?
    ensures Verify(cfg, rows, token, parsedAt, now, true).error.Storage? <==>
            exists sub :: Verify(cfg, map[], token, parsedAt, now, false) == Ok(sub)
  {
    if Verify(cfg, rows, token, parsedAt, now, true).error.Storage? {
      assert Verify(cfg, map[], token, parsedAt, now, false) == Ok(token.payload.sub);
    }
  }

  // ----- Seconds and fractions -----

  /** A token lives at most its ttl and more than its ttl less one second: the fraction of a second is dropped. */
  lemma {:induction false} Lifetime(cfg: Config, userId: int, ttl: int, jti: string, issuedAt: Instant, now: Instant)
    ensures var r := Verify(cfg, map[], Issue(cfg, userId, ttl, jti, issuedAt), now, now, false);
            && (r.Ok? <==> QuizTables.Unix(now) < QuizTables.Unix(issuedAt + ttl))
            && (now <= issuedAt + ttl - SECOND ==> r == Ok(userId))
            && (now >= issuedAt + ttl ==> r.Err?)
  {
    var exp := QuizTables.Unix(issuedAt + ttl);
    WholeSeconds(exp, now);
    WholeSeconds(exp, issuedAt + ttl);
    WholeSeconds(exp + 1, issuedAt + ttl);
  }

  /** The error kind for expiry appears only when the token expires between the two readings of the clock. */
  lemma ExpiredBetweenReadings(cfg: Config, rows: Rows, token: Token, parsedAt: Instant, now: Instant, fails: bool)
    ensures Verify(cfg, rows, token, parsedAt, now, fails) == Err(Expired) <==>
            token.Signed? && token.key == cfg.key && parsedAt < QuizTables.FromUnix(token.payload.exp) <= now
  {
  }

  // ----- How early an expiry a revocation may carry -----

  ghost predicate RejectedFromThenOn(cfg: Config, rows: Rows, token: Token, purgedAt: Instant) {
    forall now :: purgedAt <= now ==> Verify(cfg, rows, token, now, now, false).Err?
  }

  /** A revocation survives every later purge exactly when its expiry, in whole seconds, is not before the
      token's own. */
  lemma PermanentIff(cfg: Config, rows: Rows, userId: int, token: Token, expiresAt: Instant)
    requires token.Signed? && token.key == cfg.key
    requires token.payload.iss == cfg.issuer && token.payload.aud == cfg.audience
    ensures (forall purgedAt :: RejectedFromThenOn(cfg,
              Unexpired(Upsert(rows, token.payload.jti, userId, QuizTables.Unix(expiresAt)), purgedAt),
              token, purgedAt))
            <==> QuizTables.Unix(expiresAt) >= token.payload.exp
  {
    var rows' := Upsert(rows, token.payload.jti, userId, QuizTables.Unix(expiresAt));
    var exp := token.payload.exp;
    if QuizTables.Unix(expiresAt) >= exp {
      forall purgedAt ensures RejectedFromThenOn(cfg, Unexpired(rows', purgedAt), token, purgedAt) {
        forall now | purgedAt <= now ensures Verify(cfg, Unexpired(rows', purgedAt), token, now, now, false).Err? {
          WholeSeconds(exp, purgedAt);
        }
      }
    } else {
      var purgedAt := QuizTables.FromUnix(QuizTables.Unix(expiresAt));
      OwnExpiry(QuizTables.Unix(expiresAt));
      WholeSeconds(exp, purgedAt);
      assert Verify(cfg, Unexpired(rows', purgedAt), token, purgedAt, purgedAt, false).Ok?;
      assert !RejectedFromThenOn(cfg, Unexpired(rows', purgedAt), token, purgedAt);
    }
  }

  /** A password change refuses no token but one whose id were the marker's own. */
  lemma RevokeAllExact(cfg: Config, rows: Rows, userId: int, at: Instant, token: Token, parsedAt: Instant, now: Instant)
    ensures Verify(cfg, RowsStep(rows, RevokeAll(userId, at)), token, parsedAt, now, false).Ok? <==>
            Verify(cfg, rows, token, parsedAt, now, false).Ok? && token.payload.jti != UserMarker(userId, at)
  {
  }

  /** The marker a password change leaves is looked up by no verification: every token is judged as before. */
  lemma MarkerNotConsulted(cfg: Config, rows: Rows, userId: int, at: Instant, token: Token, parsedAt: Instant,
      now: Instant, fails: bool)
    requires token.Signed? ==> !IsMarker(token.payload.jti)
    ensures Verify(cfg, RowsStep(rows, RevokeAll(userId, at)), token, parsedAt, now, fails)
         == Verify(cfg, rows, token, parsedAt, now, fails)
  {
    MarkerIsMarker(userId, at);
  }
}
