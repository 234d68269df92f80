/**
 Token validation: claims, the dates each check accepts, the chain check against the known
 tokens, and what is learned and saved when a token is accepted. Tokens are text; decoding,
 signature checking and hashing are parameters.
 */
module Tokens {
  import opened Options
  import opened TextOrder
  import opened Timestamps

  /** A numeric date: whole seconds within the four-digit years. */
  type NumericDate = s: nat | s < 315_569_520_000

  datatype Claims = Claims(
    issuer: string, audience: seq<string>, subject: string, issuedAt: Option<NumericDate>,
    notBefore: Option<NumericDate>, expiresAt: Option<NumericDate>, capabilities: seq<string>, proof: string)

  /** What the code takes from its libraries, and the key and root token of one broker. */
  datatype Setup = Setup(
    claims: string -> Option<Claims>,
    verified: string -> bool,
    hash: string -> string,
    keyOf: string -> Option<string>,
    textOf: string -> string,
    sign: Claims -> string,
    format: Format,
    rootKey: string,
    rootToken: string)

  const SUBJECT := "claude-peers"

  const ALL_CAPABILITIES: seq<string> := [
    "peer/register", "peer/heartbeat", "peer/unregister", "peer/set-summary", "peer/list", "msg/send", "msg/poll",
    "msg/ack", "events/read", "memory/read", "memory/write", "nats/subscribe"]

  function SetOf(capabilities: seq<string>): set<string> {
    set c | c in capabilities
  }

  /**
   Hashing is injective and never empty; signing yields a token with those claims, good under the
   broker's key; times are written faithfully.
   */
  ghost predicate Sound(k: Setup) {
    && (forall a, b :: k.hash(a) == k.hash(b) ==> a == b)
    && (forall a :: k.hash(a) != "")
    && (forall c :: k.claims(k.sign(c)) == Some(c))
    && (forall c: Claims :: c.issuer == k.textOf(k.rootKey) ==> k.verified(k.sign(c)))
    && (forall key :: k.keyOf(k.textOf(key)) == Some(key))
    && Faithful(k.format)
    && RootIssued(k, k.rootToken)
    && SetOf(k.claims(k.rootToken).value.capabilities) == SetOf(ALL_CAPABILITIES)
  }

  /** No parent, and issued under the root key. */
  predicate RootIssued(k: Setup, token: string) {
    && k.claims(token).Some? && k.claims(token).value.proof == ""
    && k.keyOf(k.claims(token).value.issuer) == Some(k.rootKey)
  }

  // ---------------------------------------------------------------- the checks

  datatype Refusal = Malformed | OutOfDate | WrongSubject | NotRoot | UnknownProof | ExceedsParent
  datatype Verdict = Accepted(claims: Claims) | Refused(why: Refusal)

  type Known = map<string, set<string>>

  const LEEWAY: nat := 30 * 1_000_000_000
  const GRACE: nat := 3_600 * 1_000_000_000

  /** The library's date check: strictly before expiry plus leeway, not before the start less leeway. */
  predicate InDate(c: Claims, now: Clock) {
    && (c.expiresAt.Some? ==> now < c.expiresAt.value * SECOND + LEEWAY)
    && (c.notBefore.Some? ==> now >= c.notBefore.value * SECOND - LEEWAY)
  }

  /** The refresh endpoint's own date check: expired by no more than the grace period. */
  predicate InGrace(c: Claims, now: Clock, grace: nat) {
    c.expiresAt.Some? ==> now - c.expiresAt.value * SECOND <= grace
  }

  /** Subject, then root key or parent: the part both validations share. */
  function ChainCheck(k: Setup, known: Known, c: Claims): Verdict {
    if c.subject != SUBJECT then Refused(WrongSubject)
    else if c.proof == "" then (if k.keyOf(c.issuer) == Some(k.rootKey) then Accepted(c) else Refused(NotRoot))
    else if c.proof !in known then Refused(UnknownProof)
    else if SetOf(c.capabilities) <= known[c.proof] then Accepted(c)
    else Refused(ExceedsParent)
  }

  function Validate(k: Setup, known: Known, token: string, now: Clock): Verdict {
    if k.claims(token).None? || !k.verified(token) then Refused(Malformed)
    else if !InDate(k.claims(token).value, now) then Refused(OutOfDate)
    else ChainCheck(k, known, k.claims(token).value)
  }

  function ValidateWithGrace(k: Setup, known: Known, token: string, now: Clock, grace: nat): Verdict {
    if k.claims(token).None? || !k.verified(token) then Refused(Malformed)
    else if !InGrace(k.claims(token).value, now, grace) then Refused(OutOfDate)
    else ChainCheck(k, known, k.claims(token).value)
  }

  predicate Genuine(k: Setup, token: string) {
    k.claims(token).Some? && k.verified(token)
  }

  /** The verdict on a genuine token in date: subject, then root key or parent, the first failure deciding. */
  ghost predicate ChainVerdict(k: Setup, known: Known, c: Claims, v: Verdict) {
    var ours, orphan := c.subject == "claude-peers", c.proof == "";
    && (v == Refused(WrongSubject) <==> !ours)
    && (v == Refused(NotRoot) <==> ours && orphan && k.keyOf(c.issuer) != Some(k.rootKey))
    && (v == Refused(UnknownProof) <==> ours && !orphan && c.proof !in known)
    && (v == Refused(ExceedsParent) <==>
          ours && !orphan && c.proof in known && exists r :: r in c.capabilities && r !in known[c.proof])
    && (v == Accepted(c) <==>
          ours && if orphan then k.keyOf(c.issuer) == Some(k.rootKey)
                  else c.proof in known && forall r :: r in c.capabilities ==> r in known[c.proof])
  }

  lemma ChainCheckExactly(k: Setup, known: Known, c: Claims)
    ensures ChainVerdict(k, known, c, ChainCheck(k, known, c))
  {
  }

  /**
   Every verdict of the ordinary check. A token is out of date from 30 seconds past its expiry on
   and until 30 seconds before its start.
   */
  lemma ValidateExactly(k: Setup, known: Known, token: string, now: Clock)
    ensures var v := Validate(k, known, token, now);
            && (v == Refused(Malformed) <==> !Genuine(k, token))
            && (Genuine(k, token) ==>
                  var c := k.claims(token).value;
                  var late := c.expiresAt.Some? && now - c.expiresAt.value * 1_000_000_000 >= 30_000_000_000;
                  var early := c.notBefore.Some? && c.notBefore.value * 1_000_000_000 - now > 30_000_000_000;
                  && (v == Refused(OutOfDate) <==> late || early)
                  && (!late && !early ==> ChainVerdict(k, known, c, v)))
  {
    if Genuine(k, token) {
      ChainCheckExactly(k, known, k.claims(token).value);
    }
    hide ChainVerdict, ChainCheck;
    OnlyChainRefusals(k, known, token);
  }

  /** Every verdict of the lenient check: only more than `grace` past its expiry is a token out of date. */
  lemma ValidateWithGraceExactly(k: Setup, known: Known, token: string, now: Clock, grace: nat)
    ensures var v := ValidateWithGrace(k, known, token, now, grace);
            && (v == Refused(Malformed) <==> !Genuine(k, token))
            && (Genuine(k, token) ==>
                  var c := k.claims(token).value;
                  var late := c.expiresAt.Some? && now - c.expiresAt.value * 1_000_000_000 > grace;
                  && (v == Refused(OutOfDate) <==> late)
                  && (!late ==> ChainVerdict(k, known, c, v)))
  {
    if Genuine(k, token) {
      ChainCheckExactly(k, known, k.claims(token).value);
    }
    hide ChainVerdict, ChainCheck;
    OnlyChainRefusals(k, known, token);
  }

  lemma OnlyChainRefusals(k: Setup, known: Known, token: string)
    ensures k.claims(token).Some? ==>
              ChainCheck(k, known, k.claims(token).value) !in {Refused(Malformed), Refused(OutOfDate)}
  {
  }

  // ---------------------------------------------------------------- learning and saving

  datatype Saved = Saved(capabilities: set<string>, expiresAt: string)

  /** The map in memory and the table behind it, capability lists read as sets. */
  datatype Memory = Memory(known: Known, saved: map<string, Saved>)

  /** How long a row is kept: to the token's expiry, or a day when it names none. */
  function ExpiryText(k: Setup, token: string, now: Clock): string {
    if k.claims(token).Some? && k.claims(token).value.expiresAt.Some?
    then k.format.row(k.claims(token).value.expiresAt.value * SECOND)
    else k.format.row(now + 24 * HOUR)
  }

  function Learn(k: Setup, m: Memory, token: string, capabilities: set<string>, now: Clock): Memory {
    var h := k.hash(token);
    Memory(m.known[h := capabilities], m.saved[h := Saved(capabilities, ExpiryText(k, token, now))])
  }

  /** Memory after a validation: an accepted token is learned, a refused one changes nothing. */
  function Settle(k: Setup, m: Memory, token: string, v: Verdict, now: Clock): Memory {
    if v.Accepted? then Learn(k, m, token, SetOf(v.claims.capabilities), now) else m
  }

  /** The rows a startup keeps: those whose expiry text is not below the current time's. */
  function Unexpired(saved: map<string, Saved>, now: string): map<string, Saved> {
    map h | h in saved && !Less(saved[h].expiresAt, now) :: saved[h]
  }

  function Restored(saved: map<string, Saved>): Known {
    map h | h in saved && h != "" :: saved[h].capabilities
  }

  /** A process start over the saved rows: prune, restore, then register the root token. */
  function Boot(k: Setup, m: Memory, now: Clock): Memory {
    var saved := Unexpired(m.saved, k.format.row(now));
    Learn(k, Memory(Restored(saved), saved), k.rootToken, SetOf(ALL_CAPABILITIES), now)
  }

  /** Memory and table agree. */
  ghost predicate Agrees(m: Memory) {
    m.known == Restored(m.saved) && "" !in m.saved
  }

  lemma LearnKeepsAgreement(k: Setup, m: Memory, token: string, capabilities: set<string>, now: Clock)
    requires Sound(k) && Agrees(m)
    ensures Agrees(Learn(k, m, token, capabilities, now))
  {
  }

  lemma BootAgrees(k: Setup, m: Memory, now: Clock)
    requires Sound(k) && "" !in m.saved
    ensures Agrees(Boot(k, m, now)) && k.hash(k.rootToken) in Boot(k, m, now).known
    ensures Boot(k, m, now).known[k.hash(k.rootToken)] == SetOf(ALL_CAPABILITIES)
  {
    var saved := Unexpired(m.saved, k.format.row(now));
    LearnKeepsAgreement(k, Memory(Restored(saved), saved), k.rootToken, SetOf(ALL_CAPABILITIES), now);
  }

  // ---------------------------------------------------------------- restarts

  /** A row saved with a whole-second expiry is dropped exactly when that second is over. */
  lemma DroppedExactly(f: Format, expires: NumericDate, now: Clock)
    requires Faithful(f)
    ensures Less(f.row(expires * SECOND), f.row(now)) <==> expires < now / SECOND
    ensures expires * SECOND >= now ==> !Less(f.row(expires * SECOND), f.row(now))
    ensures now - expires * SECOND >= SECOND ==> Less(f.row(expires * SECOND), f.row(now))
  {
    hide Faithful, FractionDigits;
    SecondSplit(now);
    WholeSecond(expires);
    if expires * SECOND == now {
      LessIsStrict(f.row(now), f.row(now));
    } else {
      RowOrder(f, expires * SECOND, now);
      if expires * SECOND < now {
        NoFractionIsAPrefix(expires * SECOND, now);
      }
    }
  }

  lemma WholeSecond(s: nat)
    ensures s * SECOND / SECOND == s && s * SECOND % SECOND == 0
  {
  }

  lemma SecondSplit(t: nat)
    ensures t == SECOND * (t / SECOND) + t % SECOND && t % SECOND < SECOND
  {
  }

  lemma NoFractionIsAPrefix(a: Instant, b: Instant)
    requires a % SECOND == 0 && a <= b
    ensures a != b && a / SECOND == b / SECOND ==> !TextSortable(a, b)
  {
    ZeroFraction(9);
  }

  predicate Survives(k: Setup, m: Memory, h: string, now: Clock) {
    h in m.saved && !Less(m.saved[h].expiresAt, k.format.row(now))
  }

  /** The parent is known, is not the root token, and its row has expired by the restart. */
  predicate ParentDropped(k: Setup, m: Memory, c: Claims, restart: Clock) {
    c.proof != "" && c.proof in m.known && c.proof != k.hash(k.rootToken) && !Survives(k, m, c.proof, restart)
  }

  /**
   A restart changes the verdict on a token only when the row of its parent, other than the
   root token's, has expired; then a token that had got as far as the parent check is refused
   for an unknown proof. Every other verdict, at any later time, is the one before.
   */
  lemma RestartTransparent(k: Setup, m: Memory, token: string, restart: Clock, now: Clock)
    requires Sound(k) && Agrees(m)
    requires k.hash(k.rootToken) in m.known && m.known[k.hash(k.rootToken)] == SetOf(ALL_CAPABILITIES)
    ensures var before, after := Validate(k, m.known, token, now), Validate(k, Boot(k, m, restart).known, token, now);
            if k.claims(token).Some? && ParentDropped(k, m, k.claims(token).value, restart)
               && before in {Accepted(k.claims(token).value), Refused(ExceedsParent)}
            then after == Refused(UnknownProof)
            else after == before
  {
  }

  // ---------------------------------------------------------------- refresh

  /** The endpoint's two checks: the ordinary one first, at `now1`, then the lenient one, at `now2`. */
  function RefreshCheck(k: Setup, known: Known, token: string, now1: Clock, now2: Clock): Verdict {
    var v := Validate(k, known, token, now1);
    if v.Accepted? then v else ValidateWithGrace(k, known, token, now2, GRACE)
  }

  /** Whatever the ordinary check accepts the lenient one accepts, with the same claims. */
  lemma GraceCoversLeeway(k: Setup, known: Known, token: string, now: Clock)
    requires Validate(k, known, token, now).Accepted?
    ensures ValidateWithGrace(k, known, token, now, 3_600_000_000_000) == Validate(k, known, token, now)
  {
  }

  /** The two checks are the lenient one alone, as long as their clock readings are within an hour less the leeway. */
  lemma RefreshIsGrace(k: Setup, known: Known, token: string, now1: Clock, now2: Clock)
    requires now1 <= now2 <= now1 + 3_570_000_000_000
    ensures RefreshCheck(k, known, token, now1, now2) == ValidateWithGrace(k, known, token, now2, 3_600_000_000_000)
  {
  }

  datatype Refresh = Denied | Granted(token: string)

  /** A lifetime for a new token that ends within the four-digit years. */
  predicate Fits(now: Clock, ttl: nat) {
    (now + ttl) / SECOND < END_SECONDS
  }

  /** Minting a child of the root token: refused unless the root token has every capability asked for. */
  function Mint(k: Setup, audienceKey: string, capabilities: seq<string>, ttl: nat, now: Clock): Option<string>
    requires Fits(now, ttl)
  {
    if k.claims(k.rootToken).Some? && SetOf(capabilities) <= SetOf(k.claims(k.rootToken).value.capabilities)
    then Some(k.sign(Claims(k.textOf(k.rootKey), [k.textOf(audienceKey)], SUBJECT, Some(now / SECOND), None,
                            Some((now + ttl) / SECOND), capabilities, k.hash(k.rootToken))))
    else None
  }

  /**
   What the endpoint answers once a token's claims are accepted: a token for the same audience, never
   for the issuer itself.
   */
  function Renewed(k: Setup, c: Claims, ttl: nat, now: Clock): Refresh
    requires Fits(now, ttl)
  {
    if c.audience == [] || k.keyOf(c.audience[0]).None? || k.keyOf(c.issuer).None?
       || k.keyOf(c.issuer) == k.keyOf(c.audience[0])
    then Denied
    else
      match Mint(k, k.keyOf(c.audience[0]).value, c.capabilities, ttl, now)
      case None => Denied
      case Some(minted) => Granted(minted)
  }

  /**
   The endpoint's clock readings: the two checks, the write an accepting check ends in, the minting,
   the registration.
   */
  datatype Readings = Readings(strict: Clock, lenient: Clock, settled: Clock, minted: Clock, registered: Clock)

  /** The refresh endpoint. */
  function RefreshToken(k: Setup, m: Memory, token: string, ttl: nat, r: Readings): (Memory, Refresh)
    requires Fits(r.minted, ttl)
  {
    var v := RefreshCheck(k, m.known, token, r.strict, r.lenient);
    var checked := Settle(k, m, token, v, r.settled);
    if v.Refused? then (checked, Denied)
    else
      var answer := Renewed(k, v.claims, ttl, r.minted);
      var left := if answer.Granted? then Learn(k, checked, answer.token, SetOf(v.claims.capabilities), r.registered)
                  else checked;
      (left, answer)
  }

  /** An audience whose key and the issuer's key can be read and differ: no root token's do. */
  predicate Renewable(k: Setup, c: Claims) {
    && c.audience != [] && k.keyOf(c.audience[0]).Some? && k.keyOf(c.issuer).Some?
    && k.keyOf(c.audience[0]) != k.keyOf(c.issuer)
  }

  /**
   A refresh is granted exactly when the ordinary check accepts the token or the lenient one with
   an hour's grace does, its audience and issuer are different readable keys, and the root token
   has every capability asked for. A check that accepted is learned either way, and nothing else is
   when the refresh is denied.
   */
  lemma RefreshGrantedExactly(k: Setup, m: Memory, token: string, ttl: nat, r: Readings)
    requires Fits(r.minted, ttl) && RootIssued(k, k.rootToken)
    ensures var (left, answer) := RefreshToken(k, m, token, ttl, r);
            var strict := Validate(k, m.known, token, r.strict);
            var lenient := ValidateWithGrace(k, m.known, token, r.lenient, 3_600_000_000_000);
            && (answer.Granted? <==>
                  && (strict.Accepted? || lenient.Accepted?) && k.claims(token).Some?
                  && Renewable(k, k.claims(token).value)
                  && (forall a :: a in k.claims(token).value.capabilities ==>
                            a in k.claims(k.rootToken).value.capabilities))
            && (strict.Refused? && lenient.Refused? ==> left == m)
            && (answer == Denied && (strict.Accepted? || lenient.Accepted?) && k.claims(token).Some? ==>
                  left == Learn(k, m, token, SetOf(k.claims(token).value.capabilities), r.settled))
  {
    AcceptedClaims(k, m.known, token, r.strict, GRACE);
    AcceptedClaims(k, m.known, token, r.lenient, GRACE);
    if k.claims(token).Some? {
      SubsetByElements(k.claims(token).value.capabilities, k.claims(k.rootToken).value.capabilities);
    }
    hide Validate, ValidateWithGrace, Learn, SetOf;
  }

  lemma SubsetByElements(cs: seq<string>, ds: seq<string>)
    ensures SetOf(cs) <= SetOf(ds) <==> forall a :: a in cs ==> a in ds
  {
    if SetOf(cs) <= SetOf(ds) {
      forall a | a in cs ensures a in ds {
        assert a in SetOf(cs);
      }
    }
  }

  lemma AcceptedClaims(k: Setup, known: Known, token: string, now: Clock, grace: nat)
    ensures Validate(k, known, token, now).Accepted? ==>
              k.claims(token).Some? && Validate(k, known, token, now).claims == k.claims(token).value
    ensures ValidateWithGrace(k, known, token, now, grace).Accepted? ==>
              k.claims(token).Some? && ValidateWithGrace(k, known, token, now, grace).claims == k.claims(token).value
  {
  }

  /** The new token carries the old one's capabilities to the old one's audience, as a child of the root token. */
  lemma RefreshKeepsCapabilities(k: Setup, m: Memory, token: string, ttl: nat, r: Readings)
    requires Sound(k) && Fits(r.minted, ttl) && RefreshToken(k, m, token, ttl, r).1.Granted?
    ensures var minted := RefreshToken(k, m, token, ttl, r).1.token;
            && k.claims(token).Some? && k.claims(minted).Some? && k.verified(minted)
            && var before, after := k.claims(token).value, k.claims(minted).value;
            && after.capabilities == before.capabilities && after.proof == k.hash(k.rootToken)
            && before.audience != [] && after.audience != []
            && k.keyOf(after.audience[0]) == k.keyOf(before.audience[0])
            && after.issuer == k.textOf(k.rootKey) && |after.audience| == 1 && after.subject == "claude-peers"
            && after.issuedAt == Some(r.minted / 1_000_000_000) && after.notBefore == None
            && after.expiresAt == Some((r.minted + ttl) / 1_000_000_000)
            && SetOf(after.capabilities) <= SetOf(ALL_CAPABILITIES)
  {
    hide Settle, Learn;
  }

  /** The granted token validates at once and until its leeway ends, on the memory the refresh leaves. */
  lemma RefreshedValidates(k: Setup, m: Memory, token: string, ttl: nat, r: Readings, later: Clock)
    requires Sound(k) && Fits(r.minted, ttl) && RefreshToken(k, m, token, ttl, r).1.Granted?
    requires k.hash(k.rootToken) in m.known && m.known[k.hash(k.rootToken)] == SetOf(ALL_CAPABILITIES)
    ensures var (left, answer) := RefreshToken(k, m, token, ttl, r);
            && k.claims(answer.token).Some?
            && (Validate(k, left.known, answer.token, later) == Accepted(k.claims(answer.token).value)
                <==> later < (r.minted + ttl) / 1_000_000_000 * 1_000_000_000 + 30_000_000_000)
            && r.minted < (r.minted + ttl) / 1_000_000_000 * 1_000_000_000 + 30_000_000_000
  {
    RefreshKeepsCapabilities(k, m, token, ttl, r);
    var (left, answer) := RefreshToken(k, m, token, ttl, r);
    assert k.hash(answer.token) != k.hash(k.rootToken);
    assert left.known[k.hash(k.rootToken)] == SetOf(ALL_CAPABILITIES);
    SecondSplit(r.minted + ttl);
  }

  /** One refresh in some memory at some times. */
  datatype Visit = Visit(memory: Memory, ttl: nat, readings: Readings)

  /** Each token was granted for the one before it. */
  predicate RefreshChain(k: Setup, tokens: seq<string>, visits: seq<Visit>) {
    && |tokens| == |visits| + 1
    && (forall i :: 0 <= i < |visits| ==>
          && Fits(visits[i].readings.minted, visits[i].ttl)
          && RefreshToken(k, visits[i].memory, tokens[i], visits[i].ttl, visits[i].readings).1
             == Granted(tokens[i + 1]))
  }

  /** However often a token is refreshed, whatever happens in between, its capabilities stay what they were. */
  lemma {:induction false} RefreshChainKeepsCapabilities(k: Setup, tokens: seq<string>, visits: seq<Visit>, n: nat)
    requires Sound(k) && RefreshChain(k, tokens, visits) && 0 < n < |tokens|
    ensures k.claims(tokens[0]).Some? && k.claims(tokens[n]).Some?
    ensures k.claims(tokens[n]).value.capabilities == k.claims(tokens[0]).value.capabilities
  {
    var v := visits[n - 1];
    assert RefreshToken(k, v.memory, tokens[n - 1], v.ttl, v.readings).1 == Granted(tokens[n - 1 + 1]);
    hide RefreshToken;
    RefreshKeepsCapabilities(k, v.memory, tokens[n - 1], v.ttl, v.readings);
    if n > 1 {
      RefreshChainKeepsCapabilities(k, tokens, visits, n - 1);
    }
  }
}
