/**
 Whole runs of the validator. A validation looks its parent up under one lock and writes what
 it learned under another; any number of callers interleave these halves with each other, with
 refreshes and with restarts.
 */
module TokenRuns {
  import opened Options
  import opened Timestamps
  import opened Tokens
  import opened TextOrder

  type Caller = nat

  datatype Mode = Strict | Lenient(grace: nat)

  datatype Event =
    | LookUp(c: Caller, token: string, mode: Mode)
    | WriteBack(c: Caller)
    | RegisterMinted(token: string)
    | BootUp

  datatype Step = Step(event: Event, now: Clock)

  /** The memory, and the tokens callers have found acceptable but not yet written. */
  datatype World = World(memory: Memory, accepted: map<Caller, string>)

  const START: World := World(Memory(map[], map[]), map[])

  function Judge(k: Setup, known: Known, token: string, mode: Mode, now: Clock): Verdict {
    match mode
    case Strict => Validate(k, known, token, now)
    case Lenient(grace) => ValidateWithGrace(k, known, token, now, grace)
  }

  /** Minted by this broker from its root token: the tokens the refresh endpoint registers. */
  predicate MintedFromRoot(k: Setup, token: string) {
    && k.claims(token).Some? && k.claims(k.rootToken).Some?
    && k.claims(token).value.proof == k.hash(k.rootToken)
    && SetOf(k.claims(token).value.capabilities) <= SetOf(k.claims(k.rootToken).value.capabilities)
  }

  predicate Enabled(k: Setup, w: World, s: Step) {
    match s.event
    case LookUp(c, token, mode) => c !in w.accepted
    case WriteBack(c) => c in w.accepted
    case RegisterMinted(token) => MintedFromRoot(k, token)
    case BootUp => true
  }

  function CapabilitiesOf(k: Setup, token: string): set<string> {
    if k.claims(token).Some? then SetOf(k.claims(token).value.capabilities) else {}
  }

  function Execute(k: Setup, w: World, s: Step): World {
    match s.event
    case LookUp(c, token, mode) =>
      if Judge(k, w.memory.known, token, mode, s.now).Accepted? then w.(accepted := w.accepted[c := token]) else w
    case WriteBack(c) =>
      if c in w.accepted
      then World(Learn(k, w.memory, w.accepted[c], CapabilitiesOf(k, w.accepted[c]), s.now), w.accepted - {c})
      else w
    case RegisterMinted(token) => w.(memory := Learn(k, w.memory, token, CapabilitiesOf(k, token), s.now))
    case BootUp => World(Boot(k, w.memory, s.now), map[])
  }

  function At(k: Setup, run: seq<Step>, n: nat): World
    requires n <= |run|
  {
    if n == 0 then START else Execute(k, At(k, run, n - 1), run[n - 1])
  }

  /** Runs of a sound setup that begin with a start of the process. */
  ghost predicate Proper(k: Setup, run: seq<Step>) {
    && Sound(k)
    && |run| > 0 && run[0].event.BootUp?
    && (forall n :: 0 <= n < |run| ==> Enabled(k, At(k, run, n), run[n]))
  }

  // ---------------------------------------------------------------- what a step learns

  /** The token step `n` wrote into the known tokens, if it wrote one. */
  function Learned(k: Setup, run: seq<Step>, n: nat): Option<string>
    requires n < |run|
  {
    match run[n].event
    case LookUp(c, token, mode) => None
    case WriteBack(c) => if c in At(k, run, n).accepted then Some(At(k, run, n).accepted[c]) else None
    case RegisterMinted(token) => Some(token)
    case BootUp => Some(k.rootToken)
  }

  /** Step `i`, before `j`, learned the parent of what `j` learned, with at least its capabilities. */
  ghost predicate Parent(k: Setup, run: seq<Step>, i: nat, j: nat)
    requires j < |run|
  {
    && i < j && Learned(k, run, i).Some? && Learned(k, run, j).Some?
    && ParentToken(k, Learned(k, run, i).value, Learned(k, run, j).value)
  }

  predicate ParentToken(k: Setup, parent: string, token: string) {
    && k.claims(token).Some? && k.claims(token).value.proof == k.hash(parent)
    && CapabilitiesOf(k, token) <= CapabilitiesOf(k, parent)
  }

  /** Some step before `n` learned a token of hash `h` whose capabilities are `caps`. */
  ghost predicate Source(k: Setup, run: seq<Step>, n: nat, h: string, caps: set<string>)
    requires n <= |run|
  {
    exists i :: 0 <= i < n && Learns(k, run, i, h, caps)
  }

  ghost predicate Learns(k: Setup, run: seq<Step>, i: nat, h: string, caps: set<string>)
    requires i < |run|
  {
    && Learned(k, run, i).Some? && k.hash(Learned(k, run, i).value) == h
    && CapabilitiesOf(k, Learned(k, run, i).value) == caps
  }

  /** Root-issued, or the child of a token learned before step `n`. */
  ghost predicate Grounded(k: Setup, run: seq<Step>, n: nat, token: string)
    requires n <= |run|
  {
    RootIssued(k, token) || exists i :: 0 <= i < n && ParentAt(k, run, i, token)
  }

  ghost predicate ParentAt(k: Setup, run: seq<Step>, i: nat, token: string)
    requires i < |run|
  {
    Learned(k, run, i).Some? && ParentToken(k, Learned(k, run, i).value, token)
  }

  // ---------------------------------------------------------------- where known tokens come from

  /** Everything known or saved was learned, and everything accepted is grounded in what was. */
  ghost predicate Traceable(k: Setup, run: seq<Step>, n: nat)
    requires n <= |run|
  {
    var w := At(k, run, n);
    && (forall h :: h in w.memory.known ==> Source(k, run, n, h, w.memory.known[h]))
    && (forall h :: h in w.memory.saved ==> Source(k, run, n, h, w.memory.saved[h].capabilities))
    && (forall c :: c in w.accepted ==> Grounded(k, run, n, w.accepted[c]))
  }

  /** One step keeps what is known and saved or adds what it learned. */
  lemma MemoryStep(k: Setup, run: seq<Step>, n: nat, h: string)
    requires Sound(k) && n < |run| && Enabled(k, At(k, run, n), run[n])
    ensures var m, m' := At(k, run, n).memory, At(k, run, n + 1).memory;
            && (h in m'.known ==> (h in m.known && m'.known[h] == m.known[h])
                                  || (h in m.saved && m'.known[h] == m.saved[h].capabilities)
                                  || Learns(k, run, n, h, m'.known[h]))
            && (h in m'.saved ==> (h in m.saved && m'.saved[h] == m.saved[h])
                                  || Learns(k, run, n, h, m'.saved[h].capabilities))
            && (Agrees(m) ==> Agrees(m'))
  {
    var w, now := At(k, run, n), run[n].now;
    match run[n].event
    case LookUp(c, token, mode) =>
    case WriteBack(c) =>
      if Agrees(w.memory) {
        LearnKeepsAgreement(k, w.memory, w.accepted[c], CapabilitiesOf(k, w.accepted[c]), now);
      }
    case RegisterMinted(token) =>
      if Agrees(w.memory) {
        LearnKeepsAgreement(k, w.memory, token, CapabilitiesOf(k, token), now);
      }
    case BootUp =>
      if Agrees(w.memory) {
        BootAgrees(k, w.memory, now);
      }
  }

  lemma GroundedIfTraceable(k: Setup, run: seq<Step>, n: nat, token: string, mode: Mode, now: Clock)
    requires Sound(k) && n <= |run| && Traceable(k, run, n)
    requires Judge(k, At(k, run, n).memory.known, token, mode, now).Accepted?
    ensures Grounded(k, run, n, token)
  {
    var c := k.claims(token).value;
    if c.proof != "" {
      assert Source(k, run, n, c.proof, At(k, run, n).memory.known[c.proof]);
      var i :| 0 <= i < n && Learns(k, run, i, c.proof, At(k, run, n).memory.known[c.proof]);
      assert ParentAt(k, run, i, token);
    }
  }

  lemma GroundedStep(k: Setup, run: seq<Step>, n: nat, c: Caller)
    requires Sound(k) && n < |run| && Traceable(k, run, n) && c in At(k, run, n + 1).accepted
    ensures Grounded(k, run, n, At(k, run, n + 1).accepted[c])
  {
    hide Judge, Learn, Boot;
    match run[n].event
    case LookUp(d, token, mode) =>
      if Judge(k, At(k, run, n).memory.known, token, mode, run[n].now).Accepted? {
        GroundedIfTraceable(k, run, n, token, mode, run[n].now);
      }
    case _ =>
  }

  lemma GroundedLater(k: Setup, run: seq<Step>, n: nat, token: string)
    requires n < |run| && Grounded(k, run, n, token)
    ensures Grounded(k, run, n + 1, token)
  {
    hide ParentAt;
  }

  lemma SourceLater(k: Setup, run: seq<Step>, n: nat, h: string, caps: set<string>)
    requires n < |run| && (Source(k, run, n, h, caps) || Learns(k, run, n, h, caps))
    ensures Source(k, run, n + 1, h, caps)
  {
    hide Learns;
  }

  lemma TraceableStep(k: Setup, run: seq<Step>, n: nat)
    requires Sound(k) && n < |run| && Enabled(k, At(k, run, n), run[n]) && Traceable(k, run, n)
    ensures Traceable(k, run, n + 1)
  {
    hide At, Execute, Source, Grounded, Learns, Enabled, Sound;
    var m := At(k, run, n + 1).memory;
    forall h | h in m.known ensures Source(k, run, n + 1, h, m.known[h]) {
      MemoryStep(k, run, n, h);
      SourceLater(k, run, n, h, m.known[h]);
    }
    forall h | h in m.saved ensures Source(k, run, n + 1, h, m.saved[h].capabilities) {
      MemoryStep(k, run, n, h);
      SourceLater(k, run, n, h, m.saved[h].capabilities);
    }
    var accepted := At(k, run, n + 1).accepted;
    forall c | c in accepted ensures Grounded(k, run, n + 1, accepted[c]) {
      GroundedStep(k, run, n, c);
      GroundedLater(k, run, n, accepted[c]);
    }
  }

  lemma {:induction false} AlwaysTraceable(k: Setup, run: seq<Step>, n: nat)
    requires Proper(k, run) && n <= |run|
    ensures Traceable(k, run, n) && Agrees(At(k, run, n).memory)
  {
    hide Execute, Enabled, Sound;
    if n > 0 {
      AlwaysTraceable(k, run, n - 1);
      TraceableStep(k, run, n - 1);
      MemoryStep(k, run, n - 1, "");
    }
  }

  /** In every run memory and table agree after every step. */
  lemma MemoryMatchesTable(k: Setup, run: seq<Step>, n: nat)
    requires Proper(k, run) && n <= |run|
    ensures var m := At(k, run, n).memory;
            && m.known.Keys == m.saved.Keys
            && forall h :: h in m.known ==> m.known[h] == m.saved[h].capabilities
  {
    AlwaysTraceable(k, run, n);
  }

  /** What a look-up accepts is root-issued, or some step before learned its parent. */
  lemma AcceptedIsGrounded(k: Setup, run: seq<Step>, n: nat, token: string, mode: Mode, now: Clock)
    requires Proper(k, run) && n <= |run|
    requires Judge(k, At(k, run, n).memory.known, token, mode, now).Accepted?
    ensures Grounded(k, run, n, token)
  {
    AlwaysTraceable(k, run, n);
    GroundedIfTraceable(k, run, n, token, mode, now);
  }

  lemma SameHash(k: Setup, a: string, b: string)
    requires Sound(k) && k.hash(a) == k.hash(b)
    ensures a == b
  {
  }

  // ---------------------------------------------------------------- what is still known

  /** The expiry text written with what step `i` learned. */
  function ExpiryAt(k: Setup, run: seq<Step>, i: nat): string
    requires i < |run| && Learned(k, run, i).Some?
  {
    ExpiryText(k, Learned(k, run, i).value, run[i].now)
  }

  /** Step `b`, if it is a start, has not read a clock past the expiry of what step `i` learned. */
  ghost predicate Spares(k: Setup, run: seq<Step>, b: nat, i: nat)
    requires b < |run|
  {
    run[b].event.BootUp? ==>
      i < |run| && Learned(k, run, i).Some? && !Less(ExpiryAt(k, run, i), k.format.row(run[b].now))
  }

  /** Step `i` was the last before `n` to learn the hash `h`, and no start since has read a clock past its expiry. */
  ghost predicate Remembered(k: Setup, run: seq<Step>, i: nat, n: nat, h: string)
    requires n <= |run|
  {
    && i < n && Learned(k, run, i).Some? && k.hash(Learned(k, run, i).value) == h
    && (forall j :: i < j < n && Learned(k, run, j).Some? ==> k.hash(Learned(k, run, j).value) != h)
    && (forall b :: i < b < n ==> Spares(k, run, b, i))
  }

  /** One step writes the row of what it learns; a start drops the others that have expired. */
  lemma SavedStep(k: Setup, run: seq<Step>, n: nat, h: string)
    requires n < |run| && Enabled(k, At(k, run, n), run[n])
    requires k.claims(k.rootToken).Some? && SetOf(k.claims(k.rootToken).value.capabilities) == SetOf(ALL_CAPABILITIES)
    ensures var m, m' := At(k, run, n).memory, At(k, run, n + 1).memory;
            if Learned(k, run, n).Some? && k.hash(Learned(k, run, n).value) == h
            then h in m'.saved && m'.saved[h] == Saved(CapabilitiesOf(k, Learned(k, run, n).value), ExpiryAt(k, run, n))
            else && (h in m'.saved <==>
                       h in m.saved && (run[n].event.BootUp? ==> !Less(m.saved[h].expiresAt, k.format.row(run[n].now))))
                 && (h in m'.saved ==> m'.saved[h] == m.saved[h])
  {
    hide ExpiryText, Judge, SetOf;
  }

  lemma RememberedStep(k: Setup, run: seq<Step>, i: nat, n: nat, h: string)
    requires n < |run|
    ensures Remembered(k, run, i, n + 1, h) <==>
              if Learned(k, run, n).Some? && k.hash(Learned(k, run, n).value) == h then i == n
              else Remembered(k, run, i, n, h) && Spares(k, run, n, i)
  {
    hide Spares, Learned;
  }

  /** The rows of the table are those of what is remembered. */
  lemma {:induction false} SavedExactly(k: Setup, run: seq<Step>, n: nat, h: string)
    requires Proper(k, run) && n <= |run|
    ensures h in At(k, run, n).memory.saved <==> exists i :: Remembered(k, run, i, n, h)
    ensures forall i :: Remembered(k, run, i, n, h) ==>
              At(k, run, n).memory.saved[h] == Saved(CapabilitiesOf(k, Learned(k, run, i).value), ExpiryAt(k, run, i))
  {
    hide At, Learned, Execute, Enabled, ExpiryAt, Remembered, CapabilitiesOf;
    if n == 0 {
      NothingYet(k, run, h);
    } else {
      SavedExactly(k, run, n - 1, h);
      SavedStep(k, run, n - 1, h);
      forall i: nat
        ensures Remembered(k, run, i, n, h) <==>
                  if Learned(k, run, n - 1).Some? && k.hash(Learned(k, run, n - 1).value) == h then i == n - 1
                  else Remembered(k, run, i, n - 1, h) && Spares(k, run, n - 1, i)
      {
        RememberedStep(k, run, i, n - 1, h);
      }
      if Learned(k, run, n - 1).Some? && k.hash(Learned(k, run, n - 1).value) == h {
        assert Remembered(k, run, n - 1, n, h);
      } else if h in At(k, run, n).memory.saved {
        var i :| Remembered(k, run, i, n - 1, h);
        RememberedHash(k, run, i, n - 1, h);
        assert Remembered(k, run, i, n, h);
      }
    }
  }

  lemma NothingYet(k: Setup, run: seq<Step>, h: string)
    ensures h !in At(k, run, 0).memory.saved && forall i :: !Remembered(k, run, i, 0, h)
  {
  }

  /**
   A hash is known exactly when some step learned it and no start since its last write has read a
   clock past the expiry written then; it is known with the capabilities learned last.
   */
  lemma KnownExactly(k: Setup, run: seq<Step>, n: nat, h: string)
    requires Proper(k, run) && n <= |run|
    ensures h in At(k, run, n).memory.known <==> exists i :: Remembered(k, run, i, n, h)
    ensures forall i :: Remembered(k, run, i, n, h) ==>
              At(k, run, n).memory.known[h] == CapabilitiesOf(k, Learned(k, run, i).value)
  {
    hide At, Learned, ExpiryAt, Remembered, Proper;
    MemoryMatchesTable(k, run, n);
    SavedExactly(k, run, n, h);
  }

  /** A start forgets a token with a stated expiry exactly when that whole second is over. */
  lemma ForgottenExactly(k: Setup, run: seq<Step>, i: nat, now: Clock)
    requires Sound(k) && i < |run| && Learned(k, run, i).Some?
    requires k.claims(Learned(k, run, i).value).Some? && k.claims(Learned(k, run, i).value).value.expiresAt.Some?
    ensures Less(ExpiryAt(k, run, i), k.format.row(now)) <==>
            k.claims(Learned(k, run, i).value).value.expiresAt.value < now / SECOND
  {
    hide Learned, Faithful;
    DroppedExactly(k.format, k.claims(Learned(k, run, i).value).value.expiresAt.value, now);
  }

  /**
   A token without a stated expiry is forgotten by no start up to a day less a second after its
   write, and by any a day and a second after it.
   */
  lemma ForgottenAfterADay(k: Setup, run: seq<Step>, i: nat, now: Clock)
    requires Sound(k) && i < |run| && Learned(k, run, i).Some? && run[i].now + 86_400_000_000_000 < END_SECONDS * SECOND
    requires k.claims(Learned(k, run, i).value).None? || k.claims(Learned(k, run, i).value).value.expiresAt.None?
    ensures Less(ExpiryAt(k, run, i), k.format.row(now)) ==> now - run[i].now > 86_399_000_000_000
    ensures now - run[i].now >= 86_401_000_000_000 ==> Less(ExpiryAt(k, run, i), k.format.row(now))
  {
    hide Learned, Faithful, TextSortable;
    var expiry := run[i].now + 86_400_000_000_000;
    if expiry != now {
      RowOrder(k.format, expiry, now);
      SecondsApart(expiry, now);
      SecondsApart(now, expiry);
    }
  }

  /** The step's token is the parent of `token`, no less able, and is still known. */
  ghost predicate LivingParent(k: Setup, run: seq<Step>, i: nat, n: nat, token: string)
    requires n <= |run|
  {
    k.claims(token).Some? && Remembered(k, run, i, n, k.claims(token).value.proof) && ParentAt(k, run, i, token)
  }

  lemma ParentDecides(k: Setup, run: seq<Step>, n: nat, token: string)
    requires Proper(k, run) && n <= |run| && k.claims(token).Some?
    ensures var h, known := k.claims(token).value.proof, At(k, run, n).memory.known;
            (h in known && CapabilitiesOf(k, token) <= known[h]) <==> exists i :: LivingParent(k, run, i, n, token)
  {
    hide At, Learned, CapabilitiesOf, ExpiryAt, Proper, Remembered;
    var h, known := k.claims(token).value.proof, At(k, run, n).memory.known;
    KnownExactly(k, run, n, h);
    forall i | Remembered(k, run, i, n, h)
      ensures LivingParent(k, run, i, n, token) <==> CapabilitiesOf(k, token) <= known[h]
    {
      RememberedHash(k, run, i, n, h);
    }
  }

  lemma RememberedHash(k: Setup, run: seq<Step>, i: nat, n: nat, h: string)
    requires n <= |run| && Remembered(k, run, i, n, h)
    ensures i < n && Learned(k, run, i).Some? && k.hash(Learned(k, run, i).value) == h
  {
  }

  /**
   In date: less than 30 seconds past the expiry and not more than 30 seconds before the start, or,
   leniently, not more than the grace past the expiry.
   */
  predicate Timely(c: Claims, mode: Mode, now: Clock) {
    match mode
    case Strict =>
      && (c.expiresAt.Some? ==> now - c.expiresAt.value * 1_000_000_000 < 30_000_000_000)
      && (c.notBefore.Some? ==> c.notBefore.value * 1_000_000_000 - now <= 30_000_000_000)
    case Lenient(grace) => c.expiresAt.Some? ==> now - c.expiresAt.value * 1_000_000_000 <= grace
  }

  lemma TimelyExactly(k: Setup, token: string, mode: Mode, now: Clock)
    ensures k.claims(token).Some? ==>
              var c := k.claims(token).value;
              Timely(c, mode, now) <==> if mode.Strict? then InDate(c, now) else InGrace(c, now, mode.grace)
  {
  }

  /**
   In every run a token is accepted exactly when it is genuine, timely and of the right subject,
   and is root-issued, or some step learned its parent, with at least its capabilities, and no
   start since that parent's last write has read a clock past the expiry written then.
   */
  lemma AcceptedExactly(k: Setup, run: seq<Step>, n: nat, token: string, mode: Mode, now: Clock)
    requires Proper(k, run) && n <= |run|
    ensures Judge(k, At(k, run, n).memory.known, token, mode, now).Accepted? <==>
            && k.claims(token).Some? && k.verified(token)
            && Timely(k.claims(token).value, mode, now) && k.claims(token).value.subject == "claude-peers"
            && (RootIssued(k, token) || exists i :: LivingParent(k, run, i, n, token))
  {
    TimelyExactly(k, token, mode, now);
    hide At, InDate, InGrace, SetOf, Sound, Source, Grounded, LivingParent, Proper, Timely;
    AlwaysTraceable(k, run, n);
    if k.claims(token).Some? {
      ParentDecides(k, run, n, token);
    }
  }

  // ---------------------------------------------------------------- restarts

  /** From the first start on the root token is known with every capability. */
  lemma {:induction false} RootAlwaysKnown(k: Setup, run: seq<Step>, n: nat)
    requires Proper(k, run) && 0 < n <= |run|
    ensures k.hash(k.rootToken) in At(k, run, n).memory.known
    ensures At(k, run, n).memory.known[k.hash(k.rootToken)] == SetOf(ALL_CAPABILITIES)
  {
    hide Learned, Judge, Sound, SetOf;
    RootStep(k, run, n - 1);
    if n > 1 {
      RootAlwaysKnown(k, run, n - 1);
    }
  }

  /** The endpoints a token opens, by what they do. */
  datatype Endpoint =
    | Register | Heartbeat | SetSummary | AckMessage | ClaimAgent | ListPeers | SendMessage | PollMessages
    | PeekMessages | Unregister | Events | ReadMemory | WriteMemory

  /** The capability an endpoint demands of the caller's token. */
  function Demand(e: Endpoint): string {
    match e
    case Register => "peer/register"
    case Heartbeat => "peer/heartbeat"
    case SetSummary => "peer/set-summary"
    case AckMessage => "msg/ack"
    case ClaimAgent => "peer/set-summary"
    case ListPeers => "peer/list"
    case SendMessage => "msg/send"
    case PollMessages => "msg/poll"
    case PeekMessages => "msg/poll"
    case Unregister => "peer/unregister"
    case Events => "events/read"
    case ReadMemory => "memory/read"
    case WriteMemory => "memory/write"
  }

  /** From the first start on the root token is known to open every endpoint, and a subscription besides. */
  lemma RootOpensEveryEndpoint(k: Setup, run: seq<Step>, n: nat, e: Endpoint)
    requires Proper(k, run) && 0 < n <= |run|
    ensures k.hash(k.rootToken) in At(k, run, n).memory.known
    ensures Demand(e) in At(k, run, n).memory.known[k.hash(k.rootToken)]
    ensures "nats/subscribe" in At(k, run, n).memory.known[k.hash(k.rootToken)]
  {
    hide At, Proper;
    RootAlwaysKnown(k, run, n);
    assert ALL_CAPABILITIES[11] == "nats/subscribe";
    DemandIsListed(e);
  }

  lemma DemandIsListed(e: Endpoint)
    ensures Demand(e) in SetOf(ALL_CAPABILITIES)
  {
    var all := ALL_CAPABILITIES;
    assert Demand(e) in {all[0], all[1], all[2], all[3], all[4], all[5], all[6], all[7], all[8], all[9], all[10]};
  }

  lemma RootStep(k: Setup, run: seq<Step>, n: nat)
    requires Proper(k, run) && n < |run|
    ensures var root, m, m' := k.hash(k.rootToken), At(k, run, n).memory.known, At(k, run, n + 1).memory.known;
            run[n].event.BootUp? || (root in m && m[root] == SetOf(ALL_CAPABILITIES)) ==>
              root in m' && m'[root] == SetOf(ALL_CAPABILITIES)
  {
    AlwaysTraceable(k, run, n);
    var w := At(k, run, n);
    assert CapabilitiesOf(k, k.rootToken) == SetOf(ALL_CAPABILITIES);
    assert Enabled(k, w, run[n]);
    match run[n].event
    case LookUp(c, token, mode) =>
    case WriteBack(c) =>
      if k.hash(w.accepted[c]) == k.hash(k.rootToken) {
        SameHash(k, w.accepted[c], k.rootToken);
      }
    case RegisterMinted(token) =>
      if k.hash(token) == k.hash(k.rootToken) {
        SameHash(k, token, k.rootToken);
      }
    case BootUp => BootAgrees(k, w.memory, run[n].now);
  }

  /**
   A restart in a run changes the verdict on a token only when the row of its parent, other than
   the root token, has expired; then a token that had got to the parent check is refused for an
   unknown proof. Validations under way are gone.
   */
  lemma RestartInRuns(k: Setup, run: seq<Step>, n: nat, token: string, now: Clock)
    requires Proper(k, run) && 0 < n < |run| && run[n].event.BootUp?
    ensures var m := At(k, run, n).memory;
            var before := Validate(k, m.known, token, now);
            var after := Validate(k, At(k, run, n + 1).memory.known, token, now);
            if k.claims(token).Some? && ParentDropped(k, m, k.claims(token).value, run[n].now)
               && before in {Accepted(k.claims(token).value), Refused(ExceedsParent)}
            then after == Refused(UnknownProof)
            else after == before
    ensures At(k, run, n + 1).accepted == map[]
  {
    hide Learned, Judge, Sound, SetOf, Proper, Validate;
    AlwaysTraceable(k, run, n);
    RootAlwaysKnown(k, run, n);
    BootSound(k, run);
    RestartTransparent(k, At(k, run, n).memory, token, run[n].now, now);
  }

  lemma BootSound(k: Setup, run: seq<Step>)
    requires Proper(k, run)
    ensures Sound(k)
  {
  }

  // ---------------------------------------------------------------- chains

  /** Whatever a step learned is root-issued or has a parent learned by an earlier step. */
  lemma LearnedHasParent(k: Setup, run: seq<Step>, j: nat)
    requires Proper(k, run) && j < |run| && Learned(k, run, j).Some?
    ensures RootIssued(k, Learned(k, run, j).value) || exists i :: 0 <= i < j && Parent(k, run, i, j)
  {
    hide Execute;
    AlwaysTraceable(k, run, j);
    match run[j].event
    case WriteBack(c) =>
      assert Grounded(k, run, j, At(k, run, j).accepted[c]);
      if !RootIssued(k, Learned(k, run, j).value) {
        var i :| 0 <= i < j && ParentAt(k, run, i, At(k, run, j).accepted[c]);
        assert Parent(k, run, i, j);
      }
    case RegisterMinted(token) =>
      assert Learned(k, run, 0) == Some(k.rootToken);
      assert Enabled(k, At(k, run, j), run[j]);
      assert Parent(k, run, 0, j);
    case BootUp =>
  }

  /** Steps from `j` back to one that learned a root-issued token, each having learned the parent of the one before. */
  ghost predicate Chain(k: Setup, run: seq<Step>, j: nat, chain: seq<nat>) {
    && |chain| > 0 && chain[0] == j
    && (forall m :: 0 <= m < |chain| ==> chain[m] < |run| && Learned(k, run, chain[m]).Some?)
    && (forall m :: 0 <= m < |chain| - 1 ==> Parent(k, run, chain[m + 1], chain[m]))
    && RootIssued(k, Learned(k, run, chain[|chain| - 1]).value)
  }

  /**
   Every learned token has such a chain: finite, strictly back in time, capabilities only shrinking
   towards the token.
   */
  lemma {:induction false} ChainExists(k: Setup, run: seq<Step>, j: nat)
    requires Proper(k, run) && j < |run| && Learned(k, run, j).Some?
    ensures exists chain :: Chain(k, run, j, chain)
    decreases j
  {
    hide Learned, At, Proper;
    LearnedHasParent(k, run, j);
    if RootIssued(k, Learned(k, run, j).value) {
      assert Chain(k, run, j, [j]);
    } else {
      var i :| 0 <= i < j && Parent(k, run, i, j);
      ChainExists(k, run, i);
      var rest :| Chain(k, run, i, rest);
      var chain := [j] + rest;
      assert chain[|chain| - 1] == rest[|rest| - 1];
      forall m | 0 <= m < |chain| ensures chain[m] < |run| && Learned(k, run, chain[m]).Some? {
        if m > 0 { assert chain[m] == rest[m - 1]; }
      }
      forall m | 0 <= m < |chain| - 1 ensures Parent(k, run, chain[m + 1], chain[m]) {
        if m > 0 { assert chain[m] == rest[m - 1] && chain[m + 1] == rest[m]; }
      }
      assert Chain(k, run, j, chain);
    }
  }

  /** Along a chain steps go strictly back and capability sets only grow towards the root. */
  lemma {:induction false} ChainAttenuates(k: Setup, run: seq<Step>, j: nat, chain: seq<nat>, m: nat)
    requires Chain(k, run, j, chain) && m < |chain|
    ensures chain[m] + m <= j
    ensures CapabilitiesOf(k, Learned(k, run, j).value) <= CapabilitiesOf(k, Learned(k, run, chain[m]).value)
  {
    hide Learned, At;
    if m > 0 {
      ChainAttenuates(k, run, j, chain, m - 1);
      assert Parent(k, run, chain[m - 1 + 1], chain[m - 1]);
    }
  }

  /** Every known set is that of a learned token and lies within the set of the root-issued token its chain ends in. */
  lemma KnownWithinRoot(k: Setup, run: seq<Step>, n: nat, h: string)
    requires Proper(k, run) && n <= |run| && h in At(k, run, n).memory.known
    ensures exists j, chain ::
              && 0 <= j < n && Learns(k, run, j, h, At(k, run, n).memory.known[h]) && Chain(k, run, j, chain)
              && At(k, run, n).memory.known[h] <= CapabilitiesOf(k, Learned(k, run, chain[|chain| - 1]).value)
  {
    hide At, Learned, Proper;
    AlwaysTraceable(k, run, n);
    assert Source(k, run, n, h, At(k, run, n).memory.known[h]);
    var j :| 0 <= j < n && Learns(k, run, j, h, At(k, run, n).memory.known[h]);
    ChainExists(k, run, j);
    var chain :| Chain(k, run, j, chain);
    ChainAttenuates(k, run, j, chain, |chain| - 1);
  }

  /** A bound on everything the root key has issued bounds every known set. */
  lemma KnownWithin(k: Setup, run: seq<Step>, n: nat, h: string, bound: set<string>)
    requires Proper(k, run) && n <= |run| && h in At(k, run, n).memory.known
    requires forall t :: RootIssued(k, t) ==> CapabilitiesOf(k, t) <= bound
    ensures At(k, run, n).memory.known[h] <= bound
  {
    hide At, Learned, Proper, CapabilitiesOf, RootIssued;
    KnownWithinRoot(k, run, n, h);
  }

  lemma AcceptedWithinParent(k: Setup, known: Known, token: string, mode: Mode, now: Clock)
    requires Judge(k, known, token, mode, now).Accepted?
    ensures RootIssued(k, token) ||
            (k.claims(token).Some? && k.claims(token).value.proof in known
             && CapabilitiesOf(k, token) <= known[k.claims(token).value.proof])
  {
  }

  /**
   If the root key has only ever issued tokens within the full list, nothing outside it is ever
   known or accepted, and a refresh is never refused for want of a capability.
   */
  lemma WithinAllCapabilities(k: Setup, run: seq<Step>, n: nat, token: string, mode: Mode, now: Clock)
    requires Proper(k, run) && n <= |run|
    requires forall t :: RootIssued(k, t) ==> CapabilitiesOf(k, t) <= SetOf(ALL_CAPABILITIES)
    requires Judge(k, At(k, run, n).memory.known, token, mode, now).Accepted?
    ensures CapabilitiesOf(k, token) <= SetOf(ALL_CAPABILITIES)
    ensures CapabilitiesOf(k, token) <= CapabilitiesOf(k, k.rootToken)
  {
    assert CapabilitiesOf(k, k.rootToken) == SetOf(ALL_CAPABILITIES);
    hide At, Proper, Judge, CapabilitiesOf, RootIssued, SetOf;
    AcceptedWithinParent(k, At(k, run, n).memory.known, token, mode, now);
    if !RootIssued(k, token) {
      KnownWithin(k, run, n, k.claims(token).value.proof, SetOf(ALL_CAPABILITIES));
    }
  }

  // ---------------------------------------------------------------- refreshes

  /**
   In every run a refresh is granted exactly for a genuine token of the right subject, not 30
   seconds past its expiry and past its start, or not more than an hour past its expiry, that is
   root-issued or the child of a living parent, and whose audience and issuer keys differ, within
   the full list. So a token issued to its own issuer, as the root token is, is always denied.
   */
  lemma RefreshInRuns(k: Setup, run: seq<Step>, n: nat, token: string, ttl: nat, r: Readings)
    requires Proper(k, run) && n <= |run| && Fits(r.minted, ttl)
    ensures RefreshToken(k, At(k, run, n).memory, token, ttl, r).1.Granted? <==>
            && k.claims(token).Some? && k.verified(token)
            && (Timely(k.claims(token).value, Strict, r.strict)
                || Timely(k.claims(token).value, Lenient(3_600_000_000_000), r.lenient))
            && k.claims(token).value.subject == "claude-peers"
            && (RootIssued(k, token) || exists i :: LivingParent(k, run, i, n, token))
            && Renewable(k, k.claims(token).value)
            && SetOf(k.claims(token).value.capabilities) <= SetOf(ALL_CAPABILITIES)
    ensures k.claims(token).Some? && k.claims(token).value.audience != []
            && k.keyOf(k.claims(token).value.issuer) == k.keyOf(k.claims(token).value.audience[0]) ==>
              RefreshToken(k, At(k, run, n).memory, token, ttl, r).1 == Denied
  {
    if k.claims(token).Some? {
      SubsetByElements(k.claims(token).value.capabilities, k.claims(k.rootToken).value.capabilities);
    }
    hide At, Proper, Sound, LivingParent, Validate, ValidateWithGrace, RefreshToken, Timely, SetOf;
    BootSound(k, run);
    RootOfSetup(k);
    RefreshGrantedExactly(k, At(k, run, n).memory, token, ttl, r);
    AcceptedExactly(k, run, n, token, Strict, r.strict);
    AcceptedExactly(k, run, n, token, Lenient(3_600_000_000_000), r.lenient);
  }

  lemma RootOfSetup(k: Setup)
    requires Sound(k)
    ensures RootIssued(k, k.rootToken)
    ensures SetOf(k.claims(k.rootToken).value.capabilities) == SetOf(ALL_CAPABILITIES)
  {
  }

  /** What a refresh registers is what a run may register: a child of the root token, no more able. */
  lemma RefreshIsRegistered(k: Setup, m: Memory, token: string, ttl: nat, r: Readings)
    requires Sound(k) && Fits(r.minted, ttl) && RefreshToken(k, m, token, ttl, r).1.Granted?
    ensures MintedFromRoot(k, RefreshToken(k, m, token, ttl, r).1.token)
  {
    hide RefreshToken;
    RefreshKeepsCapabilities(k, m, token, ttl, r);
    RootOfSetup(k);
  }

  /**
   A validation that nothing interrupts is the look-up of a run with its write: the memory it leaves
   is the validator's.
   */
  lemma UninterruptedIsValidate(k: Setup, w: World, c: Caller, token: string, mode: Mode, now: Clock, settled: Clock)
    requires c !in w.accepted
    ensures var looked := Execute(k, w, Step(LookUp(c, token, mode), now));
            var v := Judge(k, w.memory.known, token, mode, now);
            && looked.memory == w.memory
            && (v.Accepted? ==> Execute(k, looked, Step(WriteBack(c), settled)) ==
                                  World(Settle(k, w.memory, token, v, settled), w.accepted))
            && (v.Refused? ==> looked == w && Settle(k, w.memory, token, v, settled) == w.memory)
  {
    JudgedClaims(k, w.memory.known, token, mode, now);
    hide Learn, Judge;
    assert w.accepted[c := token] - {c} == w.accepted;
  }

  lemma JudgedClaims(k: Setup, known: Known, token: string, mode: Mode, now: Clock)
    ensures var v := Judge(k, known, token, mode, now);
            v.Accepted? ==> k.claims(token).Some? && v.claims == k.claims(token).value
  {
  }
}
