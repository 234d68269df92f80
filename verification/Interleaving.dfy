/**
 The two requests that take a name, statement by statement. Any number of callers run them at
 once without a transaction: each looks first, writes later, drains after that, and other
 requests come in between. The database's own guards are the primary key on the session id
 and the unique index on nonempty names; a refused statement changes nothing and its error
 is ignored.
 */
module Interleaving {
  import opened Store
  import opened StoreSteps

  /** How far a caller has come: a registration with its request, a claim with session and name. */
  datatype Stage =
    | Idle
    | RegisterChecked(req: RegisterRequest)
    | ClaimLookedUp(sid: string, name: string)
    | ClaimChecked(sid: string, name: string)
    | Written(id: string, name: string)
    | Drained(name: string)

  type Caller = nat

  datatype World = World(tables: Tables, stages: map<Caller, Stage>, drawn: set<string>)

  const START: World := World(EMPTY, map[], {})

  datatype Statement =
    | BeginRegister(c: Caller, req: RegisterRequest)
    | InsertPeer(c: Caller, id: string, now: string)
    | BeginClaim(c: Caller, sid: string, name: string)
    | CheckFree(c: Caller)
    | UpdateName(c: Caller)
    | DrainQueue(c: Caller)
    | RecordName(c: Caller)
    | WholeRequest(r: Request, x: Texts)

  function StageOf(w: World, c: Caller): Stage {
    if c in w.stages then w.stages[c] else Idle
  }

  /** The statement is the caller's next one; a drawn session id is new and nonempty. */
  predicate Enabled(w: World, s: Statement) {
    match s
    case BeginRegister(c, req) => StageOf(w, c).Idle?
    case InsertPeer(c, id, now) => StageOf(w, c).RegisterChecked? && id != "" && id !in w.drawn
    case BeginClaim(c, sid, name) => StageOf(w, c).Idle?
    case CheckFree(c) => StageOf(w, c).ClaimLookedUp?
    case UpdateName(c) => StageOf(w, c).ClaimChecked?
    case DrainQueue(c) => StageOf(w, c).Written?
    case RecordName(c) => StageOf(w, c).Drained?
    case WholeRequest(r, x) => !r.Joins? && !r.Claims?
  }

  function Enter(w: World, c: Caller, stage: Stage): World {
    w.(stages := w.stages[c := stage])
  }

  /** INSERT under the primary key and the unique index. */
  ghost function Insert(peers: map<string, Peer>, id: string, p: Peer): map<string, Peer> {
    if id in peers || (p.agentName != "" && Held(peers, p.agentName)) then peers else peers[id := p]
  }

  ghost predicate HeldByAnother(peers: map<string, Peer>, id: string, name: string) {
    exists other :: other in peers && other != id && peers[other].agentName == name
  }

  /** `UPDATE peers SET agent_name = ? WHERE id = ?` under the unique index. */
  ghost function Rename(peers: map<string, Peer>, id: string, name: string): map<string, Peer> {
    if id !in peers || (name != "" && HeldByAnother(peers, id, name)) then peers
    else peers[id := peers[id].(agentName := name)]
  }

  ghost function Execute(w: World, s: Statement): World {
    match s
    case BeginRegister(c, req) =>
      if req.agentName != "" && Held(w.tables.peers, req.agentName) then w else Enter(w, c, RegisterChecked(req))
    case InsertPeer(c, id, now) =>
      var stage := StageOf(w, c);
      if stage.RegisterChecked? then
        var req := stage.req;
        var p := Peer(req.agentName, req.machine, req.cwd, now, now);
        Enter(w.(tables := w.tables.(peers := Insert(w.tables.peers, id, p)), drawn := w.drawn + {id}),
              c, if req.agentName == "" then Idle else Written(id, req.agentName))
      else w
    case BeginClaim(c, sid, name) =>
      if name == "" || sid !in w.tables.peers || w.tables.peers[sid].agentName != "" then w
      else Enter(w, c, ClaimLookedUp(sid, name))
    case CheckFree(c) =>
      var stage := StageOf(w, c);
      if stage.ClaimLookedUp? then
        Enter(w, c, if Held(w.tables.peers, stage.name) then Idle else ClaimChecked(stage.sid, stage.name))
      else w
    case UpdateName(c) =>
      var stage := StageOf(w, c);
      if stage.ClaimChecked? then
        Enter(w.(tables := w.tables.(peers := Rename(w.tables.peers, stage.sid, stage.name))),
              c, Written(stage.sid, stage.name))
      else w
    case DrainQueue(c) =>
      var stage := StageOf(w, c);
      if stage.Written? then
        Enter(w.(tables := w.tables.(messages := Drain(w.tables.messages, stage.name, stage.id))),
              c, Drained(stage.name))
      else w
    case RecordName(c) =>
      var stage := StageOf(w, c);
      if stage.Drained? then
        Enter(w.(tables := w.tables.(namesSeen := w.tables.namesSeen + {stage.name})), c, Idle)
      else w
    case WholeRequest(r, x) => w.(tables := Apply(w.tables, r, x))
  }

  ghost function After(run: seq<Statement>): World {
    if run == [] then START else Execute(After(run[..|run| - 1]), run[|run| - 1])
  }

  ghost function At(run: seq<Statement>, k: nat): World
    requires k <= |run|
  {
    After(run[..k])
  }

  /** Every statement was enabled when it ran. */
  ghost predicate Interleaved(run: seq<Statement>) {
    forall k :: 0 <= k < |run| ==> Enabled(At(run, k), run[k])
  }

  lemma Unroll(run: seq<Statement>, k: nat)
    requires k < |run|
    ensures At(run, k + 1) == Execute(At(run, k), run[k])
  {
    assert run[..k + 1][..k] == run[..k];
  }

  // ---------------------------------------------------------------- uninterrupted callers

  /** The statements of one caller's registration, from its check to its last write. */
  ghost function RegisterAlone(w: World, c: Caller, req: RegisterRequest, id: string, now: string): World {
    var checked := Execute(w, BeginRegister(c, req));
    if StageOf(checked, c).Idle? then checked
    else
      var inserted := Execute(checked, InsertPeer(c, id, now));
      if StageOf(inserted, c).Idle? then inserted
      else Execute(Execute(inserted, DrainQueue(c)), RecordName(c))
  }

  /** Without interruption the statements of a registration are the whole request. */
  lemma RegisterAloneIsRegister(w: World, c: Caller, req: RegisterRequest, id: string, now: string)
    requires StageOf(w, c).Idle? && id != ""
    ensures RegisterAlone(w, c, req, id, now).tables == Register(w.tables, req, id, now).0
    ensures StageOf(RegisterAlone(w, c, req, id, now), c).Idle?
  {
    hide Drain;
  }

  ghost function ClaimAlone(w: World, c: Caller, sid: string, name: string): World {
    var looked := Execute(w, BeginClaim(c, sid, name));
    if StageOf(looked, c).Idle? then looked
    else
      var checked := Execute(looked, CheckFree(c));
      if StageOf(checked, c).Idle? then checked
      else Execute(Execute(Execute(checked, UpdateName(c)), DrainQueue(c)), RecordName(c))
  }

  /** Without interruption the statements of a claim are the whole request. */
  lemma ClaimAloneIsClaim(w: World, c: Caller, sid: string, name: string)
    requires StageOf(w, c).Idle?
    ensures ClaimAlone(w, c, sid, name).tables == Claim(w.tables, sid, name).0
    ensures StageOf(ClaimAlone(w, c, sid, name), c).Idle?
  {
    hide Drain;
    if name != "" && sid in w.tables.peers && !Held(w.tables.peers, name) {
      assert !HeldByAnother(w.tables.peers, sid, name);
    }
  }

  // ---------------------------------------------------------------- uniqueness

  lemma UniqueStep(w: World, s: Statement)
    requires UniqueNames(w.tables.peers) && Enabled(w, s)
    ensures UniqueNames(Execute(w, s).tables.peers)
  {
    hide Apply;
    if s.WholeRequest? {
      WholeRequestKeepsNames(w, s);
    }
  }

  /** A request that takes no name adds no session and renames none. */
  lemma WholeRequestKeepsNames(w: World, s: Statement)
    requires s.WholeRequest? && Enabled(w, s)
    ensures var peers, after := w.tables.peers, Execute(w, s).tables.peers;
            forall id :: id in after ==> id in peers && after[id].agentName == peers[id].agentName
  {
    hide Apply;
    var after := Execute(w, s).tables.peers;
    forall id | id in after ensures id in w.tables.peers && after[id].agentName == w.tables.peers[id].agentName {
      PeersStep(w.tables, s.r, s.x, id);
      NameStep(w.tables, s.r, s.x, id);
    }
  }

  /** However the callers interleave, no two rows ever hold the same nonempty name. */
  lemma {:induction false} NamesAlwaysUnique(run: seq<Statement>, k: nat)
    requires Interleaved(run) && k <= |run|
    ensures UniqueNames(At(run, k).tables.peers)
  {
    if k > 0 {
      NamesAlwaysUnique(run, k - 1);
      Unroll(run, k - 1);
      UniqueStep(At(run, k - 1), run[k - 1]);
    }
  }

  // ---------------------------------------------------------------- names under overlap

  /** The statement gives a live, already named session another name. */
  ghost predicate Renames(w: World, s: Statement, id: string) {
    && id in w.tables.peers && id in Execute(w, s).tables.peers
    && w.tables.peers[id].agentName != ""
    && Execute(w, s).tables.peers[id].agentName != w.tables.peers[id].agentName
  }

  /**
   Only the unguarded UPDATE of a claim can rename, and it does so exactly when the session has
   got another name by then and the claim's own is free.
   */
  lemma RenamesExactly(w: World, s: Statement, id: string)
    requires Enabled(w, s) && id in w.tables.peers && w.tables.peers[id].agentName != ""
    ensures Renames(w, s, id) <==>
            s.UpdateName? && StageOf(w, s.c).sid == id
            && StageOf(w, s.c).name != w.tables.peers[id].agentName
            && !(StageOf(w, s.c).name != "" && HeldByAnother(w.tables.peers, id, StageOf(w, s.c).name))
  {
    if s.WholeRequest? && id in Execute(w, s).tables.peers {
      NameStep(w.tables, s.r, s.x, id);
    }
  }

  predicate Claiming(stage: Stage) {
    stage.ClaimLookedUp? || stage.ClaimChecked?
  }

  /** No session has two claims under way between lookup and update. */
  predicate ClaimsApart(w: World) {
    forall c, d :: c in w.stages && d in w.stages && c != d && Claiming(w.stages[c]) && Claiming(w.stages[d]) ==>
      w.stages[c].sid != w.stages[d].sid
  }

  /** Live sessions and those claims are about have ids that will not be drawn again. */
  predicate AllDrawn(w: World) {
    && (forall id :: id in w.tables.peers ==> id in w.drawn)
    && (forall c :: c in w.stages && Claiming(w.stages[c]) ==> w.stages[c].sid in w.drawn)
  }

  lemma AllDrawnStep(w: World, s: Statement)
    requires AllDrawn(w) && Enabled(w, s)
    ensures AllDrawn(Execute(w, s))
  {
    hide Apply;
    if s.WholeRequest? {
      WholeRequestKeepsNames(w, s);
    }
  }

  lemma {:induction false} AlwaysDrawn(run: seq<Statement>, k: nat)
    requires Interleaved(run) && k <= |run|
    ensures AllDrawn(At(run, k))
  {
    hide AllDrawn;
    if k > 0 {
      AlwaysDrawn(run, k - 1);
      Unroll(run, k - 1);
      AllDrawnStep(At(run, k - 1), run[k - 1]);
    } else {
      NoneDrawn();
    }
  }

  lemma NoneDrawn()
    ensures AllDrawn(START)
  {
  }

  predicate LiveNamed(w: World, id: string) {
    id in w.tables.peers && w.tables.peers[id].agentName != ""
  }

  /** The statement is the UPDATE of a claim of `id` and gives the so far unnamed session a name. */
  ghost predicate NamesFirst(w: World, s: Statement, id: string) {
    && s.UpdateName? && StageOf(w, s.c).ClaimChecked? && StageOf(w, s.c).sid == id
    && id in w.tables.peers && w.tables.peers[id].agentName == "" && LiveNamed(Execute(w, s), id)
  }

  /** An id drawn earlier gets a name by a claim's UPDATE and in no other way. */
  lemma NamedByUpdate(w: World, s: Statement, id: string)
    requires Enabled(w, s) && id in w.drawn && !LiveNamed(w, id) && LiveNamed(Execute(w, s), id)
    ensures NamesFirst(w, s, id)
  {
    hide Apply;
    if s.WholeRequest? {
      WholeRequestKeepsNames(w, s);
    }
  }

  /** From its lookup at step `i` until now, before step `k`, caller `c` has been at the same claim. */
  ghost predicate UnderWay(run: seq<Statement>, i: nat, k: nat, c: Caller)
    requires i < k <= |run|
  {
    run[i].BeginClaim? && run[i].c == c && run[i].name != "" &&
    forall m :: i < m <= k ==>
      var stage := StageOf(At(run, m), c);
      Claiming(stage) && stage.sid == run[i].sid && stage.name == run[i].name
  }

  /** At step `j` another caller's claim named the session. */
  ghost predicate NamedByAnother(run: seq<Statement>, j: nat, c: Caller, id: string)
    requires j < |run|
  {
    NamesFirst(At(run, j), run[j], id) && run[j].c != c
  }

  /** One statement of a claim under way, as its caller sees it: its own lookup, its own check, or somebody else's. */
  lemma StageStep(w: World, s: Statement, c: Caller)
    requires Enabled(w, s) && Claiming(StageOf(Execute(w, s), c))
    ensures var stage := StageOf(Execute(w, s), c);
            if s.BeginClaim? && s.c == c
            then s.sid == stage.sid && s.name == stage.name != "" && !LiveNamed(Execute(w, s), stage.sid)
            else Claiming(StageOf(w, c)) && StageOf(w, c).sid == stage.sid && StageOf(w, c).name == stage.name
                 && !(s.UpdateName? && s.c == c)
  {
    hide Apply;
  }

  /** A claim under way began at a lookup, and if its session has a name by now another claim gave it that since. */
  lemma {:induction false} ClaimHistory(run: seq<Statement>, k: nat, c: Caller)
    requires Interleaved(run) && k <= |run| && Claiming(StageOf(At(run, k), c))
    ensures exists i :: 0 <= i < k && UnderWay(run, i, k, c) &&
              (LiveNamed(At(run, k), run[i].sid) ==> exists j :: i < j < k && NamedByAnother(run, j, c, run[i].sid))
  {
    hide Enabled, Execute, At, NamesFirst, LiveNamed;
    if k == 0 {
      NoStages(run);
    } else {
      var w, s := At(run, k - 1), run[k - 1];
      Unroll(run, k - 1);
      StageStep(w, s, c);
      if s.BeginClaim? && s.c == c {
        assert UnderWay(run, k - 1, k, c);
      } else {
        ClaimHistory(run, k - 1, c);
        var i :| 0 <= i < k - 1 && UnderWay(run, i, k - 1, c) &&
                 (LiveNamed(w, run[i].sid) ==> exists j :: i < j < k - 1 && NamedByAnother(run, j, c, run[i].sid));
        assert UnderWay(run, i, k, c);
        if LiveNamed(At(run, k), run[i].sid) && !LiveNamed(w, run[i].sid) {
          AlwaysDrawn(run, k - 1);
          NamedByUpdate(w, s, run[i].sid);
          OnlyUpdates(w, s, run[i].sid);
          assert NamedByAnother(run, k - 1, c, run[i].sid);
        }
      }
    }
  }

  lemma OnlyUpdates(w: World, s: Statement, id: string)
    requires NamesFirst(w, s, id)
    ensures s.UpdateName?
  {
  }

  lemma NoStages(run: seq<Statement>)
    ensures At(run, 0) == START
  {
  }

  /**
   At step `k` caller `c` ends a claim of `id` looked up at step `i`, with another caller's at step
   `j` in between.
   */
  ghost predicate Overlapped(run: seq<Statement>, i: nat, j: nat, k: nat, id: string)
    requires k < |run|
  {
    && run[k].UpdateName? && i < j < k
    && UnderWay(run, i, k, run[k].c) && run[i].sid == id && NamedByAnother(run, j, run[k].c, id)
  }

  lemma LookedUpSame(run: seq<Statement>, i: nat, k: nat, c: Caller)
    requires i < k <= |run| && UnderWay(run, i, k, c)
    ensures StageOf(At(run, k), c).sid == run[i].sid && StageOf(At(run, k), c).name == run[i].name != ""
  {
  }

  /**
   In every run a statement renames a session exactly when it is the UPDATE of a claim during which
   another claim named the session, and the name it brings is a different one that nobody else holds.
   */
  lemma RenamedByOverlap(run: seq<Statement>, k: nat, id: string)
    requires Interleaved(run) && k < |run| && LiveNamed(At(run, k), id)
    ensures Renames(At(run, k), run[k], id) <==>
            exists i: nat, j: nat ::
              Overlapped(run, i, j, k, id) && run[i].name != At(run, k).tables.peers[id].agentName
              && !HeldByAnother(At(run, k).tables.peers, id, run[i].name)
  {
    RenamesExactly(At(run, k), run[k], id);
    hide Execute, At, NamesFirst, UnderWay, HeldByAnother;
    if run[k].UpdateName? {
      var c := run[k].c;
      if Renames(At(run, k), run[k], id) {
        ClaimHistory(run, k, c);
        var i :| 0 <= i < k && UnderWay(run, i, k, c) &&
                 (LiveNamed(At(run, k), run[i].sid) ==> exists j :: i < j < k && NamedByAnother(run, j, c, run[i].sid));
        LookedUpSame(run, i, k, c);
        var j :| i < j < k && NamedByAnother(run, j, c, run[i].sid);
        assert Overlapped(run, i, j, k, id);
      }
      forall i: nat, j: nat | Overlapped(run, i, j, k, id)
        ensures StageOf(At(run, k), c).sid == id && StageOf(At(run, k), c).name == run[i].name
      {
        LookedUpSame(run, i, k, c);
      }
    }
  }

  /** A claim under way has a nonempty name for a session that is either gone or still unnamed. */
  ghost predicate ClaimsFresh(w: World) {
    && AllDrawn(w)
    && (forall c :: c in w.stages && Claiming(w.stages[c]) ==>
          w.stages[c].name != ""
          && (w.stages[c].sid in w.tables.peers ==> w.tables.peers[w.stages[c].sid].agentName == ""))
  }

  lemma ClaimsFreshStep(w: World, s: Statement)
    requires ClaimsFresh(w) && ClaimsApart(w) && Enabled(w, s)
    ensures ClaimsFresh(Execute(w, s))
  {
    hide Apply;
    if s.WholeRequest? {
      WholeRequestKeepsNames(w, s);
    }
  }

  lemma {:induction false} ClaimsStayFresh(run: seq<Statement>, k: nat)
    requires Interleaved(run) && k <= |run|
    requires forall j :: 0 <= j < k ==> ClaimsApart(At(run, j))
    ensures ClaimsFresh(At(run, k))
  {
    if k > 0 {
      ClaimsStayFresh(run, k - 1);
      Unroll(run, k - 1);
      ClaimsFreshStep(At(run, k - 1), run[k - 1]);
    }
  }

  /** While no session has two claims under way, no name ever changes, whatever else interleaves. */
  lemma NamesNeverChange(run: seq<Statement>, k: nat, id: string)
    requires Interleaved(run) && k < |run|
    requires forall j :: 0 <= j <= k ==> ClaimsApart(At(run, j))
    ensures !Renames(At(run, k), run[k], id)
  {
    ClaimsStayFresh(run, k);
    if Renames(At(run, k), run[k], id) {
      RenamesExactly(At(run, k), run[k], id);
    }
  }

  lemma BothPassTheirChecks(w: World, c: Caller, d: Caller, id: string, a: string, b: string)
    requires c != d && StageOf(w, c).Idle? && StageOf(w, d).Idle?
    requires id in w.tables.peers && w.tables.peers[id].agentName == ""
    requires a != "" && b != "" && !Held(w.tables.peers, a) && !Held(w.tables.peers, b)
    ensures var w1 := Execute(w, BeginClaim(c, id, a));
            var w2 := Execute(w1, BeginClaim(d, id, b));
            var w3 := Execute(w2, CheckFree(c));
            var w4 := Execute(w3, CheckFree(d));
            && Enabled(w, BeginClaim(c, id, a)) && Enabled(w1, BeginClaim(d, id, b))
            && Enabled(w2, CheckFree(c)) && Enabled(w3, CheckFree(d))
            && w4.tables == w.tables && StageOf(w4, c) == ClaimChecked(id, a) && StageOf(w4, d) == ClaimChecked(id, b)
  {
  }

  /** The second of two overlapping claims renames the session the first one named. */
  lemma OverlappingClaimsRename(w: World, c: Caller, d: Caller, id: string, a: string, b: string)
    requires c != d && StageOf(w, c).Idle? && StageOf(w, d).Idle?
    requires id in w.tables.peers && w.tables.peers[id].agentName == ""
    requires a != "" && b != "" && a != b && !Held(w.tables.peers, a) && !Held(w.tables.peers, b)
    ensures var looked := Execute(Execute(w, BeginClaim(c, id, a)), BeginClaim(d, id, b));
            var checked := Execute(Execute(looked, CheckFree(c)), CheckFree(d));
            && Enabled(checked, UpdateName(c)) && Enabled(Execute(checked, UpdateName(c)), UpdateName(d))
            && Renames(Execute(checked, UpdateName(c)), UpdateName(d), id)
  {
    BothPassTheirChecks(w, c, d, id, a, b);
    var looked := Execute(Execute(w, BeginClaim(c, id, a)), BeginClaim(d, id, b));
    var checked := Execute(Execute(looked, CheckFree(c)), CheckFree(d));
    SecondWriteRenames(checked, c, d, id, a, b);
  }

  lemma SecondWriteRenames(w: World, c: Caller, d: Caller, id: string, a: string, b: string)
    requires c != d && StageOf(w, c) == ClaimChecked(id, a) && StageOf(w, d) == ClaimChecked(id, b)
    requires id in w.tables.peers && w.tables.peers[id].agentName == ""
    requires a != "" && b != "" && a != b && !Held(w.tables.peers, a) && !Held(w.tables.peers, b)
    ensures Enabled(w, UpdateName(c)) && Enabled(Execute(w, UpdateName(c)), UpdateName(d))
    ensures Renames(Execute(w, UpdateName(c)), UpdateName(d), id)
  {
    var named := Execute(w, UpdateName(c));
    assert named.tables.peers == w.tables.peers[id := w.tables.peers[id].(agentName := a)];
    RenamesExactly(named, UpdateName(d), id);
  }

  // ---------------------------------------------------------------- the loser of a registration race

  /**
   A caller whose INSERT the name index refuses has no row, goes on regardless and binds the
   waiting messages to its rowless id. They are not lost: the name's holder still polls them.
   */
  lemma RaceLoserDrainsToNobody(w: World, c: Caller, req: RegisterRequest, id: string, now: string, i: nat)
    requires StageOf(w, c) == RegisterChecked(req) && req.agentName != "" && Held(w.tables.peers, req.agentName)
    requires id !in w.tables.peers && Enabled(w, InsertPeer(c, id, now)) && UniqueNames(w.tables.peers)
    requires i in w.tables.messages && w.tables.messages[i].toAgent == req.agentName
    requires w.tables.messages[i].toSession == "" && w.tables.messages[i].deliveredAt.None?
    requires w.tables.messages[i].ackAt.None?
    ensures var lost := Execute(w, InsertPeer(c, id, now));
            var drained := Execute(lost, DrainQueue(c)).tables;
            && Enabled(lost, DrainQueue(c))
            && i in drained.messages && drained.messages[i].toSession == id && id !in drained.peers
            && !WellPlaced(drained.peers, drained.messages[i])
            && i in Selected(drained, Holder(drained.peers, req.agentName))
  {
  }
}
