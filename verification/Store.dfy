/**
 The broker's three tables and what each broker request does to them, one SQL statement
 after another. Times are the text the statements read and write. A request is one step here;
 module Interleaving takes the two name-taking requests apart.
 */
module Store {
  import opened Options
  import opened TextOrder

  datatype Peer = Peer(agentName: string, machine: string, cwd: string, startedAt: string, lastSeen: string)

  /** `toAgent` is empty for a direct message, `toSession` for a queued one. */
  datatype Message = Message(
    toAgent: string, toSession: string, fromSession: string, fromAgent: string, text: string, sentAt: string,
    deliveredAt: Option<string>, ackAt: Option<string>, ackSession: Option<string>, attempts: nat)

  datatype Tables = Tables(
    peers: map<string, Peer>, messages: map<nat, Message>, namesSeen: set<string>, nextId: nat)

  const EMPTY: Tables := Tables(map[], map[], {}, 1)

  datatype RegisterRequest = RegisterRequest(agentName: string, machine: string, cwd: string)
  datatype SendRequest = SendRequest(fromId: string, toAgent: string, toSession: string, text: string)

  datatype Conflict = Conflict(session: string, machine: string, cwd: string, since: string)
  datatype RegisterAnswer = Registered(id: string) | NameHeld(holder: Conflict)
  datatype ClaimAnswer =
    | Claimed | NameRequired | SessionNotFound | AlreadyNamed(name: string) | ClaimHeld(holder: Conflict)
  datatype HeartbeatAnswer = Alive | UnknownSession
  datatype Status = Bound | QueuedOffline | QueuedUnknown
  datatype SendAnswer = Sent(id: nat, queued: bool, status: Status) | BadTarget | NoSuchSession

  // ---------------------------------------------------------------- queries

  ghost predicate Held(peers: map<string, Peer>, name: string) {
    exists id :: id in peers && peers[id].agentName == name
  }

  /** The row a `LIMIT 1` lookup by name finds. */
  ghost function Holder(peers: map<string, Peer>, name: string): (id: string)
    requires Held(peers, name)
    ensures id in peers && peers[id].agentName == name
  {
    var id :| id in peers && peers[id].agentName == name;
    id
  }

  function NameOf(peers: map<string, Peer>, id: string): string {
    if id in peers then peers[id].agentName else ""
  }

  function ConflictWith(peers: map<string, Peer>, id: string): Conflict
    requires id in peers
  {
    Conflict(id, peers[id].machine, peers[id].cwd, peers[id].startedAt)
  }

  /** What a poll or peek by `id` selects: undelivered, and addressed to the session or to its name. */
  predicate Selects(peers: map<string, Peer>, id: string, m: Message) {
    m.deliveredAt.None? && (m.toSession == id || (m.toAgent != "" && m.toAgent == NameOf(peers, id)))
  }

  function Selected(t: Tables, id: string): set<nat> {
    set i | i in t.messages && Selects(t.peers, id, t.messages[i])
  }

  /** An answer to `ORDER BY sent_at ASC`: each selected row once, no later text before an earlier one. */
  ghost predicate OrderedBySentAt(t: Tables, ids: seq<nat>, rows: set<nat>) {
    && (forall i :: i in ids <==> i in rows)
    && (forall a, b :: 0 <= a < b < |ids| ==> ids[a] != ids[b])
    && (forall i :: i in ids ==> i in t.messages)
    && (forall a, b :: 0 <= a < b < |ids| ==> !Less(t.messages[ids[b]].sentAt, t.messages[ids[a]].sentAt))
  }

  function Stale(peers: map<string, Peer>, cutoff: string): set<string> {
    set id | id in peers && Less(peers[id].lastSeen, cutoff)
  }

  // ---------------------------------------------------------------- statements

  function Drain(messages: map<nat, Message>, name: string, id: string): map<nat, Message> {
    map i | i in messages ::
      var m := messages[i];
      if m.toAgent == name && m.toSession == "" && m.deliveredAt.None? then m.(toSession := id) else m
  }

  /** Unacked and bound to one of `gone`. */
  predicate Orphaned(m: Message, gone: set<string>) {
    m.toSession in gone && m.ackAt.None?
  }

  /** Drops the direct messages of `gone` and puts their agent messages back on the queue. */
  function Release(messages: map<nat, Message>, gone: set<string>): map<nat, Message> {
    map i | i in messages && !(Orphaned(messages[i], gone) && messages[i].toAgent == "") ::
      if Orphaned(messages[i], gone) then messages[i].(toSession := "", deliveredAt := None) else messages[i]
  }

  function Deliver(m: Message, id: string, now: string): Message {
    m.(deliveredAt := Some(now), toSession := id, attempts := m.attempts + 1)
  }

  // ---------------------------------------------------------------- requests

  /**
   The INSERT is refused, and its error ignored, when `id` is already a session; the
   statements after it run all the same.
   */
  ghost function Register(t: Tables, req: RegisterRequest, id: string, now: string): (Tables, RegisterAnswer) {
    if req.agentName != "" && Held(t.peers, req.agentName) then
      (t, NameHeld(ConflictWith(t.peers, Holder(t.peers, req.agentName))))
    else
      var peers := if id in t.peers then t.peers
                   else t.peers[id := Peer(req.agentName, req.machine, req.cwd, now, now)];
      if req.agentName == "" then (t.(peers := peers), Registered(id))
      else (t.(peers := peers, messages := Drain(t.messages, req.agentName, id),
               namesSeen := t.namesSeen + {req.agentName}), Registered(id))
  }

  ghost function Claim(t: Tables, sid: string, name: string): (Tables, ClaimAnswer) {
    if name == "" then (t, NameRequired)
    else if sid !in t.peers then (t, SessionNotFound)
    else if t.peers[sid].agentName != "" then (t, AlreadyNamed(t.peers[sid].agentName))
    else if Held(t.peers, name) then (t, ClaimHeld(ConflictWith(t.peers, Holder(t.peers, name))))
    else (t.(peers := t.peers[sid := t.peers[sid].(agentName := name)],
             messages := Drain(t.messages, name, sid), namesSeen := t.namesSeen + {name}), Claimed)
  }

  function Heartbeat(t: Tables, id: string, now: string): (Tables, HeartbeatAnswer) {
    if id in t.peers then (t.(peers := t.peers[id := t.peers[id].(lastSeen := now)]), Alive)
    else (t, UnknownSession)
  }

  /** Where a well-formed send goes: the session it is bound to, if any, and the verdict. */
  ghost function Route(t: Tables, req: SendRequest): (string, Status) {
    if req.toSession != "" then (req.toSession, Bound)
    else if Held(t.peers, req.toAgent) && Holder(t.peers, req.toAgent) != "" then (Holder(t.peers, req.toAgent), Bound)
    else ("", if req.toAgent in t.namesSeen then QueuedOffline else QueuedUnknown)
  }

  ghost function Send(t: Tables, req: SendRequest, now: string): (Tables, SendAnswer) {
    if (req.toAgent == "") == (req.toSession == "") then (t, BadTarget)
    else if req.toSession != "" && req.toSession !in t.peers then (t, NoSuchSession)
    else
      var (session, status) := Route(t, req);
      var fromAgent := NameOf(t.peers, req.fromId);
      var m := Message(req.toAgent, session, req.fromId, fromAgent, req.text, now, None, None, None, 0);
      (t.(messages := t.messages[t.nextId := m], nextId := t.nextId + 1), Sent(t.nextId, status != Bound, status))
  }

  function Poll(t: Tables, id: string, now: string): Tables {
    t.(messages := map i | i in t.messages ::
         if Selects(t.peers, id, t.messages[i]) then Deliver(t.messages[i], id, now) else t.messages[i])
  }

  function Ack(t: Tables, sid: string, mid: nat, now: string): Tables {
    if mid in t.messages && t.messages[mid].toSession == sid then
      t.(messages := t.messages[mid := t.messages[mid].(ackAt := Some(now), ackSession := Some(sid))])
    else t
  }

  function Unregister(t: Tables, id: string): Tables {
    t.(peers := t.peers - {id}, messages := Release(t.messages, {id}))
  }

  function Sweep(t: Tables, cutoff: string): Tables {
    var dead := Stale(t.peers, cutoff);
    t.(peers := t.peers - dead, messages := Release(t.messages, dead))
  }

  predicate Expired(m: Message, ackCutoff: string, sendCutoff: string) {
    if m.ackAt.Some? then Less(m.ackAt.value, ackCutoff) else Less(m.sentAt, sendCutoff)
  }

  function Purge(t: Tables, ackCutoff: string, sendCutoff: string): Tables {
    t.(messages := map i | i in t.messages && !Expired(t.messages[i], ackCutoff, sendCutoff) :: t.messages[i])
  }

  /** Names the startup backfill adds: those held now and those any stored message is addressed to. */
  function BackfilledNames(t: Tables): set<string> {
    (set id | id in t.peers && t.peers[id].agentName != "" :: t.peers[id].agentName) +
    (set i | i in t.messages && t.messages[i].toAgent != "" :: t.messages[i].toAgent)
  }

  function Restart(t: Tables): Tables {
    t.(namesSeen := t.namesSeen + BackfilledNames(t))
  }

  // ---------------------------------------------------------------- the joint invariant

  ghost predicate UniqueNames(peers: map<string, Peer>) {
    forall a, b :: a in peers && b in peers && a != b && peers[a].agentName != "" ==>
      peers[a].agentName != peers[b].agentName
  }

  /**
   Where an unacked message may be. A direct one is with a live session. One for an agent is
   either with the live session of exactly that name, or unbound, undelivered, and the name free.
   */
  ghost predicate WellPlaced(peers: map<string, Peer>, m: Message) {
    if m.toAgent == "" then m.toSession in peers
    else if m.toSession == "" then m.deliveredAt.None? && !Held(peers, m.toAgent)
    else m.toSession in peers && peers[m.toSession].agentName == m.toAgent
  }

  ghost predicate AllPlaced(peers: map<string, Peer>, messages: map<nat, Message>) {
    forall i :: i in messages && messages[i].ackAt.None? ==> WellPlaced(peers, messages[i])
  }

  ghost predicate Valid(t: Tables) {
    && "" !in t.peers
    && UniqueNames(t.peers)
    && AllPlaced(t.peers, t.messages)
    && (forall id :: id in t.peers && t.peers[id].agentName != "" ==> t.peers[id].agentName in t.namesSeen)
    && (forall i :: i in t.messages ==> i < t.nextId)
  }

  /** An unacked message not bound to any session. */
  predicate Unbound(m: Message) {
    m.toSession == "" && m.ackAt.None?
  }

  /** An unacked message still waiting for a holder of `name`. */
  ghost predicate Waiting(messages: map<nat, Message>, name: string) {
    exists i :: i in messages && messages[i].toAgent == name && Unbound(messages[i])
  }

  ghost predicate AnyWaiting(messages: map<nat, Message>) {
    exists i :: i in messages && messages[i].toAgent != "" && Unbound(messages[i])
  }

  lemma EmptyIsValid()
    ensures Valid(EMPTY)
  {
  }

  /**
   Registering keeps the invariant exactly when the drawn id is nonempty and not a live
   session's, or nothing is left for the colliding request to do.
   */
  lemma RegisterKeepsValid(t: Tables, req: RegisterRequest, id: string, now: string)
    requires Valid(t)
    ensures Valid(Register(t, req, id, now).0) <==>
            (req.agentName != "" && Held(t.peers, req.agentName))
            || (if id in t.peers then req.agentName == "" || !Waiting(t.messages, req.agentName) else id != "")
  {
    var t' := Register(t, req, id, now).0;
    if req.agentName != "" && Held(t.peers, req.agentName) {
    } else if id in t.peers {
      if req.agentName != "" && Waiting(t.messages, req.agentName) {
        var i :| i in t.messages && t.messages[i].toAgent == req.agentName && Unbound(t.messages[i]);
        assert WellPlaced(t.peers, t.messages[i]);
        assert !WellPlaced(t'.peers, t'.messages[i]);
      }
    } else if id != "" {
      assert t'.peers[id].agentName == req.agentName;
    }
  }

  lemma ClaimKeepsValid(t: Tables, sid: string, name: string)
    requires Valid(t)
    ensures Valid(Claim(t, sid, name).0)
  {
    var (t', answer) := Claim(t, sid, name);
    if answer == Claimed {
      assert t'.peers[sid].agentName == name;
      forall i | i in t'.messages && t'.messages[i].ackAt.None? ensures WellPlaced(t'.peers, t'.messages[i]) {
        assert WellPlaced(t.peers, t.messages[i]);
      }
    }
  }

  lemma HeartbeatKeepsValid(t: Tables, id: string, now: string)
    requires Valid(t)
    ensures Valid(Heartbeat(t, id, now).0)
  {
    var t' := Heartbeat(t, id, now).0;
    forall i | i in t'.messages && t'.messages[i].ackAt.None? ensures WellPlaced(t'.peers, t'.messages[i]) {
      assert WellPlaced(t.peers, t.messages[i]);
    }
  }

  lemma SendKeepsValid(t: Tables, req: SendRequest, now: string)
    requires Valid(t)
    ensures Valid(Send(t, req, now).0)
  {
  }

  /** Polling keeps the invariant exactly when the caller names a session or no queued message waits. */
  lemma PollKeepsValid(t: Tables, id: string, now: string)
    requires Valid(t)
    ensures Valid(Poll(t, id, now)) <==> id != "" || !AnyWaiting(t.messages)
  {
    var t' := Poll(t, id, now);
    if id == "" && AnyWaiting(t.messages) {
      var i :| i in t.messages && t.messages[i].toAgent != "" && Unbound(t.messages[i]);
      assert WellPlaced(t.peers, t.messages[i]);
      assert !WellPlaced(t'.peers, t'.messages[i]);
    } else {
      forall i | i in t'.messages && t'.messages[i].ackAt.None? ensures WellPlaced(t'.peers, t'.messages[i]) {
        assert WellPlaced(t.peers, t.messages[i]);
      }
    }
  }

  lemma AckKeepsValid(t: Tables, sid: string, mid: nat, now: string)
    requires Valid(t)
    ensures Valid(Ack(t, sid, mid, now))
  {
  }

  /** Ending any set of sessions at once keeps the invariant. */
  lemma ReleaseKeepsValid(t: Tables, gone: set<string>)
    requires Valid(t)
    ensures Valid(t.(peers := t.peers - gone, messages := Release(t.messages, gone)))
  {
    var peers, messages := t.peers - gone, Release(t.messages, gone);
    forall i | i in messages && messages[i].ackAt.None? ensures WellPlaced(peers, messages[i]) {
      assert WellPlaced(t.peers, t.messages[i]);
    }
  }

  lemma PurgeKeepsValid(t: Tables, ackCutoff: string, sendCutoff: string)
    requires Valid(t)
    ensures Valid(Purge(t, ackCutoff, sendCutoff))
  {
  }

  lemma RestartKeepsValid(t: Tables)
    requires Valid(t)
    ensures Valid(Restart(t))
  {
  }
}
