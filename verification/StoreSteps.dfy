/** One request of any kind, and what any single request can and cannot do to the tables. */
module StoreSteps {
  import opened Options
  import opened TextOrder
  import opened Store
  import opened StoreLaws

  /** A configured stale timeout in seconds, below 2^63 nanoseconds. Zero or less means the default. */
  type StaleSeconds = n: int | n <= 9_000_000_000

  datatype Request =
    | Joins(req: RegisterRequest, id: string)
    | Claims(sid: string, name: string)
    | Beats(id: string)
    | Sends(msg: SendRequest)
    | Polls(id: string)
    | Acks(sid: string, mid: nat)
    | Leaves(id: string)
    | Sweeps(timeout: StaleSeconds)
    | Purges
    | Starts

  /** The texts a request reads off the clock: the row time and the three cutoffs. */
  datatype Texts = Texts(now: string, stale: string, acked: string, unacked: string)

  ghost function Apply(t: Tables, r: Request, x: Texts): Tables {
    match r
    case Joins(req, id) => Register(t, req, id, x.now).0
    case Claims(sid, name) => Claim(t, sid, name).0
    case Beats(id) => Heartbeat(t, id, x.now).0
    case Sends(msg) => Send(t, msg, x.now).0
    case Polls(id) => Poll(t, id, x.now)
    case Acks(sid, mid) => Ack(t, sid, mid, x.now)
    case Leaves(id) => Unregister(t, id)
    case Sweeps(timeout) => Sweep(t, x.stale)
    case Purges => Purge(t, x.acked, x.unacked)
    case Starts => Restart(t)
  }

  predicate Contacts(r: Request, id: string) {
    (r.Joins? || r.Beats?) && r.id == id
  }

  ghost predicate Delivered(t: Tables, mid: nat) {
    mid in t.messages && t.messages[mid].deliveredAt.Some?
  }

  ghost predicate Addressed(t: Tables, name: string) {
    exists i :: i in t.messages && t.messages[i].toAgent == name
  }

  /** The invariant survives every request whose ids the environment chooses properly. */
  lemma StepKeepsValid(t: Tables, r: Request, x: Texts)
    requires Valid(t)
    requires r.Joins? ==> r.id != "" && r.id !in t.peers
    requires r.Polls? ==> r.id != ""
    ensures Valid(Apply(t, r, x))
  {
    match r
    case Joins(req, id) => RegisterKeepsValid(t, req, id, x.now);
    case Claims(sid, name) => ClaimKeepsValid(t, sid, name);
    case Beats(id) => HeartbeatKeepsValid(t, id, x.now);
    case Sends(msg) => SendKeepsValid(t, msg, x.now);
    case Polls(id) => PollKeepsValid(t, id, x.now);
    case Acks(sid, mid) => AckKeepsValid(t, sid, mid, x.now);
    case Leaves(id) => ReleaseKeepsValid(t, {id});
    case Sweeps(timeout) => ReleaseKeepsValid(t, Stale(t.peers, x.stale));
    case Purges => PurgeKeepsValid(t, x.acked, x.unacked);
    case Starts => RestartKeepsValid(t);
  }

  /** Sessions begin by registering and end by leaving or being swept; contact alone renews them. */
  lemma PeersStep(t: Tables, r: Request, x: Texts, id: string)
    ensures id in Apply(t, r, x).peers && id !in t.peers ==>
              r.Joins? && r.id == id && Apply(t, r, x).peers[id].lastSeen == x.now
    ensures id in t.peers && id !in Apply(t, r, x).peers ==>
              (r.Leaves? && r.id == id) || (r.Sweeps? && Less(t.peers[id].lastSeen, x.stale))
    ensures id in t.peers && r.Sweeps? && Less(t.peers[id].lastSeen, x.stale) ==> id !in Apply(t, r, x).peers
    ensures id in t.peers && id in Apply(t, r, x).peers ==>
              Apply(t, r, x).peers[id].lastSeen == if r.Beats? && r.id == id then x.now else t.peers[id].lastSeen
  {
  }

  /** Only a claim sets a live session's name, and only once. */
  lemma NameStep(t: Tables, r: Request, x: Texts, id: string)
    requires id in t.peers && id in Apply(t, r, x).peers && (r.Claims? ==> t.peers[id].agentName != "")
    ensures Apply(t, r, x).peers[id].agentName == t.peers[id].agentName
  {
  }

  /** Only an accepted send adds a message, under the next number. */
  lemma NumbersStep(t: Tables, r: Request, x: Texts, mid: nat)
    ensures t.nextId <= Apply(t, r, x).nextId
    ensures r.Sends? && Send(t, r.msg, x.now).1.Sent? ==>
              Send(t, r.msg, x.now).1.id == t.nextId < Apply(t, r, x).nextId && t.nextId in Apply(t, r, x).messages
    ensures mid in Apply(t, r, x).messages && mid !in t.messages ==>
              r.Sends? && Send(t, r.msg, x.now).1.Sent? && mid == t.nextId
  {
  }

  /** What an accepted send stores. */
  lemma SendStep(t: Tables, r: Request, x: Texts)
    requires r.Sends? && Send(t, r.msg, x.now).1.Sent?
    ensures t.nextId in Apply(t, r, x).messages
    ensures var m := Apply(t, r, x).messages[t.nextId];
            && m.toAgent == r.msg.toAgent && m.fromSession == r.msg.fromId && m.text == r.msg.text && m.sentAt == x.now
            && m.fromAgent == NameOf(t.peers, r.msg.fromId)
            && m.ackAt.None? && m.deliveredAt.None? && m.attempts == 0
            && (r.msg.toSession != "" ==> m.toSession == r.msg.toSession)
    ensures Apply(t, r, x).peers == t.peers
  {
  }

  /** Addresses, text and time of sending of a stored message never change. */
  lemma ContentStep(t: Tables, r: Request, x: Texts, mid: nat)
    requires mid in t.messages && mid < t.nextId && mid in Apply(t, r, x).messages
    ensures var m, n := t.messages[mid], Apply(t, r, x).messages[mid];
            && n.toAgent == m.toAgent && n.text == m.text && n.sentAt == m.sentAt
            && n.fromSession == m.fromSession && n.fromAgent == m.fromAgent
  {
  }

  /** Only a purge takes an agent message out of the table. */
  lemma RemovalStep(t: Tables, r: Request, x: Texts, mid: nat)
    requires mid in t.messages && t.messages[mid].toAgent != "" && mid !in Apply(t, r, x).messages
    ensures r.Purges? && Expired(t.messages[mid], x.acked, x.unacked)
  {
  }

  /** A direct message stays with its session until an expired purge, or until that session ends before acking it. */
  lemma DirectStep(t: Tables, r: Request, x: Texts, mid: nat)
    requires Valid(t) && mid in t.messages && t.messages[mid].toAgent == ""
    requires t.messages[mid].toSession != "" && (r.Polls? ==> r.id != "")
    ensures mid !in Apply(t, r, x).messages <==>
              || (r.Purges? && Expired(t.messages[mid], x.acked, x.unacked))
              || (t.messages[mid].ackAt.None? && t.messages[mid].toSession !in Apply(t, r, x).peers)
    ensures mid in Apply(t, r, x).messages ==> Apply(t, r, x).messages[mid].toSession == t.messages[mid].toSession
  {
    if t.messages[mid].ackAt.None? {
      assert WellPlaced(t.peers, t.messages[mid]);
    }
  }

  /** An ack that names the session the message is bound to stamps it; nothing else touches the stamp. */
  lemma AckStep(t: Tables, r: Request, x: Texts, mid: nat)
    requires mid in t.messages && mid in Apply(t, r, x).messages && mid < t.nextId
    ensures var m, n := t.messages[mid], Apply(t, r, x).messages[mid];
            n.ackAt == if r.Acks? && r.mid == mid && m.toSession == r.sid then Some(x.now) else m.ackAt
  {
  }

  /** A poll that selects the message delivers it and counts one attempt; nothing else does either. */
  lemma AttemptsStep(t: Tables, r: Request, x: Texts, mid: nat)
    requires mid in t.messages && mid < t.nextId && mid in Apply(t, r, x).messages
    ensures var m, n := t.messages[mid], Apply(t, r, x).messages[mid];
            if r.Polls? && mid in Selected(t, r.id)
            then m.deliveredAt.None? && n.deliveredAt.Some? && n.toSession == r.id && n.attempts == m.attempts + 1
            else n.attempts == m.attempts && (n.deliveredAt.Some? ==> m.deliveredAt.Some?)
  {
  }

  /** What becomes of every session's row. */
  lemma RowStep(t: Tables, r: Request, x: Texts, id: string)
    requires Valid(t) && (r.Joins? ==> r.id !in t.peers)
    ensures var peers := Apply(t, r, x).peers;
            && (id in t.peers ==>
                  (id !in peers <==> r == Leaves(id) || (r.Sweeps? && Less(t.peers[id].lastSeen, x.stale))))
            && (id !in t.peers ==>
                  (id in peers <==> r.Joins? && r.id == id &&
                                    (r.req.agentName == "" || !Held(t.peers, r.req.agentName))))
            && (id !in t.peers && id in peers ==>
                  peers[id] == Peer(r.req.agentName, r.req.machine, r.req.cwd, x.now, x.now))
            && (id in t.peers && id in peers ==>
                  peers[id] == t.peers[id].(
                    lastSeen := if r == Beats(id) then x.now else t.peers[id].lastSeen,
                    agentName := if r.Claims? && r.sid == id && t.peers[id].agentName == "" && !Held(t.peers, r.name)
                                 then r.name else t.peers[id].agentName))
  {
  }

  /** Held by nobody before, by somebody after. */
  ghost predicate NewlyHeld(t: Tables, t': Tables, name: string) {
    name != "" && !Held(t.peers, name) && Held(t'.peers, name)
  }

  /** Unacked when its session ends. */
  predicate LosesSession(t: Tables, t': Tables, m: Message) {
    m.ackAt.None? && m.toSession in t.peers && m.toSession !in t'.peers
  }

  /** Message `mid` after request `r`. */
  ghost predicate Becomes(t: Tables, r: Request, x: Texts, t': Tables, mid: nat)
    requires mid in t.messages
  {
    var m := t.messages[mid];
    && (mid !in t'.messages <==>
          (LosesSession(t, t', m) && m.toAgent == "") || (r.Purges? && Expired(m, x.acked, x.unacked)))
    && (mid in t'.messages ==>
          var n := t'.messages[mid];
          if r.Polls? && Selects(t.peers, r.id, m)
          then n == m.(deliveredAt := Some(x.now), toSession := r.id, attempts := m.attempts + 1)
          else if r.Acks? && r.mid == mid && r.sid == m.toSession
          then n == m.(ackAt := Some(x.now), ackSession := Some(r.sid))
          else if LosesSession(t, t', m)
          then n == m.(toSession := "", deliveredAt := None)
          else if m.toSession == "" && m.deliveredAt.None? && NewlyHeld(t, t', m.toAgent)
          then n == m.(toSession := n.toSession) && NameOf(t'.peers, n.toSession) == m.toAgent
          else n == m)
  }

  /** A request that leaves every name where it is, or frees some, makes none newly held. */
  lemma NoneNewlyHeld(t: Tables, t': Tables, name: string)
    requires forall id :: id in t'.peers ==> id in t.peers && t'.peers[id].agentName == t.peers[id].agentName
    ensures !NewlyHeld(t, t', name)
  {
  }

  /** Giving `id`, unnamed or new, the free name `name` makes just that name newly held. */
  lemma OneNewlyHeld(t: Tables, t': Tables, id: string, name: string, other: string)
    requires t'.peers.Keys == t.peers.Keys + {id} && t'.peers[id].agentName == name
    requires id in t.peers ==> t.peers[id].agentName == ""
    requires forall o :: o in t.peers && o != id ==> t'.peers[o].agentName == t.peers[o].agentName
    requires name != "" ==> !Held(t.peers, name)
    ensures NewlyHeld(t, t', other) <==> name != "" && other == name
  {
    if other == name {
      assert t'.peers[id].agentName == other;
    }
  }

  lemma TakingStep(t: Tables, r: Request, x: Texts, mid: nat)
    requires Valid(t) && mid in t.messages && (r.Joins? || r.Claims?)
    requires r.Joins? ==> r.id != "" && r.id !in t.peers
    ensures Becomes(t, r, x, Apply(t, r, x), mid)
  {
    var t', m := Apply(t, r, x), t.messages[mid];
    if r.Joins? && (r.req.agentName == "" || !Held(t.peers, r.req.agentName)) {
      OneNewlyHeld(t, t', r.id, r.req.agentName, m.toAgent);
    } else if r.Claims? && Claim(t, r.sid, r.name).1 == Claimed {
      OneNewlyHeld(t, t', r.sid, r.name, m.toAgent);
    } else {
      assert t' == t;
    }
  }

  lemma EndingStep(t: Tables, r: Request, x: Texts, mid: nat)
    requires Valid(t) && mid in t.messages && (r.Leaves? || r.Sweeps?)
    ensures Becomes(t, r, x, Apply(t, r, x), mid)
  {
    var t', m := Apply(t, r, x), t.messages[mid];
    NoneNewlyHeld(t, t', m.toAgent);
    hide Held;
    if m.ackAt.None? {
      assert WellPlaced(t.peers, m);
    }
  }

  lemma OtherStep(t: Tables, r: Request, x: Texts, mid: nat)
    requires Valid(t) && mid in t.messages && !r.Joins? && !r.Claims? && !r.Leaves? && !r.Sweeps?
    ensures Becomes(t, r, x, Apply(t, r, x), mid)
  {
    NoneNewlyHeld(t, Apply(t, r, x), t.messages[mid].toAgent);
    hide NewlyHeld, WellPlaced;
  }

  /**
   What becomes of every stored message: removed with its session or by a purge, or delivered by
   the poll that selects it, or stamped by an ack of its session, or put back on its queue when
   its session ends, or handed from its queue to the new holder of its name, or left as it is.
   */
  lemma MessageStep(t: Tables, r: Request, x: Texts, mid: nat)
    requires Valid(t) && mid in t.messages && (r.Joins? ==> r.id != "" && r.id !in t.peers)
    ensures Becomes(t, r, x, Apply(t, r, x), mid)
  {
    hide Becomes, Apply, Valid;
    match r
    case Joins(req, id) => TakingStep(t, r, x, mid);
    case Claims(sid, name) => TakingStep(t, r, x, mid);
    case Leaves(id) => EndingStep(t, r, x, mid);
    case Sweeps(timeout) => EndingStep(t, r, x, mid);
    case _ => OtherStep(t, r, x, mid);
  }

  /** The request ends the session a delivered, unacked agent message is bound to. */
  ghost predicate LosesReader(t: Tables, r: Request, x: Texts, mid: nat) {
    && Delivered(t, mid) && t.messages[mid].ackAt.None? && t.messages[mid].toAgent != ""
    && t.messages[mid].toSession in t.peers && t.messages[mid].toSession !in Apply(t, r, x).peers
  }

  /** That puts the message back on its queue; after any other request it is gone or still delivered to its session. */
  lemma BoundStep(t: Tables, r: Request, x: Texts, mid: nat)
    requires Valid(t) && Delivered(t, mid)
    ensures LosesReader(t, r, x, mid) ==> mid in Apply(t, r, x).messages
    ensures mid in Apply(t, r, x).messages ==>
              var m, n := t.messages[mid], Apply(t, r, x).messages[mid];
              if LosesReader(t, r, x, mid) then n == m.(toSession := "", deliveredAt := None)
              else n.deliveredAt.Some? && n.toSession == m.toSession
  {
    if t.messages[mid].ackAt.None? {
      assert WellPlaced(t.peers, t.messages[mid]);
    }
  }

  /** Delivered to the empty session id: no session can select it. */
  predicate Stranded(t: Tables, mid: nat) {
    mid in t.messages && t.messages[mid].deliveredAt.Some? && t.messages[mid].toSession == ""
  }

  /** A stranded message stays stranded until the empty id is unregistered; unacked, that puts it back on its queue. */
  lemma StrandedStep(t: Tables, r: Request, x: Texts, mid: nat)
    requires Stranded(t, mid) && "" !in t.peers && mid < t.nextId && t.messages[mid].toAgent != ""
    ensures mid in Apply(t, r, x).messages && !Stranded(Apply(t, r, x), mid) <==>
            r == Leaves("") && t.messages[mid].ackAt.None?
    ensures r == Leaves("") && t.messages[mid].ackAt.None? ==>
              Apply(t, r, x).messages[mid] == t.messages[mid].(deliveredAt := None)
  {
  }

  /** The history of names grows by the names just taken and, at startup, by those messages address. */
  lemma SeenStep(t: Tables, r: Request, x: Texts, name: string)
    requires Valid(t) && name != "" && (r.Joins? ==> r.id !in t.peers)
    ensures name in Apply(t, r, x).namesSeen <==>
            name in t.namesSeen || Held(Apply(t, r, x).peers, name) || (r.Starts? && Addressed(t, name))
  {
    match r
    case Joins(req, id) =>
      if req.agentName == name && !Held(t.peers, name) {
        assert Apply(t, r, x).peers[id].agentName == name;
      }
    case Claims(sid, claimed) =>
      if claimed == name && Claim(t, sid, claimed).1 == Claimed {
        assert Apply(t, r, x).peers[sid].agentName == name;
      }
    case _ =>
  }

  /** An ack under the id of no live session changes no unacked message. */
  lemma DeadAckStep(t: Tables, r: Request, x: Texts, mid: nat)
    requires Valid(t) && r.Acks? && r.sid != "" && r.sid !in t.peers
    requires mid in t.messages && t.messages[mid].ackAt.None?
    ensures mid in Apply(t, r, x).messages && Apply(t, r, x).messages[mid] == t.messages[mid]
  {
    DeadAckChangesNoUnacked(t, r.sid, r.mid, x.now);
  }

  /** Where the verdict on a send to an agent comes from. */
  lemma VerdictStep(t: Tables, r: Request, x: Texts)
    requires Valid(t) && r.Sends? && r.msg.toAgent != "" && r.msg.toSession == ""
    ensures var answer, t' := Send(t, r.msg, x.now).1, Apply(t, r, x);
            && answer.Sent? && answer.id == t.nextId && answer.id in t'.messages && t'.peers == t.peers
            && (answer.status == Bound <==> t'.messages[answer.id].toSession in t'.peers)
            && (answer.status == Bound ==> t'.peers[t'.messages[answer.id].toSession].agentName == r.msg.toAgent)
            && (answer.status == Bound <==> Held(t.peers, r.msg.toAgent))
            && (answer.status == QueuedUnknown <==> r.msg.toAgent !in t.namesSeen)
            && (answer.queued <==> answer.status != Bound)
  {
  }
}
