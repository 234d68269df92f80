/** Laws of the table operations that relate several requests. */
module StoreLaws {
  import opened Options
  import opened Store

  // ---------------------------------------------------------------- sweep and unregister

  /** Releasing two groups of sessions one after the other is releasing them together. */
  lemma ReleaseCompose(messages: map<nat, Message>, a: set<string>, b: set<string>)
    ensures Release(Release(messages, a), b) == Release(messages, a + b)
  {
  }

  function UnregisterAll(t: Tables, ids: seq<string>): Tables
    decreases ids
  {
    if ids == [] then t else UnregisterAll(Unregister(t, ids[0]), ids[1..])
  }

  function Members(ids: seq<string>): set<string> {
    set id | id in ids
  }

  /** Unregistering one by one, in any order and with repeats, depends only on who was unregistered. */
  lemma {:induction false} UnregisterAllAtOnce(t: Tables, ids: seq<string>)
    ensures UnregisterAll(t, ids) == t.(peers := t.peers - Members(ids), messages := Release(t.messages, Members(ids)))
    decreases ids
  {
    if ids == [] {
      assert Release(t.messages, {}) == t.messages;
    } else {
      UnregisterAllAtOnce(Unregister(t, ids[0]), ids[1..]);
      ReleaseCompose(t.messages, {ids[0]}, Members(ids[1..]));
      assert {ids[0]} + Members(ids[1..]) == Members(ids);
      assert t.peers - {ids[0]} - Members(ids[1..]) == t.peers - Members(ids);
    }
  }

  /** The sweep is the unregistration of every stale session, whatever the order. */
  lemma SweepIsUnregisterAll(t: Tables, cutoff: string, ids: seq<string>)
    requires Members(ids) == Stale(t.peers, cutoff)
    ensures Sweep(t, cutoff) == UnregisterAll(t, ids)
  {
    UnregisterAllAtOnce(t, ids);
  }

  lemma UnregisterCommutes(t: Tables, a: string, b: string)
    ensures Unregister(Unregister(t, a), b) == Unregister(Unregister(t, b), a)
  {
    assert UnregisterAll(t, [a, b]) == UnregisterAll(Unregister(t, a), [b]) == Unregister(Unregister(t, a), b);
    assert UnregisterAll(t, [b, a]) == UnregisterAll(Unregister(t, b), [a]) == Unregister(Unregister(t, b), a);
    UnregisterAllAtOnce(t, [a, b]);
    UnregisterAllAtOnce(t, [b, a]);
    assert Members([a, b]) == Members([b, a]);
  }

  /** The messages two different sessions' ends touch are different messages. */
  lemma ReleaseDisjoint(messages: map<nat, Message>, a: string, b: string, i: nat)
    requires a != b && i in messages && Orphaned(messages[i], {a})
    ensures i in Release(messages, {b}) && Release(messages, {b})[i] == messages[i]
  {
  }

  // ---------------------------------------------------------------- taking a name

  /** `c` describes the one live session that holds `name`. */
  ghost predicate IdentifiesHolder(t: Tables, c: Conflict, name: string) {
    && c.session in t.peers
    && t.peers[c.session].agentName == name
    && c.machine == t.peers[c.session].machine && c.cwd == t.peers[c.session].cwd
    && c.since == t.peers[c.session].startedAt
    && (forall id :: id in t.peers && t.peers[id].agentName == name ==> id == c.session)
  }

  /** A refused registration changes nothing and names the holder; an accepted one owns its name and its queue. */
  lemma RegisterOutcome(t: Tables, req: RegisterRequest, id: string, now: string)
    requires Valid(t) && id != "" && id !in t.peers
    ensures var (t', answer) := Register(t, req, id, now);
            && (answer.NameHeld? <==> req.agentName != "" && Held(t.peers, req.agentName))
            && (answer.NameHeld? ==> t' == t && IdentifiesHolder(t, answer.holder, req.agentName))
            && (answer.Registered? ==> answer.id == id && t'.peers.Keys == t.peers.Keys + {id})
            && (answer.Registered? ==> t'.peers[id] == Peer(req.agentName, req.machine, req.cwd, now, now))
            && (answer.Registered? ==> forall other :: other in t.peers ==> t'.peers[other] == t.peers[other])
            && (answer.Registered? ==>
                  Selected(t', id) ==
                    (if req.agentName == "" then {} else Owed(t, req.agentName)) + AckedLeftovers(t, id))
  {
    if !(req.agentName != "" && Held(t.peers, req.agentName)) {
      var t' := Register(t, req, id, now).0;
      forall i | i in t.messages && t.messages[i].ackAt.None? ensures WellPlaced(t.peers, t.messages[i]) {}
      assert t'.messages.Keys == t.messages.Keys;
    }
  }

  /** Undelivered messages addressed to an agent, wherever they are bound. */
  function Owed(t: Tables, name: string): set<nat> {
    set i | i in t.messages && t.messages[i].toAgent == name && t.messages[i].deliveredAt.None?
  }

  /** Undelivered yet acked messages still bound to a session id. */
  function AckedLeftovers(t: Tables, id: string): set<nat> {
    set i | i in t.messages && t.messages[i].toSession == id
            && t.messages[i].deliveredAt.None? && t.messages[i].ackAt.Some?
  }

  /**
   The answer to every claim: the first of its four checks that fails decides, a held name is
   answered with its holder, and a claim that passes them all owns that name's queue.
   */
  lemma ClaimOutcome(t: Tables, sid: string, name: string)
    requires Valid(t)
    ensures var (t', answer) := Claim(t, sid, name);
            && (answer == NameRequired <==> name == "")
            && (answer == SessionNotFound <==> name != "" && sid !in t.peers)
            && (answer.AlreadyNamed? <==> name != "" && sid in t.peers && t.peers[sid].agentName != "")
            && (answer.AlreadyNamed? ==> answer.name == t.peers[sid].agentName)
            && (answer.ClaimHeld? <==>
                  name != "" && sid in t.peers && t.peers[sid].agentName == "" && Held(t.peers, name))
            && (answer.ClaimHeld? ==> IdentifiesHolder(t, answer.holder, name))
            && (answer == Claimed <==>
                  name != "" && sid in t.peers && t.peers[sid].agentName == "" && !Held(t.peers, name))
            && (answer != Claimed ==> t' == t)
            && (answer == Claimed ==>
                  NameOf(t'.peers, sid) == name && Selected(t', sid) == Selected(t, sid) + Owed(t, name))
  {
    if Claim(t, sid, name).1 == Claimed {
      assert Claim(t, sid, name).0.messages.Keys == t.messages.Keys;
    }
  }

  // ---------------------------------------------------------------- sending

  /**
   The answer to every send. It is refused, and changes nothing, exactly when both addresses are
   set or neither is, or when it is for a session alone that is not live. Accepted, it adds one
   unbound or bound message under the next number; one for a session is bound to that session.
   */
  lemma SendOutcome(t: Tables, req: SendRequest, now: string)
    ensures var (t', answer) := Send(t, req, now);
            && (answer == BadTarget <==> (req.toAgent == "" <==> req.toSession == ""))
            && (answer == NoSuchSession <==> req.toAgent == "" && req.toSession != "" && req.toSession !in t.peers)
            && (answer.Sent? <==> answer != BadTarget && answer != NoSuchSession)
            && (!answer.Sent? ==> t' == t)
            && (answer.Sent? ==>
                  && answer.id == t.nextId && t'.nextId == t.nextId + 1 && t.nextId in t'.messages
                  && t' == t.(nextId := t'.nextId, messages := t.messages[t.nextId := t'.messages[t.nextId]])
                  && (answer.queued <==> answer.status != Bound)
                  && (answer.queued <==> t'.messages[t.nextId].toSession == ""))
            && (answer.Sent? && req.toSession != "" ==>
                  answer.status == Bound && t'.messages[t.nextId].toSession == req.toSession)
  {
  }

  // ---------------------------------------------------------------- poll, peek and ack

  /** After a poll the same session has nothing left to peek or poll. */
  lemma PollDrains(t: Tables, id: string, now: string)
    ensures Selected(Poll(t, id, now), id) == {}
  {
  }

  /** Nothing a live session's name is owed can be taken by another session's poll. */
  lemma PollTakesOnlyOwn(t: Tables, id: string, other: string, now: string, i: nat)
    requires Valid(t) && id != other && other in t.peers && id != ""
    requires i in Selected(t, other) && t.messages[i].ackAt.None?
    ensures i in Selected(Poll(t, id, now), other)
  {
    assert WellPlaced(t.peers, t.messages[i]);
  }

  /** An ack carrying the id of no live session leaves every unacked message as it was. */
  lemma DeadAckChangesNoUnacked(t: Tables, sid: string, mid: nat, now: string)
    requires Valid(t) && sid !in t.peers && sid != ""
    ensures forall i :: i in t.messages && t.messages[i].ackAt.None? ==>
              i in Ack(t, sid, mid, now).messages && Ack(t, sid, mid, now).messages[i] == t.messages[i]
  {
    if mid in t.messages && t.messages[mid].ackAt.None? {
      assert WellPlaced(t.peers, t.messages[mid]);
    }
  }

  /**
   A nameless ack is the exception: no session has the empty id, yet it consumes a queued
   message exactly when one is waiting under that number.
   */
  lemma NamelessAckTakesWaiting(t: Tables, mid: nat, now: string)
    requires Valid(t)
    ensures (exists i ::
               i in t.messages && t.messages[i].ackAt.None? && Ack(t, "", mid, now).messages[i] != t.messages[i])
            <==> mid in t.messages && t.messages[mid].ackAt.None? && t.messages[mid].toSession == ""
  {
    var t' := Ack(t, "", mid, now);
    if mid in t.messages && t.messages[mid].ackAt.None? && t.messages[mid].toSession == "" {
      assert t'.messages[mid].ackAt == Some(now);
      assert t'.messages[mid] != t.messages[mid];
    }
  }

  /**
   Acking quiets a message for its session exactly when it had been delivered: acked before
   delivery, the same session's next poll still returns it.
   */
  lemma AckQuietsDelivered(t: Tables, sid: string, mid: nat, now: string)
    requires mid in t.messages && t.messages[mid].toSession == sid
    ensures mid !in Selected(Ack(t, sid, mid, now), sid) <==> t.messages[mid].deliveredAt.Some?
  {
  }
}
