/** The broker object: tables updated in place by requests and by the background loop. */
module BrokerCore {
  import opened Options
  import opened TextOrder
  import opened Store
  import opened StoreLaws

  class Broker {
    var peers: map<string, Peer>
    var messages: map<nat, Message>
    var namesSeen: set<string>
    var nextId: nat

    ghost function View(): Tables
      reads this
    {
      Tables(peers, messages, namesSeen, nextId)
    }

    ghost predicate Valid()
      reads this
    {
      Store.Valid(View())
    }

    constructor ()
      ensures Valid() && View() == EMPTY
    {
      peers, messages, namesSeen, nextId := map[], map[], {}, 1;
    }

    /** The startup of a process over the tables an earlier one left. */
    method Restart()
      requires Valid()
      modifies this
      ensures Valid() && View() == Store.Restart(old(View()))
    {
      namesSeen := namesSeen + (set id | id in peers && peers[id].agentName != "" :: peers[id].agentName);
      namesSeen := namesSeen + (set i | i in messages && messages[i].toAgent != "" :: messages[i].toAgent);
      assert namesSeen == Store.Restart(old(View())).namesSeen;
      RestartKeepsValid(old(View()));
    }

    method DrainTo(name: string, id: string)
      modifies `messages
      ensures messages == Drain(old(messages), name, id)
    {
      messages := map i | i in messages ::
        if messages[i].toAgent == name && messages[i].toSession == "" && messages[i].deliveredAt.None?
        then messages[i].(toSession := id) else messages[i];
    }

    /** `id` is the freshly drawn session id; nothing here checks that it is new. */
    method Register(req: RegisterRequest, id: string, now: string) returns (answer: RegisterAnswer)
      requires Valid()
      modifies this
      ensures (View(), answer) == Store.Register(old(View()), req, id, now)
      ensures id != "" && id !in old(peers) ==> Valid()
    {
      RegisterKeepsValid(View(), req, id, now);
      if req.agentName != "" {
        if held :| held in peers && peers[held].agentName == req.agentName {
          return NameHeld(ConflictWith(peers, held));
        }
      }
      if id !in peers {
        peers := peers[id := Peer(req.agentName, req.machine, req.cwd, now, now)];
      }
      if req.agentName != "" {
        DrainTo(req.agentName, id);
        namesSeen := namesSeen + {req.agentName};
      }
      answer := Registered(id);
    }

    method ClaimAgent(sid: string, name: string) returns (answer: ClaimAnswer)
      requires Valid()
      modifies this
      ensures Valid()
      ensures (View(), answer) == Store.Claim(old(View()), sid, name)
    {
      ClaimKeepsValid(View(), sid, name);
      if name == "" {
        return NameRequired;
      }
      if sid !in peers {
        return SessionNotFound;
      }
      if peers[sid].agentName != "" {
        return AlreadyNamed(peers[sid].agentName);
      }
      if held :| held in peers && peers[held].agentName == name {
        return ClaimHeld(ConflictWith(peers, held));
      }
      peers := peers[sid := peers[sid].(agentName := name)];
      DrainTo(name, sid);
      namesSeen := namesSeen + {name};
      answer := Claimed;
    }

    method Heartbeat(id: string, now: string) returns (answer: HeartbeatAnswer)
      requires Valid()
      modifies `peers
      ensures Valid()
      ensures (View(), answer) == Store.Heartbeat(old(View()), id, now)
    {
      HeartbeatKeepsValid(View(), id, now);
      if id !in peers {
        return UnknownSession;
      }
      peers := peers[id := peers[id].(lastSeen := now)];
      answer := Alive;
    }

    method SendMessage(req: SendRequest, now: string) returns (answer: SendAnswer)
      requires Valid()
      modifies `messages, `nextId
      ensures Valid()
      ensures (View(), answer) == Store.Send(old(View()), req, now)
    {
      SendKeepsValid(View(), req, now);
      if (req.toAgent == "") == (req.toSession == "") {
        return BadTarget;
      }
      var fromAgent := NameOf(peers, req.fromId);
      var session, status := "", Bound;
      if req.toSession != "" {
        if req.toSession !in peers {
          return NoSuchSession;
        }
        session := req.toSession;
      } else if holder :| holder in peers && peers[holder].agentName == req.toAgent && holder != "" {
        session := holder;
      } else {
        status := if req.toAgent in namesSeen then QueuedOffline else QueuedUnknown;
      }
      var m := Message(req.toAgent, session, req.fromId, fromAgent, req.text, now, None, None, None, 0);
      messages := messages[nextId := m];
      answer := Sent(nextId, status != Bound, status);
      nextId := nextId + 1;
    }

    /** The undelivered rows for `id`, in order of their `sent_at` text; ties in no particular order. */
    method SelectRows(id: string) returns (ids: seq<nat>)
      ensures OrderedBySentAt(View(), ids, Selected(View(), id))
    {
      var rows := set i | i in messages && Selects(peers, id, messages[i]);
      ghost var all := rows;
      ids := [];
      while rows != {}
        invariant rows <= all && OrderedBySentAt(View(), ids, all - rows)
        invariant all == Selected(View(), id)
        invariant forall i, j :: i in ids && j in rows ==> !Less(messages[j].sentAt, messages[i].sentAt)
        decreases rows
      {
        EarliestExists(messages, rows);
        var next :| next in rows && forall j :: j in rows ==> !Less(messages[j].sentAt, messages[next].sentAt);
        ids, rows := ids + [next], rows - {next};
      }
    }

    method PeekMessages(id: string) returns (answer: seq<(nat, Message)>)
      ensures AnswersRows(View(), answer, Selected(View(), id))
    {
      var ids := SelectRows(id);
      answer := seq(|ids|, k requires 0 <= k < |ids| && ids[k] in messages reads this => (ids[k], messages[ids[k]]));
      assert Numbers(answer) == ids;
    }

    /** The updates of a poll, row by row: delivered, bound to the caller, one more attempt. */
    method MarkDelivered(answer: seq<(nat, Message)>, id: string, now: string)
      requires forall a, b :: 0 <= a < b < |answer| ==> answer[a].0 != answer[b].0
      requires forall k :: 0 <= k < |answer| ==> answer[k].0 in messages
      modifies `messages
      ensures messages.Keys == old(messages).Keys
      ensures forall i :: i in old(messages) ==>
                messages[i] == if i in Numbers(answer) then Deliver(old(messages)[i], id, now) else old(messages)[i]
    {
      ghost var ids := Numbers(answer);
      var k := 0;
      while k < |answer|
        invariant 0 <= k <= |answer|
        invariant messages.Keys == old(messages).Keys
        invariant forall i :: i in old(messages) ==>
                    messages[i] == if i in ids[..k] then Deliver(old(messages)[i], id, now) else old(messages)[i]
      {
        var i := answer[k].0;
        assert i == ids[k] && ids[..k + 1] == ids[..k] + [i] && i !in ids[..k];
        messages := messages[i := Deliver(messages[i], id, now)];
        k := k + 1;
      }
      assert ids[..k] == ids;
    }

    method PollMessages(id: string, now: string) returns (answer: seq<(nat, Message)>)
      requires Valid()
      modifies `messages
      ensures AnswersRows(old(View()), answer, Selected(old(View()), id))
      ensures View() == Poll(old(View()), id, now)
      ensures id != "" ==> Valid()
    {
      PollKeepsValid(View(), id, now);
      answer := PeekMessages(id);
      ghost var ids := Numbers(answer);
      assert forall i :: i in ids <==> i in Selected(View(), id);
      assert forall j :: 0 <= j < |answer| ==> answer[j].0 == ids[j] && ids[j] in ids;
      assert forall a, b :: 0 <= a < b < |ids| ==> ids[a] != ids[b];
      hide OrderedBySentAt;
      MarkDelivered(answer, id, now);
    }

    method AckMessage(sid: string, mid: nat, now: string)
      requires Valid()
      modifies `messages
      ensures Valid()
      ensures View() == Ack(old(View()), sid, mid, now)
    {
      AckKeepsValid(View(), sid, mid, now);
      if mid in messages && messages[mid].toSession == sid {
        messages := messages[mid := messages[mid].(ackAt := Some(now), ackSession := Some(sid))];
      }
    }

    /** The two statements that settle the unacked messages of a session that is gone. */
    method ReleaseSession(id: string)
      modifies `messages
      ensures messages == Release(old(messages), {id})
    {
      messages := map i | i in messages &&
                          !(messages[i].toSession == id && messages[i].toAgent == "" && messages[i].ackAt.None?) ::
        messages[i];
      messages := map i | i in messages ::
        if messages[i].toSession == id && messages[i].toAgent != "" && messages[i].ackAt.None?
        then messages[i].(toSession := "", deliveredAt := None) else messages[i];
    }

    method Unregister(id: string)
      requires Valid()
      modifies `peers, `messages
      ensures Valid()
      ensures View() == Store.Unregister(old(View()), id)
    {
      ReleaseKeepsValid(View(), {id});
      peers := peers - {id};
      ReleaseSession(id);
    }

    method CleanStalePeers(cutoff: string)
      requires Valid()
      modifies `peers, `messages
      ensures Valid()
      ensures View() == Sweep(old(View()), cutoff)
    {
      ReleaseKeepsValid(View(), Stale(peers, cutoff));
      var dead := set id | id in peers && Less(peers[id].lastSeen, cutoff);
      assert dead == Stale(peers, cutoff);
      peers := peers - dead;
      var left := dead;
      assert Release(messages, {}) == messages;
      while left != {}
        invariant left <= dead && peers == old(peers) - dead
        invariant messages == Release(old(messages), dead - left)
        decreases left
      {
        var id :| id in left;
        ReleaseCompose(old(messages), dead - left, {id});
        assert dead - left + {id} == dead - (left - {id});
        ReleaseSession(id);
        left := left - {id};
      }
      assert dead - left == dead;
    }

    /** The periodic deletion of acked and of overdue messages. */
    method PurgeMessages(ackCutoff: string, sendCutoff: string)
      requires Valid()
      modifies `messages
      ensures Valid()
      ensures View() == Purge(old(View()), ackCutoff, sendCutoff)
    {
      PurgeKeepsValid(View(), ackCutoff, sendCutoff);
      hide Less;
      messages := map i | i in messages && !(messages[i].ackAt.Some? && Less(messages[i].ackAt.value, ackCutoff)) ::
        messages[i];
      messages := map i | i in messages && !(messages[i].ackAt.None? && Less(messages[i].sentAt, sendCutoff)) ::
        messages[i];
    }
  }

  function Numbers(answer: seq<(nat, Message)>): (ids: seq<nat>)
    ensures |ids| == |answer|
  {
    seq(|answer|, k requires 0 <= k < |answer| => answer[k].0)
  }

  /** An answer listing exactly `rows`, as stored, in `sent_at` order. */
  ghost predicate AnswersRows(t: Tables, answer: seq<(nat, Message)>, rows: set<nat>) {
    && OrderedBySentAt(t, Numbers(answer), rows)
    && (forall k :: 0 <= k < |answer| ==> answer[k].0 in t.messages && answer[k].1 == t.messages[answer[k].0])
  }

  /** Among finitely many rows one has the least `sent_at` text. */
  lemma {:induction false} EarliestExists(messages: map<nat, Message>, rows: set<nat>)
    requires rows != {} && forall i :: i in rows ==> i in messages
    ensures exists e :: e in rows && forall j :: j in rows ==> !Less(messages[j].sentAt, messages[e].sentAt)
    decreases rows
  {
    var x :| x in rows;
    hide Less;
    var rest := rows - {x};
    LessIsStrict(messages[x].sentAt, messages[x].sentAt);
    if rest == {} {
      assert rows == {x};
    } else {
      EarliestExists(messages, rest);
      var e :| e in rest && forall j :: j in rest ==> !Less(messages[j].sentAt, messages[e].sentAt);
      var least := if Less(messages[x].sentAt, messages[e].sentAt) then x else e;
      forall j | j in rows ensures !Less(messages[j].sentAt, messages[least].sentAt) {
        if j != x {
          assert j in rest;
          if least == x && Less(messages[j].sentAt, messages[x].sentAt) {
            LessIsTransitive(messages[j].sentAt, messages[x].sentAt, messages[e].sentAt);
          }
        }
      }
    }
  }
}
