/**
 The client process: it registers, heartbeats, rebinds after an eviction, pushes what it peeks
 and drains what it polls. Its calls reach a broker over a link that may lose the request or
 only the answer.
 */
module Client {
  import opened Options
  import opened Store
  import opened StoreLaws
  import opened BrokerCore

  /** What became of one call: answered, never arrived (or refused at the door), or carried out unanswered. */
  datatype Link = Up | RequestLost | AnswerLost

  datatype Outcome = Unreachable | StillLive | RebindFailed | ReboundNamed | ReboundEphemeral

  /** The session ids the broker would draw next: nonempty, new, and different. */
  predicate FreshIds(t: Tables, id1: string, id2: string) {
    id1 != "" && id2 != "" && id1 != id2 && id1 !in t.peers && id2 !in t.peers
  }

  /** A number and the message written to the channel, or answered, under it. */
  type Note = (nat, Message)

  function Told(notes: seq<Note>): set<nat> {
    set i | i in Numbers(notes)
  }

  lemma ToldInAnswer(t: Tables, answer: seq<Note>, rows: set<nat>)
    requires AnswersRows(t, answer, rows)
    ensures Told(answer) == rows && forall k :: 0 <= k < |answer| ==> answer[k].0 in rows
  {
    assert forall i :: i in Numbers(answer) <==> i in rows;
    forall k | 0 <= k < |answer| ensures answer[k].0 in rows {
      assert Numbers(answer)[k] == answer[k].0;
    }
  }

  predicate Distinct(notes: seq<Note>) {
    forall a, b :: 0 <= a < b < |notes| ==> notes[a].0 != notes[b].0
  }

  /** What has been written after a push of a peeked answer: what was, and the numbers not written before. */
  function PushedOver(notes: seq<Note>, answer: seq<Note>): seq<Note>
    decreases |answer|
  {
    if answer == [] then notes
    else
      var last, before := answer[|answer| - 1], PushedOver(notes, answer[..|answer| - 1]);
      if last.0 in Told(before) then before else before + [last]
  }

  lemma ToldMore(notes: seq<Note>, note: Note)
    ensures Told(notes + [note]) == Told(notes) + {note.0}
  {
    assert Numbers(notes + [note]) == Numbers(notes) + [note.0];
  }

  lemma DistinctMore(notes: seq<Note>, note: Note)
    requires Distinct(notes) && note.0 !in Told(notes)
    ensures Distinct(notes + [note])
  {
    forall a | 0 <= a < |notes| ensures notes[a].0 != note.0 {
      assert Numbers(notes)[a] == notes[a].0;
    }
  }

  /** A push keeps what was written, writes every answered number, and none twice. */
  lemma {:induction false} PushedOverKeeps(notes: seq<Note>, answer: seq<Note>)
    requires Distinct(notes)
    ensures Distinct(PushedOver(notes, answer)) && notes <= PushedOver(notes, answer)
    ensures Told(PushedOver(notes, answer)) == Told(notes) + Told(answer)
  {
    if answer == [] {
      assert Told(answer) == {};
    } else {
      var init, last := answer[..|answer| - 1], answer[|answer| - 1];
      PushedOverKeeps(notes, init);
      assert answer == init + [last];
      ToldMore(init, last);
      hide Told, Distinct;
      var before := PushedOver(notes, init);
      if last.0 !in Told(before) {
        ToldMore(before, last);
        DistinctMore(before, last);
      }
    }
  }

  /** Registering an id not yet in the table puts it there, under the requested name. */
  lemma RegisteredIsLive(t: Tables, req: RegisterRequest, id: string, now: string)
    requires id !in t.peers
    ensures var (t', answer) := Register(t, req, id, now);
            if req.agentName != "" && Held(t.peers, req.agentName) then answer.NameHeld? && t' == t
            else answer == Registered(id) && id in t'.peers && t'.peers[id].agentName == req.agentName
                 && t'.peers[id] == Peer(req.agentName, req.machine, req.cwd, now, now)
                 && (forall other :: other in t.peers ==> other in t'.peers && t'.peers[other] == t.peers[other])
                 && t'.messages.Keys == t.messages.Keys
                 && (forall i :: i in t.messages ==> t'.messages[i].toAgent == t.messages[i].toAgent
                                                     && t'.messages[i].deliveredAt == t.messages[i].deliveredAt)
  {
  }

  /** The holder of a name is owed, and selects, every undelivered message for it. */
  lemma HolderSelectsAllOwed(t: Tables, id: string, name: string)
    requires name != "" && id in t.peers && t.peers[id].agentName == name
    ensures Owed(t, name) <= Selected(t, id)
  {
  }

  function Acked(m: Message, session: string, now: string): Message {
    m.(ackAt := Some(now), ackSession := Some(session))
  }

  function AckRows(messages: map<nat, Message>, rows: set<nat>, session: string, now: string): map<nat, Message> {
    map i | i in messages :: if i in rows then Acked(messages[i], session, now) else messages[i]
  }

  lemma AckOneMore(messages: map<nat, Message>, rows: set<nat>, i: nat, session: string, now: string)
    requires i in messages
    ensures var acked := AckRows(messages, rows, session, now);
            AckRows(messages, rows + {i}, session, now) == acked[i := Acked(acked[i], session, now)]
  {
  }

  class Process {
    const configuredName: string
    const machine: string
    const cwd: string
    var session: string
    var pushed: set<nat>
    ghost var notifications: seq<Note>  // what was written to the channel, in order

    /** The pushed set has the numbers written to the channel, none of them twice. */
    ghost predicate Valid()
      reads this
    {
      pushed == Told(notifications) && Distinct(notifications)
    }

    constructor (configuredName: string, machine: string, cwd: string)
      ensures Valid() && session == "" && pushed == {} && notifications == []
      ensures this.configuredName == configuredName && this.machine == machine && this.cwd == cwd
    {
      this.configuredName, this.machine, this.cwd := configuredName, machine, cwd;
      session, pushed, notifications := "", {}, [];
    }

    /** One register call over a link. */
    method CallRegister(b: Broker, name: string, id: string, now: string, link: Link)
      returns (answer: Option<RegisterAnswer>)
      requires b.Valid() && id != "" && id !in b.peers
      modifies b
      ensures b.Valid()
      ensures if link.RequestLost? then b.View() == old(b.View()) && answer == None
              else var (t, a) := Register(old(b.View()), RegisterRequest(name, machine, cwd), id, now);
                   b.View() == t && answer == if link.Up? then Some(a) else None
    {
      answer := None;
      if !link.RequestLost? {
        var a := b.Register(RegisterRequest(name, machine, cwd), id, now);
        if link.Up? {
          answer := Some(a);
        }
      }
    }

    /**
     Registers under the configured name and, if that is held, once more without a name; the new
     session id replaces the old one only when a registration was answered.
     */
    method Rebind(b: Broker, id1: string, id2: string, now: string, link1: Link, link2: Link) returns (outcome: Outcome)
      requires b.Valid() && FreshIds(b.View(), id1, id2)
      modifies b, `session
      ensures b.Valid()
      ensures outcome in {RebindFailed, ReboundNamed, ReboundEphemeral}
      ensures outcome == RebindFailed ==> session == old(session)
      ensures outcome != RebindFailed ==> session in {id1, id2} && session in b.peers && session !in old(b.peers)
      ensures outcome != RebindFailed ==>
                b.peers[session].machine == machine && b.peers[session].cwd == cwd
                && b.peers[session].startedAt == now && b.peers[session].lastSeen == now
      ensures outcome == ReboundNamed <==>
                link1.Up? && configuredName != "" && !Held(old(b.peers), configuredName)
      ensures outcome == ReboundNamed ==>
                b.peers[session].agentName == configuredName
                && Owed(b.View(), configuredName) == Owed(old(b.View()), configuredName)
      ensures outcome == ReboundEphemeral <==>
                link1.Up? && (configuredName == "" || (Held(old(b.peers), configuredName) && link2.Up?))
      ensures outcome == ReboundEphemeral ==> b.peers[session].agentName == ""
    {
      ghost var t := b.View();
      RegisteredIsLive(t, RegisterRequest(configuredName, machine, cwd), id1, now);
      var first := CallRegister(b, configuredName, id1, now, link1);
      if first.None? {
        return RebindFailed;
      }
      if first.value.Registered? {
        session := first.value.id;
        return if configuredName == "" then ReboundEphemeral else ReboundNamed;
      }
      RegisteredIsLive(b.View(), RegisterRequest("", machine, cwd), id2, now);
      var second := CallRegister(b, "", id2, now, link2);
      if second.None? {
        return RebindFailed;
      }
      session := second.value.id;
      outcome := ReboundEphemeral;
    }

    /** One tick of the heartbeat loop. */
    method HeartbeatTick(b: Broker, now: string, link: Link, id1: string, id2: string, link1: Link, link2: Link)
      returns (outcome: Outcome)
      requires b.Valid() && FreshIds(b.View(), id1, id2)
      modifies b, `session
      ensures b.Valid()
      ensures outcome == Unreachable <==> !link.Up?
      ensures outcome == StillLive <==> link.Up? && old(session) in old(b.peers)
      ensures outcome in {Unreachable, StillLive, RebindFailed} ==> session == old(session)
      ensures outcome in {StillLive, ReboundNamed, ReboundEphemeral} ==>
                session in b.peers && b.peers[session].lastSeen == now
      ensures link.Up? && old(session) !in old(b.peers) && link1.Up? ==>
                if configuredName != "" && !Held(old(b.peers), configuredName)
                then outcome == ReboundNamed && b.peers[session].agentName == configuredName
                     && Owed(old(b.View()), configuredName) <= Selected(b.View(), session)
                else (configuredName == "" || link2.Up?) ==>
                  outcome == ReboundEphemeral && b.peers[session].agentName == ""
    {
      if link.RequestLost? {
        return Unreachable;
      }
      var answer := b.Heartbeat(session, now);
      if link.AnswerLost? {
        return Unreachable;
      }
      if answer == Alive {
        return StillLive;
      }
      outcome := Rebind(b, id1, id2, now, link1, link2);
      if outcome == ReboundNamed {
        HolderSelectsAllOwed(b.View(), session, configuredName);
      }
    }

    /** The push loop over a peeked answer. */
    method WriteNew(answer: seq<Note>)
      requires Valid()
      modifies `pushed, `notifications
      ensures Valid() && notifications == PushedOver(old(notifications), answer)
    {
      hide Told, Distinct;
      var k := 0;
      while k < |answer|
        invariant 0 <= k <= |answer| && Valid()
        invariant notifications == PushedOver(old(notifications), answer[..k])
      {
        assert answer[..k + 1][..k] == answer[..k];
        ToldMore(notifications, answer[k]);
        PushedOverKeeps(old(notifications), answer[..k + 1]);
        if answer[k].0 !in pushed {
          pushed, notifications := pushed + {answer[k].0}, notifications + [answer[k]];
        }
        k := k + 1;
      }
      assert answer[..k] == answer;
    }

    /** Peeks, and writes to the channel every message it has not written before. */
    method PollAndPush(b: Broker, link: Link) returns (ghost answer: Option<seq<Note>>)
      requires Valid()
      modifies `pushed, `notifications
      ensures Valid()
      ensures answer.Some? <==> link.Up?
      ensures answer.Some? ==> AnswersRows(b.View(), answer.value, Selected(b.View(), session))
      ensures notifications == if answer.Some? then PushedOver(old(notifications), answer.value) else old(notifications)
      ensures old(notifications) <= notifications
      ensures pushed == if link.Up? then old(pushed) + Selected(b.View(), session) else old(pushed)
    {
      answer := None;
      if link.Up? {
        var peeked := b.PeekMessages(session);
        answer := Some(peeked);
        ToldInAnswer(b.View(), peeked, Selected(b.View(), session));
        hide Told, Distinct, PushedOver, AnswersRows;
        PushedOverKeeps(notifications, peeked);
        WriteNew(peeked);
      }
    }

    /** Acks the messages of an answer one by one; those in `lost` do not arrive. */
    method AckAll(b: Broker, answer: seq<Note>, acked: string, lost: set<nat>)
      requires b.Valid()
      requires forall k :: 0 <= k < |answer| ==>
                 answer[k].0 in b.messages && b.messages[answer[k].0].toSession == session
      modifies b
      ensures b.Valid()
      ensures b.View() == old(b.View()).(messages := AckRows(old(b.messages), Told(answer) - lost, session, acked))
    {
      ghost var before, t := b.messages, b.View();
      assert Told(answer[..0]) == {};
      hide Told;
      AckNone(before, session, acked);
      var k := 0;
      while k < |answer|
        invariant 0 <= k <= |answer| && b.Valid()
        invariant b.View() == t.(messages := AckRows(before, Told(answer[..k]) - lost, session, acked))
      {
        var i := answer[k].0;
        assert answer[..k + 1] == answer[..k] + [answer[k]];
        ToldMore(answer[..k], answer[k]);
        ghost var done := Told(answer[..k]) - lost;
        if i !in lost {
          assert Told(answer[..k + 1]) - lost == done + {i};
          AckOneMore(before, done, i, session, acked);
          b.AckMessage(session, i, acked);
        } else {
          assert Told(answer[..k + 1]) - lost == done;
        }
        k := k + 1;
      }
      assert answer[..k] == answer;
    }

    /**
     The drain: polls, then acks every message the poll returned; acks in `lost` do not arrive. A
     poll whose own answer is lost has delivered its rows all the same.
     */
    method CheckMessages(b: Broker, link: Link, polled: string, acked: string, lost: set<nat>)
      returns (answer: Option<seq<Note>>)
      requires b.Valid() && session != ""
      modifies b
      ensures b.Valid()
      ensures answer.Some? <==> link.Up?
      ensures answer.Some? ==> AnswersRows(old(b.View()), answer.value, Selected(old(b.View()), session))
      ensures b.View() ==
                if link.RequestLost? then old(b.View())
                else var after := Poll(old(b.View()), session, polled);
                     if link.AnswerLost? then after
                     else var arrived := Selected(old(b.View()), session) - lost;
                          after.(messages := AckRows(after.messages, arrived, session, acked))
      ensures !link.RequestLost? ==> Selected(b.View(), session) == {}
    {
      answer := None;
      if link.RequestLost? {
        return;
      }
      ghost var t := b.View();
      PollDrains(t, session, polled);
      var rows := b.PollMessages(session, polled);
      if link.AnswerLost? {
        return;
      }
      ToldInAnswer(t, rows, Selected(t, session));
      hide Told, AnswersRows;
      AckAll(b, rows, acked, lost);
      AckedStaySettled(Poll(t, session, polled), Selected(t, session) - lost, session, acked);
      answer := Some(rows);
    }
  }

  lemma AckNone(messages: map<nat, Message>, session: string, now: string)
    ensures AckRows(messages, {}, session, now) == messages
  {
  }

  /** Acking makes nothing selectable. */
  lemma AckedStaySettled(t: Tables, rows: set<nat>, session: string, now: string)
    requires Selected(t, session) == {}
    ensures Selected(t.(messages := AckRows(t.messages, rows, session, now)), session) == {}
  {
  }
}
