/** Whole runs of the broker: sequences of timed requests, and what holds after every one. */
module BrokerRuns {
  import opened Options
  import opened TextOrder
  import opened Timestamps
  import opened Store
  import opened StoreSteps

  function StaleSpan(timeout: StaleSeconds): Span {
    (if timeout <= 0 then 20 else timeout) * SECOND
  }

  const ACKED_RETENTION: Span := 3_600 * 1_000_000_000
  const UNACKED_RETENTION: Span := 24 * 3_600 * 1_000_000_000

  datatype Step = Step(request: Request, now: Clock)

  /** The texts a step reads off the clock, written in format `f`. */
  function TextsOf(f: Format, s: Step): Texts {
    Texts(f.row(s.now),
          if s.request.Sweeps? then f.cutoff(Ago(s.now, StaleSpan(s.request.timeout))) else "",
          f.cutoff(Ago(s.now, ACKED_RETENTION)),
          f.cutoff(Ago(s.now, UNACKED_RETENTION)))
  }

  ghost function Next(f: Format, t: Tables, s: Step): Tables {
    Apply(t, s.request, TextsOf(f, s))
  }

  /** The tables after the first `k` steps, from an empty database. */
  ghost function At(f: Format, run: seq<Step>, k: nat): Tables
    requires k <= |run|
  {
    if k == 0 then EMPTY else Next(f, At(f, run, k - 1), run[k - 1])
  }

  /** Time does not run backwards, drawn session ids are new and nonempty. */
  predicate Admitted(run: seq<Step>) {
    && (forall i, j :: 0 <= i < j < |run| ==> run[i].now <= run[j].now)
    && (forall i :: 0 <= i < |run| && run[i].request.Joins? ==> run[i].request.id != "")
    && (forall i, j :: 0 <= i < j < |run| && run[i].request.Joins? && run[j].request.Joins? ==>
          run[i].request.id != run[j].request.id)
  }

  /** An admitted run whose polls name a session. */
  predicate Legal(run: seq<Step>) {
    Admitted(run) && forall i :: 0 <= i < |run| && run[i].request.Polls? ==> run[i].request.id != ""
  }

  // ---------------------------------------------------------------- the invariant in every run

  lemma {:induction false} LiveWasRegistered(f: Format, run: seq<Step>, k: nat, id: string)
    requires k <= |run| && id in At(f, run, k).peers
    ensures exists i :: 0 <= i < k && run[i].request.Joins? && run[i].request.id == id
  {
    hide Apply, TextsOf;
    if k > 0 {
      PeersStep(At(f, run, k - 1), run[k - 1].request, TextsOf(f, run[k - 1]), id);
      if id in At(f, run, k - 1).peers {
        LiveWasRegistered(f, run, k - 1, id);
      }
    }
  }

  lemma {:induction false} AlwaysValid(f: Format, run: seq<Step>, k: nat)
    requires Legal(run) && k <= |run|
    ensures Valid(At(f, run, k))
  {
    hide Apply, TextsOf;
    if k == 0 {
      EmptyIsValid();
    } else {
      AlwaysValid(f, run, k - 1);
      if run[k - 1].request.Joins? && run[k - 1].request.id in At(f, run, k - 1).peers {
        LiveWasRegistered(f, run, k - 1, run[k - 1].request.id);
      }
      StepKeepsValid(At(f, run, k - 1), run[k - 1].request, TextsOf(f, run[k - 1]));
    }
  }

  // ---------------------------------------------------------------- message numbers

  /** Message numbers only grow, and a number that has left the table does not come back. */
  lemma {:induction false} NumbersOnlyGrow(f: Format, run: seq<Step>, i: nat, k: nat, mid: nat)
    requires i <= k <= |run|
    ensures At(f, run, i).nextId <= At(f, run, k).nextId
    ensures mid in At(f, run, k).messages && mid < At(f, run, i).nextId ==> mid in At(f, run, i).messages
  {
    hide Apply, TextsOf;
    if i < k {
      NumbersOnlyGrow(f, run, i, k - 1, mid);
      NumbersStep(At(f, run, k - 1), run[k - 1].request, TextsOf(f, run[k - 1]), mid);
    }
  }

  lemma {:induction false} StoredBelowNext(f: Format, run: seq<Step>, k: nat, mid: nat)
    requires k <= |run| && mid in At(f, run, k).messages
    ensures mid < At(f, run, k).nextId
  {
    hide Apply, TextsOf;
    if k > 0 {
      NumbersStep(At(f, run, k - 1), run[k - 1].request, TextsOf(f, run[k - 1]), mid);
      if mid in At(f, run, k - 1).messages {
        StoredBelowNext(f, run, k - 1, mid);
      }
    }
  }

  ghost predicate SendAccepted(f: Format, run: seq<Step>, i: nat, mid: nat)
    requires i < |run|
  {
    run[i].request.Sends? &&
    var answer := Send(At(f, run, i), run[i].request.msg, f.row(run[i].now)).1;
    answer.Sent? && answer.id == mid
  }

  /** Two accepted sends never share a number. */
  lemma SendNumbersDiffer(f: Format, run: seq<Step>, i: nat, j: nat, m: nat, n: nat)
    requires i < j < |run| && SendAccepted(f, run, i, m) && SendAccepted(f, run, j, n)
    ensures m < n
  {
    hide Apply, TextsOf;
    NumbersStep(At(f, run, i), run[i].request, TextsOf(f, run[i]), m);
    NumbersStep(At(f, run, j), run[j].request, TextsOf(f, run[j]), n);
    NumbersOnlyGrow(f, run, i + 1, j, m);
  }

  /** `m` carries the sender, agent, text and time of the send accepted at step `i` under number `mid`. */
  ghost predicate CameFrom(f: Format, run: seq<Step>, i: nat, mid: nat, m: Message)
    requires i < |run|
  {
    && SendAccepted(f, run, i, mid)
    && m.toAgent == run[i].request.msg.toAgent
    && m.fromSession == run[i].request.msg.fromId
    && m.fromAgent == NameOf(At(f, run, i).peers, run[i].request.msg.fromId)
    && m.text == run[i].request.msg.text
    && m.sentAt == f.row(run[i].now)
  }

  /** Every stored message came from an accepted send and still carries what was sent. */
  lemma {:induction false} StoredCameFrom(f: Format, run: seq<Step>, k: nat, mid: nat)
    requires Legal(run) && k <= |run| && mid in At(f, run, k).messages
    ensures exists i :: 0 <= i < k && CameFrom(f, run, i, mid, At(f, run, k).messages[mid])
  {
    hide Apply, TextsOf, UniqueNames, AllPlaced;
    if k > 0 {
      AlwaysValid(f, run, k - 1);
      var t, r, x := At(f, run, k - 1), run[k - 1].request, TextsOf(f, run[k - 1]);
      if mid in t.messages {
        StoredCameFrom(f, run, k - 1, mid);
        var i :| 0 <= i < k - 1 && CameFrom(f, run, i, mid, t.messages[mid]);
        ContentStep(t, r, x, mid);
        assert CameFrom(f, run, i, mid, At(f, run, k).messages[mid]);
      } else {
        NumbersStep(t, r, x, mid);
        StoredBySend(f, run, k - 1, mid);
      }
    }
  }

  // ---------------------------------------------------------------- no silent loss

  /** An ack that hits: the session it names is the one the message is bound to. */
  ghost predicate AckHits(f: Format, run: seq<Step>, i: nat, mid: nat)
    requires i < |run|
  {
    run[i].request.Acks? && run[i].request.mid == mid &&
    mid in At(f, run, i).messages && At(f, run, i).messages[mid].toSession == run[i].request.sid
  }

  /** Step `s` is the last before `k` whose ack hit. */
  ghost predicate LastAckedAt(f: Format, run: seq<Step>, s: nat, k: nat, mid: nat)
    requires k <= |run|
  {
    s < k && AckHits(f, run, s, mid) && forall j :: s < j < k ==> !AckHits(f, run, j, mid)
  }

  /** The stamp of an acked message is the time of the last ack that hit. */
  lemma {:induction false} AckedWhen(f: Format, run: seq<Step>, k: nat, mid: nat)
    requires Legal(run) && k <= |run| && mid in At(f, run, k).messages && At(f, run, k).messages[mid].ackAt.Some?
    ensures exists s :: LastAckedAt(f, run, s, k, mid)
    ensures forall s: nat :: LastAckedAt(f, run, s, k, mid) ==>
              At(f, run, k).messages[mid].ackAt == Some(f.row(run[s].now))
  {
    hide At, AckHits;
    if k == 0 {
      NothingStored(f, run);
    } else {
      StampStep(f, run, k - 1, mid);
      LastAckStep(f, run, k - 1, k, mid);
      if !AckHits(f, run, k - 1, mid) {
        AckedWhen(f, run, k - 1, mid);
        var s :| LastAckedAt(f, run, s, k - 1, mid);
        LastAckStep(f, run, s, k, mid);
      }
      forall s: nat | LastAckedAt(f, run, s, k, mid)
        ensures At(f, run, k).messages[mid].ackAt == Some(f.row(run[s].now))
      {
        LastAckStep(f, run, s, k, mid);
      }
    }
  }

  lemma NothingStored(f: Format, run: seq<Step>)
    ensures At(f, run, 0).messages == map[]
  {
  }

  /** A message is stamped after a step exactly as that step's ack, if it hits, or as it was before. */
  lemma StampStep(f: Format, run: seq<Step>, k: nat, mid: nat)
    requires k < |run| && mid in At(f, run, k + 1).messages && At(f, run, k + 1).messages[mid].ackAt.Some?
    ensures AckHits(f, run, k, mid) ==> At(f, run, k + 1).messages[mid].ackAt == Some(f.row(run[k].now))
    ensures !AckHits(f, run, k, mid) ==>
              && mid in At(f, run, k).messages
              && At(f, run, k).messages[mid].ackAt == At(f, run, k + 1).messages[mid].ackAt
  {
    var t, r, x := At(f, run, k), run[k].request, TextsOf(f, run[k]);
    assert x.now == f.row(run[k].now);
    hide Apply, TextsOf;
    NumbersStep(t, r, x, mid);
    if mid !in t.messages {
      SendStep(t, r, x);
    } else {
      StoredBelowNext(f, run, k, mid);
      AckStep(t, r, x, mid);
    }
  }

  lemma LastAckStep(f: Format, run: seq<Step>, s: nat, k: nat, mid: nat)
    requires 0 < k <= |run|
    ensures LastAckedAt(f, run, s, k, mid) <==>
              (if AckHits(f, run, k - 1, mid) then s == k - 1 else LastAckedAt(f, run, s, k - 1, mid))
  {
    hide AckHits;
    if s < k - 1 && AckHits(f, run, k - 1, mid) {
      assert !LastAckedAt(f, run, s, k, mid);
    }
  }

  /** Step `s` dates the message as of step `k`: its last ack, or its send if it is unacked. */
  ghost predicate DatedBy(f: Format, run: seq<Step>, s: nat, k: nat, mid: nat)
    requires k <= |run|
  {
    && s < k && mid in At(f, run, k).messages
    && var m := At(f, run, k).messages[mid];
    if m.ackAt.Some? then LastAckedAt(f, run, s, k, mid) else CameFrom(f, run, s, mid, m)
  }

  lemma AlwaysDated(f: Format, run: seq<Step>, k: nat, mid: nat)
    requires Legal(run) && k <= |run| && mid in At(f, run, k).messages
    ensures exists s :: DatedBy(f, run, s, k, mid)
  {
    hide At, LastAckedAt, CameFrom;
    StoredCameFrom(f, run, k, mid);
    var i :| 0 <= i < k && CameFrom(f, run, i, mid, At(f, run, k).messages[mid]);
    if At(f, run, k).messages[mid].ackAt.Some? {
      AckedWhen(f, run, k, mid);
      var s :| LastAckedAt(f, run, s, k, mid);
      LastAckIsEarlier(f, run, s, k, mid);
      assert DatedBy(f, run, s, k, mid);
    } else {
      assert DatedBy(f, run, i, k, mid);
    }
  }

  lemma LastAckIsEarlier(f: Format, run: seq<Step>, s: nat, k: nat, mid: nat)
    requires k <= |run| && LastAckedAt(f, run, s, k, mid)
    ensures s < k
  {
  }

  /** Below the whole-second cutoff that lies `span` nanoseconds before `now`. */
  predicate PastCutoff(time: Clock, now: Clock, span: Span) {
    var cutoff := now - span;
    || time / 1_000_000_000 < cutoff / 1_000_000_000
    || (time / 1_000_000_000 == cutoff / 1_000_000_000 && time % 1_000_000_000 != 0)
  }

  lemma PastCutoffBounds(time: Clock, now: Clock, span: Span)
    ensures PastCutoff(time, now, span) ==> now - time > span - 1_000_000_000
    ensures now - time >= span + 1_000_000_000 ==> PastCutoff(time, now, span)
  {
    SecondsApart(time, now - span);
  }

  lemma CutoffDecides(f: Format, time: Clock, now: Clock, span: Span)
    requires Faithful(f)
    ensures Less(f.row(time), f.cutoff(Ago(now, span))) <==> PastCutoff(time, now, span)
  {
  }

  /**
   What a purge takes, acked or not: exactly the messages whose last ack, an hour before, or whose
   send, a day before, lies below the cutoff. So none that is a second younger than that, and all
   that are a second older.
   */
  lemma PurgeExactly(f: Format, run: seq<Step>, k: nat, s: nat, mid: nat)
    requires Faithful(f) && Legal(run) && k < |run| && run[k].request.Purges? && DatedBy(f, run, s, k, mid)
    ensures var span := if At(f, run, k).messages[mid].ackAt.Some? then 3_600_000_000_000 else 86_400_000_000_000;
            var age := run[k].now - run[s].now;
            && (mid !in At(f, run, k + 1).messages <==> PastCutoff(run[s].now, run[k].now, span))
            && (mid !in At(f, run, k + 1).messages ==> age > span - 1_000_000_000)
            && (age >= span + 1_000_000_000 ==> mid !in At(f, run, k + 1).messages)
  {
    hide Faithful, LastAckedAt, SendAccepted, PastCutoff;
    var m := At(f, run, k).messages[mid];
    if m.ackAt.Some? {
      AckedWhen(f, run, k, mid);
      CutoffDecides(f, run[s].now, run[k].now, ACKED_RETENTION);
      PastCutoffBounds(run[s].now, run[k].now, ACKED_RETENTION);
    } else {
      CutoffDecides(f, run[s].now, run[k].now, UNACKED_RETENTION);
      PastCutoffBounds(run[s].now, run[k].now, UNACKED_RETENTION);
    }
  }

  /**
   After a purge nothing unacked is left that was sent a day and a second ago, and nothing acked
   whose last ack was an hour and a second ago.
   */
  lemma PurgeLeavesNothingOld(f: Format, run: seq<Step>, k: nat, mid: nat)
    requires Faithful(f) && Legal(run) && k < |run| && run[k].request.Purges? && mid in At(f, run, k + 1).messages
    ensures mid in At(f, run, k).messages && At(f, run, k + 1).messages[mid] == At(f, run, k).messages[mid]
    ensures exists s: nat :: DatedBy(f, run, s, k, mid) && run[k].now - run[s].now <
              if At(f, run, k).messages[mid].ackAt.Some? then 3_601_000_000_000 else 86_401_000_000_000
  {
    PurgeKeeps(f, run, k, mid);
    hide At, DatedBy, Legal, Faithful, PastCutoff;
    AlwaysDated(f, run, k, mid);
    var s :| DatedBy(f, run, s, k, mid);
    PurgeExactly(f, run, k, s, mid);
  }

  lemma PurgeKeeps(f: Format, run: seq<Step>, k: nat, mid: nat)
    requires k < |run| && run[k].request.Purges? && mid in At(f, run, k + 1).messages
    ensures mid in At(f, run, k).messages && At(f, run, k + 1).messages[mid] == At(f, run, k).messages[mid]
  {
  }

  /**
   At step `j` a purge removed `mid`: acked, and its last ack more than 59m59s old, or unacked, and
   the send at step `i` more than 23h59m59s.
   */
  ghost predicate PurgedProperly(f: Format, run: seq<Step>, i: nat, j: nat, mid: nat)
    requires i < |run| && j < |run|
  {
    && run[j].request.Purges?
    && mid in At(f, run, j).messages && mid !in At(f, run, j + 1).messages
    && if At(f, run, j).messages[mid].ackAt.None? then run[j].now - run[i].now > 86_399_000_000_000
       else exists a: nat :: LastAckedAt(f, run, a, j, mid) && run[j].now - run[a].now > 3_599_000_000_000
  }

  lemma PurgeIsProper(f: Format, run: seq<Step>, i: nat, k: nat, mid: nat)
    requires Faithful(f) && Legal(run) && i < k < |run| && run[k].request.Purges?
    requires mid in At(f, run, k).messages && CameFrom(f, run, i, mid, At(f, run, k).messages[mid])
    requires mid !in At(f, run, k + 1).messages
    ensures PurgedProperly(f, run, i, k, mid)
  {
    hide At, Faithful, Legal, CameFrom, LastAckedAt;
    if At(f, run, k).messages[mid].ackAt.Some? {
      AckedWhen(f, run, k, mid);
      var a :| LastAckedAt(f, run, a, k, mid);
      LastAckIsEarlier(f, run, a, k, mid);
      PurgeExactly(f, run, k, a, mid);
    } else {
      PurgeExactly(f, run, k, i, mid);
    }
  }

  lemma LossStep(f: Format, run: seq<Step>, i: nat, k: nat, mid: nat)
    requires Faithful(f) && Legal(run) && i < k < |run| && run[i].request.Sends? && run[i].request.msg.toAgent != ""
    requires mid in At(f, run, k).messages && CameFrom(f, run, i, mid, At(f, run, k).messages[mid])
    ensures (mid in At(f, run, k + 1).messages && CameFrom(f, run, i, mid, At(f, run, k + 1).messages[mid]))
            || PurgedProperly(f, run, i, k, mid)
  {
    hide Apply, TextsOf, Faithful;
    var t, r, x := At(f, run, k), run[k].request, TextsOf(f, run[k]);
    AlwaysValid(f, run, k);
    if mid in At(f, run, k + 1).messages {
      ContentStep(t, r, x, mid);
    } else {
      RemovalStep(t, r, x, mid);
      PurgeIsProper(f, run, i, k, mid);
    }
  }

  lemma StoredBySend(f: Format, run: seq<Step>, i: nat, mid: nat)
    requires i < |run| && SendAccepted(f, run, i, mid)
    ensures mid in At(f, run, i + 1).messages && CameFrom(f, run, i, mid, At(f, run, i + 1).messages[mid])
  {
    hide Apply;
    NumbersStep(At(f, run, i), run[i].request, TextsOf(f, run[i]), mid);
    SendStep(At(f, run, i), run[i].request, TextsOf(f, run[i]));
  }

  /**
   A message accepted for an agent is in the table until a purge takes it, and no purge takes
   it unacked before its day is over. While unacked it is with the live session of exactly
   that name, or unbound and undelivered with the name free.
   */
  lemma {:induction false} NoSilentLoss(f: Format, run: seq<Step>, i: nat, k: nat, mid: nat)
    requires Faithful(f) && Legal(run) && i < k <= |run|
    requires SendAccepted(f, run, i, mid) && run[i].request.msg.toAgent != ""
    ensures var t := At(f, run, k);
            || (mid in t.messages && CameFrom(f, run, i, mid, t.messages[mid])
                && (t.messages[mid].ackAt.None? ==> WellPlaced(t.peers, t.messages[mid])))
            || (exists j :: i < j < k && PurgedProperly(f, run, i, j, mid))
  {
    hide Apply, TextsOf;
    AlwaysValid(f, run, k);
    if i == k - 1 {
      StoredBySend(f, run, i, mid);
    } else {
      NoSilentLoss(f, run, i, k - 1, mid);
      if !(exists j :: i < j < k - 1 && PurgedProperly(f, run, i, j, mid)) {
        LossStep(f, run, i, k - 1, mid);
      }
    }
  }

  /**
   When the holder of a name polls, each message ever accepted for that name has been purged or
   acked, or this poll returns it, or an earlier poll of the same session returned it.
   */
  lemma HolderGetsEverything(f: Format, run: seq<Step>, i: nat, k: nat, mid: nat)
    requires Faithful(f) && Legal(run) && i < k < |run|
    requires SendAccepted(f, run, i, mid) && run[i].request.msg.toAgent != ""
    requires run[k].request.Polls? && NameOf(At(f, run, k).peers, run[k].request.id) == run[i].request.msg.toAgent
    ensures var t := At(f, run, k);
            || (exists j :: i < j < k && PurgedProperly(f, run, i, j, mid))
            || (mid in t.messages
                && (t.messages[mid].ackAt.Some? || Returned(f, run, k, mid)
                    || exists j :: i < j < k && Returned(f, run, j, mid) && run[j].request.id == run[k].request.id))
  {
    hide Apply, TextsOf;
    NoSilentLoss(f, run, i, k, mid);
    AlwaysValid(f, run, k);
    if Delivered(At(f, run, k), mid) {
      DeliveredWasReturned(f, run, k, mid);
      var j :| 0 <= j < k && Returned(f, run, j, mid) && run[j].request.id == At(f, run, k).messages[mid].toSession;
      StoredBelowNext(f, run, j, mid);
      NumbersStep(At(f, run, i), run[i].request, TextsOf(f, run[i]), mid);
      if j <= i {
        NumbersOnlyGrow(f, run, j, i, mid);
      }
    }
  }

  /** A delivered message was returned by a poll of the session it is bound to. */
  lemma {:induction false} DeliveredWasReturned(f: Format, run: seq<Step>, k: nat, mid: nat)
    requires Legal(run) && k <= |run| && Delivered(At(f, run, k), mid)
    ensures exists j ::
              0 <= j < k && Returned(f, run, j, mid) && run[j].request.id == At(f, run, k).messages[mid].toSession
  {
    hide Apply, TextsOf, UniqueNames, AllPlaced;
    if k > 0 {
      AlwaysValid(f, run, k - 1);
      var t, r, x := At(f, run, k - 1), run[k - 1].request, TextsOf(f, run[k - 1]);
      NumbersStep(t, r, x, mid);
      if mid !in t.messages {
        SendStep(t, r, x);
      } else if Delivered(t, mid) {
        DeliveredWasReturned(f, run, k - 1, mid);
        BoundStep(t, r, x, mid);
      } else {
        AttemptsStep(t, r, x, mid);
        assert Returned(f, run, k - 1, mid);
      }
    }
  }

  lemma PlacedWhileUnacked(t: Tables, mid: nat)
    requires Valid(t) && mid in t.messages && t.messages[mid].ackAt.None?
    ensures WellPlaced(t.peers, t.messages[mid])
  {
  }

  /** Step `j` acked `mid`: under the live session it was bound to, or without a session id while it was queued. */
  ghost predicate AckedAt(f: Format, run: seq<Step>, j: nat, mid: nat)
    requires j < |run|
  {
    && run[j].request.Acks? && run[j].request.mid == mid && mid in At(f, run, j).messages
    && var m, sid := At(f, run, j).messages[mid], run[j].request.sid;
    && m.ackAt.None? && m.toSession == sid
    && if sid == "" then m.toAgent != "" && m.deliveredAt.None? else sid in At(f, run, j).peers
  }

  /** A message is acked only by the live session it is bound to, or by a nameless ack that finds it queued. */
  lemma {:induction false} AckedByItsSession(f: Format, run: seq<Step>, k: nat, mid: nat)
    requires Legal(run) && k <= |run| && mid in At(f, run, k).messages && At(f, run, k).messages[mid].ackAt.Some?
    ensures exists j :: 0 <= j < k && AckedAt(f, run, j, mid)
  {
    hide Apply, TextsOf, UniqueNames, AllPlaced;
    if k > 0 {
      AlwaysValid(f, run, k - 1);
      var t, r, x := At(f, run, k - 1), run[k - 1].request, TextsOf(f, run[k - 1]);
      NumbersStep(t, r, x, mid);
      if mid !in t.messages {
        SendStep(t, r, x);
      } else {
        AckStep(t, r, x, mid);
        if t.messages[mid].ackAt.Some? {
          AckedByItsSession(f, run, k - 1, mid);
        } else {
          NoEmptyId(f, run, k - 1);
          PlacedWhileUnacked(t, mid);
          assert AckedAt(f, run, k - 1, mid);
        }
      }
    }
  }

  /** Clients ack only what a poll of theirs has returned. */
  ghost predicate AcksFollowPolls(f: Format, run: seq<Step>) {
    forall a :: 0 <= a < |run| && run[a].request.Acks? ==>
      exists p :: 0 <= p < a && Returned(f, run, p, run[a].request.mid) && run[p].request.id == run[a].request.sid
  }

  /**
   End to end, for clients that ack only what they were answered: an accepted agent message is in
   its place, unacked, or some poll has returned it, or a purge ran more than 24h - 1s after it was sent.
   */
  lemma SeenOrKept(f: Format, run: seq<Step>, i: nat, k: nat, mid: nat)
    requires Faithful(f) && Legal(run) && i < k <= |run| && AcksFollowPolls(f, run)
    requires SendAccepted(f, run, i, mid) && run[i].request.msg.toAgent != ""
    ensures var t := At(f, run, k);
            || (mid in t.messages && CameFrom(f, run, i, mid, t.messages[mid]) && t.messages[mid].ackAt.None?
                && WellPlaced(t.peers, t.messages[mid]))
            || (exists p :: 0 <= p < k && Returned(f, run, p, mid))
            || (exists j :: i < j < k && run[j].request.Purges? && run[j].now - run[i].now > 86_399_000_000_000)
  {
    hide Apply, TextsOf, At, Returned;
    NoSilentLoss(f, run, i, k, mid);
    if mid in At(f, run, k).messages && At(f, run, k).messages[mid].ackAt.Some? {
      AckedWasReturned(f, run, k, mid);
    } else if j :| i < j < k && PurgedProperly(f, run, i, j, mid) {
      if At(f, run, j).messages[mid].ackAt.Some? {
        AckedWasReturned(f, run, j, mid);
      }
    }
  }

  lemma AckedWasReturned(f: Format, run: seq<Step>, k: nat, mid: nat)
    requires Legal(run) && k <= |run| && AcksFollowPolls(f, run)
    requires mid in At(f, run, k).messages && At(f, run, k).messages[mid].ackAt.Some?
    ensures exists p :: 0 <= p < k && Returned(f, run, p, mid)
  {
    hide At, Returned;
    AckedByItsSession(f, run, k, mid);
    var j :| 0 <= j < k && AckedAt(f, run, j, mid);
  }

  // ---------------------------------------------------------------- direct messages

  /** A direct message in the table, bound to its session, which lives while the message is unacked. */
  ghost predicate WithItsSession(f: Format, run: seq<Step>, i: nat, k: nat, mid: nat)
    requires i < |run| && k <= |run| && run[i].request.Sends?
  {
    var t := At(f, run, k);
    && mid in t.messages && CameFrom(f, run, i, mid, t.messages[mid])
    && t.messages[mid].toSession == run[i].request.msg.toSession
    && (t.messages[mid].ackAt.None? ==> t.messages[mid].toSession in t.peers)
  }

  /** At step `j` the session of the direct message ended before acking it. */
  ghost predicate DroppedWithSession(f: Format, run: seq<Step>, i: nat, j: nat, mid: nat)
    requires i < |run| && j < |run| && run[i].request.Sends?
  {
    && mid in At(f, run, j).messages && At(f, run, j).messages[mid].ackAt.None?
    && Ended(f, run, j, run[i].request.msg.toSession)
  }

  lemma DirectLossStep(f: Format, run: seq<Step>, i: nat, k: nat, mid: nat)
    requires Faithful(f) && Legal(run) && i < k < |run| && run[i].request.Sends?
    requires run[i].request.msg.toAgent == "" && run[i].request.msg.toSession != "" && WithItsSession(f, run, i, k, mid)
    ensures || WithItsSession(f, run, i, k + 1, mid)
            || PurgedProperly(f, run, i, k, mid)
            || DroppedWithSession(f, run, i, k, mid)
  {
    hide Apply, TextsOf, Faithful, UniqueNames, AllPlaced, PurgedProperly, Expired;
    var t, r, x := At(f, run, k), run[k].request, TextsOf(f, run[k]);
    AlwaysValid(f, run, k);
    AlwaysValid(f, run, k + 1);
    DirectStep(t, r, x, mid);
    if mid in At(f, run, k + 1).messages {
      ContentStep(t, r, x, mid);
      if At(f, run, k + 1).messages[mid].ackAt.None? {
        PlacedWhileUnacked(At(f, run, k + 1), mid);
      }
    } else if !DroppedWithSession(f, run, i, k, mid) {
      PurgeIsProper(f, run, i, k, mid);
    }
  }

  /**
   A message accepted for a session is with that session until a purge takes it, acked or with its
   day over, or the session ends before acking it.
   */
  lemma {:induction false} DirectMessageFate(f: Format, run: seq<Step>, i: nat, k: nat, mid: nat)
    requires Faithful(f) && Legal(run) && i < k <= |run| && SendAccepted(f, run, i, mid)
    requires run[i].request.msg.toAgent == ""
    ensures || WithItsSession(f, run, i, k, mid)
            || (exists j :: i < j < k && PurgedProperly(f, run, i, j, mid))
            || (exists j :: i < j < k && DroppedWithSession(f, run, i, j, mid))
  {
    hide Apply, TextsOf, WithItsSession;
    if i == k - 1 {
      StoredWithItsSession(f, run, i, mid);
    } else {
      DirectMessageFate(f, run, i, k - 1, mid);
      if WithItsSession(f, run, i, k - 1, mid) {
        DirectLossStep(f, run, i, k - 1, mid);
      }
    }
  }

  lemma StoredWithItsSession(f: Format, run: seq<Step>, i: nat, mid: nat)
    requires Legal(run) && i < |run| && SendAccepted(f, run, i, mid) && run[i].request.msg.toAgent == ""
    ensures WithItsSession(f, run, i, i + 1, mid)
  {
    hide Apply;
    StoredBySend(f, run, i, mid);
    NumbersStep(At(f, run, i), run[i].request, TextsOf(f, run[i]), mid);
    SendStep(At(f, run, i), run[i].request, TextsOf(f, run[i]));
    AlwaysValid(f, run, i + 1);
    PlacedWhileUnacked(At(f, run, i + 1), mid);
  }

  // ---------------------------------------------------------------- delivery counts

  ghost predicate Returned(f: Format, run: seq<Step>, j: nat, mid: nat)
    requires j < |run|
  {
    run[j].request.Polls? && mid in Selected(At(f, run, j), run[j].request.id)
  }

  /** Step `j` ended the session the delivered, unacked agent message `mid` was bound to. */
  ghost predicate Requeued(f: Format, run: seq<Step>, j: nat, mid: nat)
    requires j < |run|
  {
    Delivered(At(f, run, j), mid) &&
    var m := At(f, run, j).messages[mid];
    m.ackAt.None? && m.toAgent != "" && Ended(f, run, j, m.toSession)
  }

  /**
   The end of its session is what puts a delivered message back on its queue, unbound and
   undelivered, and there is no other way back: no retry while the session lives.
   */
  lemma RequeuedExactly(f: Format, run: seq<Step>, j: nat, mid: nat)
    requires Legal(run) && j < |run| && Delivered(At(f, run, j), mid)
    ensures Requeued(f, run, j, mid) <==> mid in At(f, run, j + 1).messages && !Delivered(At(f, run, j + 1), mid)
    ensures Requeued(f, run, j, mid) ==> At(f, run, j + 1).messages[mid].toSession == ""
  {
    hide Apply, TextsOf;
    AlwaysValid(f, run, j);
    BoundStep(At(f, run, j), run[j].request, TextsOf(f, run[j]), mid);
  }

  ghost function Returns(f: Format, run: seq<Step>, k: nat, mid: nat): nat
    requires k <= |run|
  {
    if k == 0 then 0 else Returns(f, run, k - 1, mid) + (if Returned(f, run, k - 1, mid) then 1 else 0)
  }

  ghost function Requeues(f: Format, run: seq<Step>, k: nat, mid: nat): nat
    requires k <= |run|
  {
    if k == 0 then 0 else Requeues(f, run, k - 1, mid) + (if Requeued(f, run, k - 1, mid) then 1 else 0)
  }

  lemma {:induction false} NothingBeforeTheSend(f: Format, run: seq<Step>, k: nat, mid: nat)
    requires Legal(run) && k <= |run| && At(f, run, k).nextId <= mid
    ensures Returns(f, run, k, mid) == 0 && Requeues(f, run, k, mid) == 0
  {
    hide Apply, TextsOf;
    if k > 0 {
      NumbersOnlyGrow(f, run, k - 1, k, mid);
      AlwaysValid(f, run, k - 1);
      NothingBeforeTheSend(f, run, k - 1, mid);
    }
  }

  /**
   Attempts count the polls that returned the message: one for each session that ended before
   acking it, one more while it is delivered.
   */
  lemma {:induction false} AttemptsConserved(f: Format, run: seq<Step>, k: nat, mid: nat)
    requires Legal(run) && k <= |run| && mid in At(f, run, k).messages
    ensures At(f, run, k).messages[mid].attempts == Returns(f, run, k, mid)
    ensures At(f, run, k).messages[mid].attempts ==
              Requeues(f, run, k, mid) + (if Delivered(At(f, run, k), mid) then 1 else 0)
  {
    hide Apply, TextsOf, UniqueNames, AllPlaced;
    if k > 0 {
      var t := At(f, run, k - 1);
      AlwaysValid(f, run, k - 1);
      if mid in t.messages {
        AttemptsConserved(f, run, k - 1, mid);
        if Delivered(t, mid) {
          RequeuedExactly(f, run, k - 1, mid);
        }
        AttemptsStep(t, run[k - 1].request, TextsOf(f, run[k - 1]), mid);
      } else {
        NumbersStep(t, run[k - 1].request, TextsOf(f, run[k - 1]), mid);
        SendStep(t, run[k - 1].request, TextsOf(f, run[k - 1]));
        NumbersOnlyGrow(f, run, k - 1, k, mid);
        NothingBeforeTheSend(f, run, k - 1, mid);
      }
    }
  }

  // ---------------------------------------------------------------- redelivery

  ghost predicate Ended(f: Format, run: seq<Step>, j: nat, sid: string)
    requires j < |run|
  {
    sid in At(f, run, j).peers && sid !in At(f, run, j + 1).peers
  }

  lemma {:induction false} BoundUntilEnded(f: Format, run: seq<Step>, i: nat, k: nat, mid: nat)
    requires Legal(run) && i < k <= |run| && Returned(f, run, i, mid)
    ensures var sid := run[i].request.id;
            || (exists j :: i < j < k && Requeued(f, run, j, mid) && Ended(f, run, j, sid))
            || mid !in At(f, run, k).messages
            || (Delivered(At(f, run, k), mid) && At(f, run, k).messages[mid].toSession == sid)
  {
    hide Apply, TextsOf, UniqueNames, AllPlaced;
    AlwaysValid(f, run, k - 1);
    var t, r, x := At(f, run, k - 1), run[k - 1].request, TextsOf(f, run[k - 1]);
    if i == k - 1 {
      if mid in At(f, run, k).messages {
        AttemptsStep(t, r, x, mid);
      }
    } else {
      BoundUntilEnded(f, run, i, k - 1, mid);
      if mid !in t.messages {
        AlwaysValid(f, run, i);
        NumbersOnlyGrow(f, run, i, k - 1, mid);
        NumbersStep(t, r, x, mid);
      } else if mid in At(f, run, k).messages && Delivered(t, mid) {
        BoundStep(t, r, x, mid);
        assert Requeued(f, run, k - 1, mid) <==> LosesReader(t, r, x, mid);
      }
    }
  }

  /** Between two polls that return the same message, the first one's session ended without having acked it. */
  lemma RedeliveryNeedsADeath(f: Format, run: seq<Step>, i: nat, k: nat, mid: nat)
    requires Legal(run) && i < k < |run| && Returned(f, run, i, mid) && Returned(f, run, k, mid)
    ensures exists j :: i < j < k && Requeued(f, run, j, mid) && Ended(f, run, j, run[i].request.id)
  {
    hide Apply, TextsOf;
    BoundUntilEnded(f, run, i, k, mid);
  }

  lemma {:induction false} AckedStaysDelivered(f: Format, run: seq<Step>, i: nat, k: nat, mid: nat)
    requires Legal(run) && i < k <= |run| && AckHits(f, run, i, mid) && Delivered(At(f, run, i), mid)
    ensures mid in At(f, run, k).messages ==> Delivered(At(f, run, k), mid) && At(f, run, k).messages[mid].ackAt.Some?
  {
    hide Apply, TextsOf, UniqueNames, AllPlaced;
    AlwaysValid(f, run, k - 1);
    var t, r, x := At(f, run, k - 1), run[k - 1].request, TextsOf(f, run[k - 1]);
    if mid in At(f, run, k).messages {
      AlwaysValid(f, run, i);
      NumbersOnlyGrow(f, run, i, k - 1, mid);
      NumbersStep(t, r, x, mid);
      if i < k - 1 {
        AckedStaysDelivered(f, run, i, k - 1, mid);
      }
      AckStep(t, r, x, mid);
      BoundStep(t, r, x, mid);
      PeersStep(t, r, x, t.messages[mid].toSession);
    }
  }

  /** Once a delivered message is acked, no later poll by anyone returns it. */
  lemma NoDeliveryAfterAck(f: Format, run: seq<Step>, i: nat, k: nat, mid: nat)
    requires Legal(run) && i < k < |run| && AckHits(f, run, i, mid) && Delivered(At(f, run, i), mid)
    ensures !Returned(f, run, k, mid)
  {
    hide Apply, TextsOf;
    AckedStaysDelivered(f, run, i, k, mid);
  }

  // ---------------------------------------------------------------- polls without a session id

  /** Step `j` unregistered the empty id and so put the stranded, unacked message back on its queue. */
  ghost predicate PutBack(f: Format, run: seq<Step>, j: nat, mid: nat)
    requires j < |run|
  {
    && run[j].request == Leaves("")
    && Stranded(At(f, run, j), mid) && At(f, run, j).messages[mid].ackAt.None?
    && mid in At(f, run, j + 1).messages
    && At(f, run, j + 1).messages[mid] == At(f, run, j).messages[mid].(deliveredAt := None)
  }

  /** A poll under some id would return it. */
  ghost predicate Selectable(t: Tables, mid: nat) {
    mid in t.messages && exists id :: Selects(t.peers, id, t.messages[mid])
  }

  lemma StrandedAfterPoll(f: Format, run: seq<Step>, i: nat, mid: nat)
    requires Admitted(run) && i < |run| && run[i].request == Polls("") && Returned(f, run, i, mid)
    ensures Stranded(At(f, run, i + 1), mid)
    ensures At(f, run, i + 1).messages[mid].toAgent == At(f, run, i).messages[mid].toAgent
  {
  }

  /** A message a nameless poll returned stays out of reach, or leaves the table, until the empty id is unregistered. */
  lemma {:induction false} StrandedUntilPutBack(f: Format, run: seq<Step>, i: nat, k: nat, mid: nat)
    requires Admitted(run) && i < k <= |run| && run[i].request == Polls("") && Returned(f, run, i, mid)
    requires At(f, run, i).messages[mid].toAgent != ""
    ensures || mid !in At(f, run, k).messages
            || (Stranded(At(f, run, k), mid) && At(f, run, k).messages[mid].toAgent != "")
            || exists j :: i < j < k && PutBack(f, run, j, mid)
  {
    hide Apply, TextsOf;
    if i == k - 1 {
      StrandedAfterPoll(f, run, i, mid);
    } else {
      StrandedUntilPutBack(f, run, i, k - 1, mid);
      var t, r, x := At(f, run, k - 1), run[k - 1].request, TextsOf(f, run[k - 1]);
      if mid !in t.messages {
        StoredBelowNext(f, run, i, mid);
        NumbersOnlyGrow(f, run, i, k - 1, mid);
        NumbersStep(t, r, x, mid);
      } else if Stranded(t, mid) && t.messages[mid].toAgent != "" {
        NoEmptyId(f, run, k - 1);
        StoredBelowNext(f, run, k - 1, mid);
        StrandedStep(t, r, x, mid);
        if mid in At(f, run, k).messages {
          ContentStep(t, r, x, mid);
          assert Stranded(At(f, run, k), mid) || PutBack(f, run, k - 1, mid);
        }
      }
    }
  }

  lemma NoEmptyId(f: Format, run: seq<Step>, k: nat)
    requires Admitted(run) && k <= |run|
    ensures "" !in At(f, run, k).peers
  {
    if "" in At(f, run, k).peers {
      LiveWasRegistered(f, run, k, "");
    }
  }

  /**
   Nobody selects a message a nameless poll took from its queue until the empty id has been
   unregistered while the message was unacked.
   */
  lemma NamelessPollStrands(f: Format, run: seq<Step>, i: nat, k: nat, mid: nat)
    requires Admitted(run) && i < k <= |run| && run[i].request == Polls("") && Returned(f, run, i, mid)
    requires At(f, run, i).messages[mid].toAgent != "" && Selectable(At(f, run, k), mid)
    ensures exists j :: i < j < k && PutBack(f, run, j, mid)
  {
    hide Apply, TextsOf;
    StrandedUntilPutBack(f, run, i, k, mid);
  }

  /**
   One step lets a stranded agent message be selected again exactly when it unregisters the empty id
   before an ack.
   */
  lemma PutBackExactly(f: Format, run: seq<Step>, k: nat, mid: nat)
    requires Admitted(run) && k < |run| && Stranded(At(f, run, k), mid) && At(f, run, k).messages[mid].toAgent != ""
    ensures Selectable(At(f, run, k + 1), mid) <==>
              run[k].request == Leaves("") && At(f, run, k).messages[mid].ackAt.None?
    ensures PutBack(f, run, k, mid) <==> run[k].request == Leaves("") && At(f, run, k).messages[mid].ackAt.None?
  {
    hide Apply, TextsOf;
    NoEmptyId(f, run, k);
    StoredBelowNext(f, run, k, mid);
    StrandedStep(At(f, run, k), run[k].request, TextsOf(f, run[k]), mid);
    var after := At(f, run, k + 1);
    if PutBack(f, run, k, mid) {
      assert Selects(after.peers, "", after.messages[mid]);
    }
  }

  // ---------------------------------------------------------------- late acks

  lemma {:induction false} EndedStaysEnded(f: Format, run: seq<Step>, j: nat, k: nat, sid: string)
    requires Legal(run) && j < k <= |run| && Ended(f, run, j, sid)
    ensures sid !in At(f, run, k).peers
  {
    hide Apply, TextsOf;
    if j + 1 < k {
      EndedStaysEnded(f, run, j, k - 1, sid);
      PeersStep(At(f, run, k - 1), run[k - 1].request, TextsOf(f, run[k - 1]), sid);
      if sid in At(f, run, k).peers {
        LiveWasRegistered(f, run, j, sid);
      }
    }
  }

  /** Once a session has ended, no ack under its id changes any unacked message, whoever holds its name now. */
  lemma LateAckHarmless(f: Format, run: seq<Step>, j: nat, k: nat, sid: string)
    requires Legal(run) && j < k < |run| && Ended(f, run, j, sid)
    requires run[k].request.Acks? && run[k].request.sid == sid
    ensures forall mid :: mid in At(f, run, k).messages && At(f, run, k).messages[mid].ackAt.None? ==>
              mid in At(f, run, k + 1).messages && At(f, run, k + 1).messages[mid] == At(f, run, k).messages[mid]
  {
    hide Apply, TextsOf;
    EndedStaysEnded(f, run, j, k, sid);
    AlwaysValid(f, run, k);
    AlwaysValid(f, run, j);
    forall mid | mid in At(f, run, k).messages && At(f, run, k).messages[mid].ackAt.None?
      ensures mid in At(f, run, k + 1).messages && At(f, run, k + 1).messages[mid] == At(f, run, k).messages[mid]
    {
      DeadAckStep(At(f, run, k), run[k].request, TextsOf(f, run[k]), mid);
    }
  }

  // ---------------------------------------------------------------- eviction

  /** When `id` last registered or sent a heartbeat among the first `k` steps; 0 if never. */
  ghost function LastContact(run: seq<Step>, k: nat, id: string): Instant
    requires k <= |run|
  {
    if k == 0 then 0 else if Contacts(run[k - 1].request, id) then run[k - 1].now else LastContact(run, k - 1, id)
  }

  lemma {:induction false} LastSeenIsLastContact(f: Format, run: seq<Step>, k: nat, id: string)
    requires Legal(run) && k <= |run| && id in At(f, run, k).peers
    ensures At(f, run, k).peers[id].lastSeen == f.row(LastContact(run, k, id))
  {
    hide Apply;
    if k > 0 {
      var t := At(f, run, k - 1);
      PeersStep(t, run[k - 1].request, TextsOf(f, run[k - 1]), id);
      if id in t.peers {
        LastSeenIsLastContact(f, run, k - 1, id);
        if run[k - 1].request.Joins? && run[k - 1].request.id == id {
          LiveWasRegistered(f, run, k - 1, id);
        }
      }
    }
  }

  /**
   A sweep evicts a live session exactly when its last contact lies in a second before the
   cutoff's, or inside the cutoff's second but not at its start, the cutoff being T seconds ago and
   T the configured timeout, or 20 without one: so never at T - 1 seconds of silence or less, and
   always at T + 1 seconds or more.
   */
  lemma EvictionExactly(f: Format, run: seq<Step>, k: nat, id: string)
    requires Faithful(f) && Legal(run) && k < |run| && run[k].request.Sweeps? && id in At(f, run, k).peers
    ensures var timeout := run[k].request.timeout;
            var T := if timeout <= 0 then 20 else timeout;
            var last, cutoff := LastContact(run, k, id), run[k].now - T * 1_000_000_000;
            && (Ended(f, run, k, id) <==>
                  || last / 1_000_000_000 < cutoff / 1_000_000_000
                  || (last / 1_000_000_000 == cutoff / 1_000_000_000 && last % 1_000_000_000 != 0))
            && (Ended(f, run, k, id) ==> run[k].now - last > (T - 1) * 1_000_000_000)
            && (run[k].now - last >= (T + 1) * 1_000_000_000 ==> Ended(f, run, k, id))
  {
    hide Apply;
    var span := StaleSpan(run[k].request.timeout);
    LastSeenIsLastContact(f, run, k, id);
    PeersStep(At(f, run, k), run[k].request, TextsOf(f, run[k]), id);
    AgeTestWithinOneSecond(f, LastContact(run, k, id), run[k].now, span);
  }

  /** No sweep before step `k` finds `id` silent for more than its timeout less one second. */
  ghost predicate KeepsInTouch(run: seq<Step>, i: nat, k: nat, id: string)
    requires k <= |run|
  {
    forall j :: i < j < k && run[j].request.Sweeps? ==>
      run[j].now - LastContact(run, j, id) <=
        ((if run[j].request.timeout <= 0 then 20 else run[j].request.timeout) - 1) * 1_000_000_000
  }

  /** A registered session that keeps in touch and does not leave is never evicted. */
  lemma {:induction false} NeverEvicted(f: Format, run: seq<Step>, i: nat, k: nat, id: string)
    requires Faithful(f) && Legal(run) && i < k <= |run|
    requires run[i].request.Joins? && run[i].request.id == id && id in At(f, run, i + 1).peers
    requires forall j :: i < j < k && run[j].request.Leaves? ==> run[j].request.id != id
    requires KeepsInTouch(run, i, k, id)
    ensures id in At(f, run, k).peers
  {
    hide Apply, TextsOf;
    if i + 1 < k {
      NeverEvicted(f, run, i, k - 1, id);
      PeersStep(At(f, run, k - 1), run[k - 1].request, TextsOf(f, run[k - 1]), id);
      if run[k - 1].request.Sweeps? {
        EvictionExactly(f, run, k - 1, id);
      }
    }
  }

  lemma {:induction false} LastContactIsLatest(run: seq<Step>, k: nat, c: nat, id: string)
    requires Legal(run) && c < k <= |run| && Contacts(run[c].request, id)
    ensures LastContact(run, k, id) >= run[c].now
  {
    if c < k - 1 && !Contacts(run[k - 1].request, id) {
      LastContactIsLatest(run, k - 1, c, id);
    }
  }

  /** Step `c`, from registration on and before step `j`, was contact at most 19 seconds earlier. */
  predicate RecentContact(run: seq<Step>, i: nat, c: nat, j: nat, id: string) {
    i <= c < j < |run| && Contacts(run[c].request, id) && run[j].now - run[c].now <= 19_000_000_000
  }

  /** At the default timeout, a client heard from within 19 seconds of every sweep outlives them all. */
  lemma HeartbeatsKeepAlive(f: Format, run: seq<Step>, i: nat, k: nat, id: string)
    requires Faithful(f) && Legal(run) && i < k <= |run|
    requires run[i].request.Joins? && run[i].request.id == id && id in At(f, run, i + 1).peers
    requires forall j :: i < j < k && run[j].request.Leaves? ==> run[j].request.id != id
    requires forall j :: i < j < k && run[j].request.Sweeps? ==>
               && (run[j].request.timeout <= 0 || run[j].request.timeout == 20)
               && exists c :: RecentContact(run, i, c, j, id)
    ensures id in At(f, run, k).peers
  {
    hide At;
    forall j | i < j < k && run[j].request.Sweeps?
      ensures run[j].now - LastContact(run, j, id) <=
                ((if run[j].request.timeout <= 0 then 20 else run[j].request.timeout) - 1) * 1_000_000_000
    {
      var c :| RecentContact(run, i, c, j, id);
      LastContactIsLatest(run, j, c, id);
    }
    NeverEvicted(f, run, i, k, id);
  }

  // ---------------------------------------------------------------- delivery verdicts

  ghost predicate EverHeld(f: Format, run: seq<Step>, k: nat, name: string)
    requires k <= |run|
  {
    exists j :: 0 <= j <= k && Held(At(f, run, j).peers, name)
  }

  /** A startup found a stored message addressed to `name`. */
  ghost predicate BackfilledByAddress(f: Format, run: seq<Step>, k: nat, name: string)
    requires k <= |run|
  {
    exists j :: 0 <= j < k && run[j].request.Starts? && Addressed(At(f, run, j), name)
  }

  /** The history holds exactly the names once held and those a startup found messages for. */
  lemma {:induction false} SeenExactly(f: Format, run: seq<Step>, k: nat, name: string)
    requires Legal(run) && k <= |run| && name != ""
    ensures name in At(f, run, k).namesSeen <==> EverHeld(f, run, k, name) || BackfilledByAddress(f, run, k, name)
  {
    hide Apply, TextsOf;
    if k > 0 {
      var t, r, x := At(f, run, k - 1), run[k - 1].request, TextsOf(f, run[k - 1]);
      AlwaysValid(f, run, k - 1);
      SeenExactly(f, run, k - 1, name);
      if r.Joins? && r.id in t.peers {
        LiveWasRegistered(f, run, k - 1, r.id);
      }
      SeenStep(t, r, x, name);
      EverHeldStep(f, run, k, name);
    }
  }

  lemma EverHeldStep(f: Format, run: seq<Step>, k: nat, name: string)
    requires 0 < k <= |run|
    ensures EverHeld(f, run, k, name) <==> EverHeld(f, run, k - 1, name) || Held(At(f, run, k).peers, name)
    ensures BackfilledByAddress(f, run, k, name) <==>
            BackfilledByAddress(f, run, k - 1, name)
            || (run[k - 1].request.Starts? && Addressed(At(f, run, k - 1), name))
  {
    hide Apply, TextsOf;
  }

  /**
   The verdict on a send to an agent. Bound: the stored row names a live session. Otherwise the
   name is free, and the verdict is `queued_unknown` exactly when no session ever held it and
   no startup found a message for it.
   */
  lemma VerdictMatchesHistory(f: Format, run: seq<Step>, i: nat, mid: nat)
    requires Legal(run) && i < |run| && SendAccepted(f, run, i, mid) && run[i].request.msg.toAgent != ""
    ensures var name := run[i].request.msg.toAgent;
            var status := Send(At(f, run, i), run[i].request.msg, f.row(run[i].now)).1.status;
            && mid in At(f, run, i + 1).messages
            && (status == Bound <==> At(f, run, i + 1).messages[mid].toSession in At(f, run, i + 1).peers)
            && (status == Bound <==> Held(At(f, run, i).peers, name))
            && (status == QueuedUnknown <==> !EverHeld(f, run, i, name) && !BackfilledByAddress(f, run, i, name))
  {
    hide Apply, TextsOf;
    var t, r, x := At(f, run, i), run[i].request, TextsOf(f, run[i]);
    AlwaysValid(f, run, i);
    SeenExactly(f, run, i, r.msg.toAgent);
    VerdictStep(t, r, x);
  }

  /** As long as the process has not been restarted, `queued_offline` means some session held the name. */
  lemma OfflineMeansHeld(f: Format, run: seq<Step>, i: nat, mid: nat)
    requires Legal(run) && i < |run| && SendAccepted(f, run, i, mid) && run[i].request.msg.toAgent != ""
    requires forall j :: 0 <= j < i ==> !run[j].request.Starts?
    requires Send(At(f, run, i), run[i].request.msg, f.row(run[i].now)).1.status == QueuedOffline
    ensures EverHeld(f, run, i, run[i].request.msg.toAgent) && !Held(At(f, run, i).peers, run[i].request.msg.toAgent)
  {
    hide Apply, TextsOf;
    VerdictMatchesHistory(f, run, i, mid);
  }

  // ---------------------------------------------------------------- order of answers

  /**
   Any answer lists two messages sent at different instants in the order they were sent exactly
   when their times are text-sortable: always when sent in different whole seconds.
   */
  lemma AnswersInSendOrder(
    f: Format, run: seq<Step>, k: nat, ids: seq<nat>, rows: set<nat>, a: nat, b: nat, i: nat, j: nat)
    requires Faithful(f) && Legal(run) && k <= |run| && OrderedBySentAt(At(f, run, k), ids, rows) && a < b < |ids|
    requires i < |run| && CameFrom(f, run, i, ids[a], At(f, run, k).messages[ids[a]])
    requires j < |run| && CameFrom(f, run, j, ids[b], At(f, run, k).messages[ids[b]])
    requires run[i].now != run[j].now
    ensures i < j <==> TextSortable(run[i].now, run[j].now)
    ensures run[i].now / SECOND != run[j].now / SECOND ==> i < j
  {
    hide At, TextSortable, Faithful;
    RowOrder(f, run[i].now, run[j].now);
    RowOrder(f, run[j].now, run[i].now);
  }

  // ---------------------------------------------------------------- names

  /** A session's name, once set, is its name for as long as it lives. */
  lemma {:induction false} NameKept(f: Format, run: seq<Step>, i: nat, k: nat, id: string)
    requires Legal(run) && i <= k <= |run|
    requires id in At(f, run, i).peers && At(f, run, i).peers[id].agentName != "" && id in At(f, run, k).peers
    ensures At(f, run, k).peers[id].agentName == At(f, run, i).peers[id].agentName
  {
    hide Apply, TextsOf;
    if i < k {
      PeersStep(At(f, run, k - 1), run[k - 1].request, TextsOf(f, run[k - 1]), id);
      LiveWasRegistered(f, run, i, id);
      NameKept(f, run, i, k - 1, id);
      NameStep(At(f, run, k - 1), run[k - 1].request, TextsOf(f, run[k - 1]), id);
    }
  }

  // ---------------------------------------------------------------- sessions as registered

  /** Step `i` is the registration of `id`. */
  predicate Registers(run: seq<Step>, i: nat, id: string) {
    i < |run| && run[i].request.Joins? && run[i].request.id == id
  }

  /** A live session's row carries the machine, the directory and the time of its registration. */
  lemma {:induction false} RowAsRegistered(f: Format, run: seq<Step>, k: nat, id: string)
    requires Legal(run) && k <= |run| && id in At(f, run, k).peers
    ensures exists i: nat :: i < k && Registers(run, i, id)
    ensures forall i: nat :: Registers(run, i, id) ==>
              var p, req := At(f, run, k).peers[id], run[i].request.req;
              p.machine == req.machine && p.cwd == req.cwd && p.startedAt == f.row(run[i].now)
  {
    hide Apply, UniqueNames, AllPlaced;
    if k > 0 {
      AlwaysValid(f, run, k - 1);
      var t, r, x := At(f, run, k - 1), run[k - 1].request, TextsOf(f, run[k - 1]);
      if r.Joins? && r.id in t.peers {
        LiveWasRegistered(f, run, k - 1, r.id);
      }
      RowStep(t, r, x, id);
      if id in t.peers {
        RowAsRegistered(f, run, k - 1, id);
      } else {
        assert Registers(run, k - 1, id);
      }
    }
  }

  /** The holder a refused step is told of, if it is told of one. */
  ghost function ToldHolder(f: Format, run: seq<Step>, k: nat): Option<Conflict>
    requires k < |run|
  {
    var t, r := At(f, run, k), run[k].request;
    if r.Joins? && Register(t, r.req, r.id, f.row(run[k].now)).1.NameHeld?
    then Some(Register(t, r.req, r.id, f.row(run[k].now)).1.holder)
    else if r.Claims? && Claim(t, r.sid, r.name).1.ClaimHeld? then Some(Claim(t, r.sid, r.name).1.holder)
    else None
  }

  /** Whoever is refused a name is told which live session holds it and how that session registered. */
  lemma ConflictTells(f: Format, run: seq<Step>, k: nat)
    requires Legal(run) && k < |run| && ToldHolder(f, run, k).Some?
    ensures var c, t := ToldHolder(f, run, k).value, At(f, run, k);
            var name := if run[k].request.Joins? then run[k].request.req.agentName else run[k].request.name;
            && c.session in t.peers && t.peers[c.session].agentName == name
            && exists i: nat :: i < k && Registers(run, i, c.session) &&
                 c == Conflict(c.session, run[i].request.req.machine, run[i].request.req.cwd, f.row(run[i].now))
  {
    hide At, Legal;
    RowAsRegistered(f, run, k, ToldHolder(f, run, k).value.session);
  }

  // ---------------------------------------------------------------- only the addressee

  /** Messages are bound to sessions that have registered, and a live one has the name its messages go by. */
  ghost predicate BoundRight(f: Format, run: seq<Step>, k: nat, m: Message)
    requires k <= |run|
  {
    && (m.toSession != "" ==> exists i: nat :: i < k && Registers(run, i, m.toSession))
    && (m.toAgent != "" && m.toSession in At(f, run, k).peers ==>
          At(f, run, k).peers[m.toSession].agentName == m.toAgent)
  }

  lemma NewIdIsUnbound(f: Format, run: seq<Step>, k: nat, m: Message)
    requires Legal(run) && k < |run| && run[k].request.Joins? && BoundRight(f, run, k, m)
    ensures m.toSession != run[k].request.id
  {
    hide At;
    assert forall i: nat :: i < k ==> !Registers(run, i, run[k].request.id);
  }

  lemma BoundRightStep(f: Format, run: seq<Step>, k: nat, mid: nat)
    requires Legal(run) && k < |run| && mid in At(f, run, k).messages && mid in At(f, run, k + 1).messages
    requires BoundRight(f, run, k, At(f, run, k).messages[mid])
    ensures BoundRight(f, run, k + 1, At(f, run, k + 1).messages[mid])
  {
    hide Apply, TextsOf, UniqueNames, AllPlaced;
    var t, r, x := At(f, run, k), run[k].request, TextsOf(f, run[k]);
    var m, n := t.messages[mid], At(f, run, k + 1).messages[mid];
    AlwaysValid(f, run, k);
    if r.Joins? {
      if r.id in t.peers {
        LiveWasRegistered(f, run, k, r.id);
      }
      NewIdIsUnbound(f, run, k, m);
    }
    MessageStep(t, r, x, mid);
    RowStep(t, r, x, n.toSession);
    if n.toSession != "" && n.toSession !in t.peers && n.toSession != m.toSession {
      assert Registers(run, k, n.toSession);
    } else if n.toSession in t.peers {
      WasRegistered(f, run, k, n.toSession);
    }
  }

  lemma WasRegistered(f: Format, run: seq<Step>, k: nat, id: string)
    requires k <= |run| && id in At(f, run, k).peers
    ensures exists i: nat :: i < k && Registers(run, i, id)
  {
    hide At;
    LiveWasRegistered(f, run, k, id);
    var i :| 0 <= i < k && run[i].request.Joins? && run[i].request.id == id;
    assert Registers(run, i, id);
  }

  lemma {:induction false} AlwaysBoundRight(f: Format, run: seq<Step>, k: nat, mid: nat)
    requires Legal(run) && k <= |run| && mid in At(f, run, k).messages
    ensures BoundRight(f, run, k, At(f, run, k).messages[mid])
  {
    hide Apply, TextsOf, UniqueNames, AllPlaced;
    if k > 0 {
      var t, r, x := At(f, run, k - 1), run[k - 1].request, TextsOf(f, run[k - 1]);
      NumbersStep(t, r, x, mid);
      if mid in t.messages {
        AlwaysBoundRight(f, run, k - 1, mid);
        BoundRightStep(f, run, k - 1, mid);
      } else {
        AlwaysValid(f, run, k);
        SendStep(t, r, x);
        PlacedWhileUnacked(At(f, run, k), mid);
        if At(f, run, k).messages[mid].toSession in At(f, run, k).peers {
          WasRegistered(f, run, k, At(f, run, k).messages[mid].toSession);
        }
      }
    }
  }

  /** A direct message is bound to the session it was sent to for as long as it is stored. */
  lemma {:induction false} DirectStays(f: Format, run: seq<Step>, i: nat, k: nat, mid: nat)
    requires Legal(run) && i < k <= |run| && SendAccepted(f, run, i, mid) && mid in At(f, run, k).messages
    requires run[i].request.msg.toAgent == ""
    ensures var m := At(f, run, k).messages[mid];
            m.toAgent == "" && m.toSession == run[i].request.msg.toSession != ""
  {
    hide Apply, TextsOf, UniqueNames, AllPlaced;
    if k == i + 1 {
      StoredWithItsSession(f, run, i, mid);
    } else {
      var t, r, x := At(f, run, k - 1), run[k - 1].request, TextsOf(f, run[k - 1]);
      AlwaysValid(f, run, k - 1);
      NumbersStep(At(f, run, i), run[i].request, TextsOf(f, run[i]), mid);
      NumbersOnlyGrow(f, run, i + 1, k - 1, mid);
      NumbersStep(t, r, x, mid);
      DirectStays(f, run, i, k - 1, mid);
      DirectStep(t, r, x, mid);
      ContentStep(t, r, x, mid);
    }
  }

  /**
   When a session polls, each message ever accepted for it has been purged or acked, or dropped when
   the session ended, or this poll returns it, or an earlier poll of the session did.
   */
  lemma SessionGetsEverything(f: Format, run: seq<Step>, i: nat, k: nat, mid: nat)
    requires Faithful(f) && Legal(run) && i < k < |run| && SendAccepted(f, run, i, mid)
    requires run[i].request.msg.toAgent == "" && run[k].request == Polls(run[i].request.msg.toSession)
    ensures var t := At(f, run, k);
            || (exists j :: i < j < k && PurgedProperly(f, run, i, j, mid))
            || (exists j :: i < j < k && DroppedWithSession(f, run, i, j, mid))
            || (mid in t.messages && t.messages[mid].ackAt.Some?)
            || Returned(f, run, k, mid)
            || (exists j :: 0 <= j < k && Returned(f, run, j, mid) && run[j].request.id == run[k].request.id)
  {
    hide At, PurgedProperly, DroppedWithSession;
    DirectMessageFate(f, run, i, k, mid);
    if WithItsSession(f, run, i, k, mid) && Delivered(At(f, run, k), mid) {
      DeliveredWasReturned(f, run, k, mid);
    }
  }

  /**
   A poll or a peek shows a live session only what was sent to it: to its session id, or to the
   name it holds.
   */
  lemma OnlyTheAddressee(f: Format, run: seq<Step>, k: nat, id: string, mid: nat)
    requires Legal(run) && k <= |run| && id in At(f, run, k).peers && mid in Selected(At(f, run, k), id)
    ensures exists i: nat :: i < k && SendAccepted(f, run, i, mid) &&
              var msg := run[i].request.msg;
              if msg.toAgent == "" then msg.toSession == id else msg.toAgent == At(f, run, k).peers[id].agentName
  {
    StoredCameFrom(f, run, k, mid);
    AlwaysBoundRight(f, run, k, mid);
    var i :| 0 <= i < k && CameFrom(f, run, i, mid, At(f, run, k).messages[mid]);
    if run[i].request.msg.toAgent == "" {
      DirectStays(f, run, i, k, mid);
    }
    hide At, SendAccepted;
    assert SendAccepted(f, run, i, mid);
  }
}
