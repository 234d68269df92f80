/**
 The client composed with whole runs of the broker: its pushes, tick by tick, and its recovery
 after an eviction, each of its calls a step of the run with any other requests in between.
 */
module ClientRuns {
  import opened Options
  import opened Timestamps
  import opened Store
  import opened StoreLaws
  import opened StoreSteps
  import opened BrokerCore
  import opened BrokerRuns
  import opened Client

  // ---------------------------------------------------------------- pushes

  /**
   One tick of the push loop, after `at` steps of the broker, under the session id of the moment;
   unanswered if None.
   */
  datatype Tick = Tick(at: nat, session: string, answer: Option<seq<Note>>)

  /** Every answer is one a peek could give at its moment. */
  ghost predicate Answered(f: Format, run: seq<BrokerRuns.Step>, ticks: seq<Tick>) {
    forall n :: 0 <= n < |ticks| ==> AnsweredTick(f, run, ticks[n])
  }

  ghost predicate AnsweredTick(f: Format, run: seq<BrokerRuns.Step>, tick: Tick) {
    && tick.at <= |run|
    && (tick.answer.Some? ==>
          var t := BrokerRuns.At(f, run, tick.at);
          AnswersRows(t, tick.answer.value, Selected(t, tick.session)))
  }

  /** What the first `n` ticks have written to the channel, in order, whatever sessions and rebinds lie between them. */
  function Notes(ticks: seq<Tick>, n: nat): seq<Note>
    requires n <= |ticks|
  {
    if n == 0 then []
    else
      var before := Notes(ticks, n - 1);
      if ticks[n - 1].answer.Some? then PushedOver(before, ticks[n - 1].answer.value) else before
  }

  /** Over all ticks no number is written twice, and what was written stays. */
  lemma {:induction false} NotesDistinct(ticks: seq<Tick>, n: nat, m: nat)
    requires n <= m <= |ticks|
    ensures Distinct(Notes(ticks, m)) && Notes(ticks, n) <= Notes(ticks, m)
  {
    hide Distinct, PushedOver, Told;
    if m == 0 {
      NothingWritten();
    } else {
      NotesDistinct(ticks, if n < m then n else m - 1, m - 1);
      if ticks[m - 1].answer.Some? {
        PushedOverKeeps(Notes(ticks, m - 1), ticks[m - 1].answer.value);
      }
    }
  }

  lemma NothingWritten()
    ensures Distinct([])
  {
  }

  /** A pushed note is an old one or one of the answer. */
  lemma {:induction false} PushedFrom(notes: seq<Note>, answer: seq<Note>, a: nat)
    requires a < |PushedOver(notes, answer)|
    ensures PushedOver(notes, answer)[a] in notes || PushedOver(notes, answer)[a] in answer
    decreases |answer|
  {
    hide Told;
    if answer != [] {
      var init := answer[..|answer| - 1];
      if a < |PushedOver(notes, init)| {
        PushedFrom(notes, init, a);
      }
    }
  }

  /** Everything a notification carries of a message. */
  predicate SameMessage(m: Message, n: Message) {
    && m.toAgent == n.toAgent && m.text == n.text && m.sentAt == n.sentAt
    && m.fromSession == n.fromSession && m.fromAgent == n.fromAgent
  }

  /** Whatever was written under a number is what one accepted send stored under it. */
  lemma {:induction false} NoteCameFrom(f: Format, run: seq<BrokerRuns.Step>, ticks: seq<Tick>, n: nat, note: Note)
    requires Legal(run) && Answered(f, run, ticks) && n <= |ticks| && note in Notes(ticks, n)
    ensures exists j :: 0 <= j < |run| && CameFrom(f, run, j, note.0, note.1)
  {
    hide BrokerRuns.At, CameFrom, Legal, PushedOver, OrderedBySentAt;
    if n > 0 {
      var tick := ticks[n - 1];
      if note in Notes(ticks, n - 1) {
        NoteCameFrom(f, run, ticks, n - 1, note);
      } else {
        var a :| 0 <= a < |Notes(ticks, n)| && Notes(ticks, n)[a] == note;
        PushedFrom(Notes(ticks, n - 1), tick.answer.value, a);
        assert AnsweredTick(f, run, tick);
        StoredCameFrom(f, run, tick.at, note.0);
      }
    }
  }

  /** Two messages that came from accepted sends under one number are one message. */
  lemma OneMessagePerNumber(f: Format, run: seq<BrokerRuns.Step>, i: nat, j: nat, mid: nat, m: Message, n: Message)
    requires i < |run| && j < |run| && CameFrom(f, run, i, mid, m) && CameFrom(f, run, j, mid, n)
    ensures SameMessage(m, n)
  {
    hide BrokerRuns.At, SendAccepted;
    if i < j {
      SendNumbersDiffer(f, run, i, j, mid, mid);
    } else if j < i {
      SendNumbersDiffer(f, run, j, i, mid, mid);
    }
  }

  /**
   A pushed number denotes the message written under it for ever: whenever the table holds a
   message of that number, before the push or after it, it is the one that was written.
   */
  lemma PushedStaysTheMessage(f: Format, run: seq<BrokerRuns.Step>, ticks: seq<Tick>, n: nat, note: Note, k: nat)
    requires Legal(run) && Answered(f, run, ticks) && n <= |ticks| && k <= |run|
    requires note in Notes(ticks, n) && note.0 in BrokerRuns.At(f, run, k).messages
    ensures SameMessage(note.1, BrokerRuns.At(f, run, k).messages[note.0])
  {
    hide BrokerRuns.At, CameFrom, Notes, SameMessage, Answered;
    NoteCameFrom(f, run, ticks, n, note);
    StoredCameFrom(f, run, k, note.0);
    var i :| 0 <= i < |run| && CameFrom(f, run, i, note.0, note.1);
    var j :| 0 <= j < k && CameFrom(f, run, j, note.0, BrokerRuns.At(f, run, k).messages[note.0]);
    OneMessagePerNumber(f, run, i, j, note.0, note.1, BrokerRuns.At(f, run, k).messages[note.0]);
  }

  /** No accepted send is pushed twice, whatever requeues and rebinds it goes through. */
  lemma EachSendPushedOnce(f: Format, run: seq<BrokerRuns.Step>, ticks: seq<Tick>, n: nat, a: nat, b: nat, j: nat)
    requires n <= |ticks| && a < b < |Notes(ticks, n)| && j < |run|
    requires CameFrom(f, run, j, Notes(ticks, n)[a].0, Notes(ticks, n)[a].1)
    ensures !CameFrom(f, run, j, Notes(ticks, n)[b].0, Notes(ticks, n)[b].1)
  {
    hide BrokerRuns.At, Notes;
    NotesDistinct(ticks, n, n);
  }

  /** After an answered tick every peekable message, and not just its number, has been written. */
  lemma NoneSkipped(f: Format, run: seq<BrokerRuns.Step>, ticks: seq<Tick>, n: nat, mid: nat)
    requires Legal(run) && Answered(f, run, ticks) && n < |ticks| && ticks[n].answer.Some?
    requires mid in Selected(BrokerRuns.At(f, run, ticks[n].at), ticks[n].session)
    ensures exists note :: note in Notes(ticks, n + 1) && note.0 == mid
              && SameMessage(note.1, BrokerRuns.At(f, run, ticks[n].at).messages[mid])
  {
    hide BrokerRuns.At, SameMessage, PushedOver, AnswersRows;
    var t := BrokerRuns.At(f, run, ticks[n].at);
    assert AnsweredTick(f, run, ticks[n]);
    ToldInAnswer(t, ticks[n].answer.value, Selected(t, ticks[n].session));
    NotesDistinct(ticks, n, n);
    PushedOverKeeps(Notes(ticks, n), ticks[n].answer.value);
    var notes := Notes(ticks, n + 1);
    assert mid in Told(notes);
    var a :| 0 <= a < |notes| && Numbers(notes)[a] == mid;
    PushedStaysTheMessage(f, run, ticks, n + 1, notes[a], ticks[n].at);
  }

  // ---------------------------------------------------------------- recovery after an eviction

  /** The steps of one recovery: the heartbeat that found its session gone, and the registrations after it. */
  datatype Recovery = Recovery(beat: nat, first: nat, second: nat)

  /** The configured name is held when the first registration is served. */
  ghost predicate Refused(f: Format, run: seq<BrokerRuns.Step>, name: string, r: Recovery)
    requires r.first < |run|
  {
    name != "" && Held(BrokerRuns.At(f, run, r.first).peers, name)
  }

  /** The step whose registration is accepted. */
  ghost function Accepting(f: Format, run: seq<BrokerRuns.Step>, name: string, r: Recovery): nat
    requires r.first < |run|
  {
    if Refused(f, run, name, r) then r.second else r.first
  }

  /** The client's calls, in this order, with any steps of others between them. */
  ghost predicate Recovers(f: Format, run: seq<BrokerRuns.Step>, req: RegisterRequest, evicted: string, r: Recovery) {
    && r.beat < r.first < |run|
    && run[r.beat].request == Beats(evicted) && evicted !in BrokerRuns.At(f, run, r.beat).peers
    && run[r.first].request.Joins? && run[r.first].request.req == req
    && (Refused(f, run, req.agentName, r) ==>
          r.first < r.second < |run|
          && run[r.second].request.Joins? && run[r.second].request.req == req.(agentName := ""))
  }

  /**
   Recovery with other requests served between the calls: the client's new session id was never
   used before and is live. If its name was free it holds the name, keeps it for as long as it
   lives, and whenever it peeks it is shown every undelivered message for the name; if the name
   was held, it is live without a name.
   */
  lemma RecoversInRuns(f: Format, run: seq<BrokerRuns.Step>, req: RegisterRequest, evicted: string, r: Recovery, k: nat)
    requires Legal(run) && Recovers(f, run, req, evicted, r) && Accepting(f, run, req.agentName, r) < k <= |run|
    ensures var s := Accepting(f, run, req.agentName, r);
            var id := run[s].request.id;
            && (forall j :: 0 <= j <= s ==> id !in BrokerRuns.At(f, run, j).peers)
            && id in BrokerRuns.At(f, run, s + 1).peers
            && BrokerRuns.At(f, run, s + 1).peers[id].agentName
               == (if Refused(f, run, req.agentName, r) then "" else req.agentName)
            && (!Refused(f, run, req.agentName, r) && req.agentName != "" && id in BrokerRuns.At(f, run, k).peers ==>
                  var t := BrokerRuns.At(f, run, k);
                  t.peers[id].agentName == req.agentName && Owed(t, req.agentName) <= Selected(t, id))
  {
    hide BrokerRuns.At, Legal;
    var s := Accepting(f, run, req.agentName, r);
    var id := run[s].request.id;
    forall j | 0 <= j <= s ensures id !in BrokerRuns.At(f, run, j).peers {
      NewIds(f, run, s, j);
    }
    JoinsFreely(f, run, s);
    if !Refused(f, run, req.agentName, r) && req.agentName != "" && id in BrokerRuns.At(f, run, k).peers {
      NameKept(f, run, s + 1, k, id);
      HolderSelectsAllOwed(BrokerRuns.At(f, run, k), id, req.agentName);
    }
  }

  /** A drawn id is in no earlier table. */
  lemma NewIds(f: Format, run: seq<BrokerRuns.Step>, s: nat, j: nat)
    requires Legal(run) && j <= s < |run| && run[s].request.Joins?
    ensures run[s].request.id !in BrokerRuns.At(f, run, j).peers
  {
    hide BrokerRuns.At;
    if run[s].request.id in BrokerRuns.At(f, run, j).peers {
      LiveWasRegistered(f, run, j, run[s].request.id);
    }
  }

  /** A registration under a free name, or none, makes its session live under it. */
  lemma JoinsFreely(f: Format, run: seq<BrokerRuns.Step>, s: nat)
    requires Legal(run) && s < |run| && run[s].request.Joins?
    requires run[s].request.req.agentName == "" || !Held(BrokerRuns.At(f, run, s).peers, run[s].request.req.agentName)
    ensures var id, after := run[s].request.id, BrokerRuns.At(f, run, s + 1).peers;
            id in after && after[id].agentName == run[s].request.req.agentName
  {
    NewIds(f, run, s, s);
    RegisteredIsLive(BrokerRuns.At(f, run, s), run[s].request.req, run[s].request.id, f.row(run[s].now));
  }
}
