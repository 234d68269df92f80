/**
 The sliding-window rate limiter: per address a log of accepted times, compacted in place on
 every request, against the log that is never pruned.
 */
module RateLimiter {

  // ---------------------------------------------------------------- logs

  /** The times after `cutoff`, in order. */
  function Recent(ts: seq<int>, cutoff: int): (r: seq<int>)
    ensures |r| <= |ts|
  {
    if ts == [] then []
    else Recent(ts[..|ts| - 1], cutoff) + (if ts[|ts| - 1] > cutoff then [ts[|ts| - 1]] else [])
  }

  /** How many times lie in the interval from `lo`, excluded, to `hi`, included. */
  function InWindow(ts: seq<int>, lo: int, hi: int): (n: nat)
    ensures n <= |ts|
  {
    if ts == [] then 0
    else InWindow(ts[..|ts| - 1], lo, hi) + (if lo < ts[|ts| - 1] <= hi then 1 else 0)
  }

  lemma RecentAppend(ts: seq<int>, t: int, cutoff: int)
    ensures Recent(ts + [t], cutoff) == Recent(ts, cutoff) + (if t > cutoff then [t] else [])
  {
    assert (ts + [t])[..|ts|] == ts;
  }

  lemma {:induction false} RecentTwice(ts: seq<int>, early: int, late: int)
    requires early <= late
    ensures Recent(Recent(ts, early), late) == Recent(ts, late)
  {
    if ts != [] {
      var init, t := ts[..|ts| - 1], ts[|ts| - 1];
      RecentTwice(init, early, late);
      if t > early {
        RecentAppend(Recent(init, early), t, late);
      } else {
        assert Recent(init, early) + [] == Recent(init, early);
      }
    }
  }

  lemma {:induction false} RecentCounts(ts: seq<int>, cutoff: int, now: int)
    requires forall i :: 0 <= i < |ts| ==> ts[i] <= now
    ensures |Recent(ts, cutoff)| == InWindow(ts, cutoff, now)
  {
    if ts != [] {
      RecentCounts(ts[..|ts| - 1], cutoff, now);
    }
  }

  lemma {:induction false} WindowWidens(ts: seq<int>, lo: int, hi: int, lo': int, hi': int)
    requires lo' <= lo && (forall i :: 0 <= i < |ts| ==> ts[i] <= hi')
    ensures InWindow(ts, lo, hi) <= InWindow(ts, lo', hi')
  {
    if ts != [] {
      WindowWidens(ts[..|ts| - 1], lo, hi, lo', hi');
    }
  }

  lemma WindowAppend(ts: seq<int>, t: int, lo: int, hi: int)
    ensures InWindow(ts + [t], lo, hi) == InWindow(ts, lo, hi) + (if lo < t <= hi then 1 else 0)
  {
    assert (ts + [t])[..|ts|] == ts;
  }

  // ---------------------------------------------------------------- the stored logs

  datatype Config = Config(limit: int, window: nat)

  type Logs = map<string, seq<int>>

  function LogOf(logs: Logs, ip: string): seq<int> {
    if ip in logs then logs[ip] else []
  }

  function AllowLog(c: Config, logs: Logs, ip: string, now: int): (Logs, bool) {
    var valid := Recent(LogOf(logs, ip), now - c.window);
    if |valid| >= c.limit then (logs[ip := valid], false) else (logs[ip := valid + [now]], true)
  }

  function CleanLogs(c: Config, logs: Logs, now: int): Logs {
    map ip | ip in logs && Recent(logs[ip], now - c.window) != [] :: Recent(logs[ip], now - c.window)
  }

  // ---------------------------------------------------------------- the limiter object

  /** A slice: the first `len` cells of its backing array. */
  datatype Slice = Slice(data: array<int>, len: nat)

  ghost predicate SliceHolds(s: Slice, log: seq<int>)
    reads s.data
  {
    s.len <= s.data.Length && s.data[..s.len] == log
  }

  class Limiter {
    const config: Config
    var windows: map<string, Slice>
    ghost var logs: Logs  // what the slices hold
    ghost var owner: map<array<int>, string>  // whose log a backing array may hold

    ghost predicate Valid()
      reads this, owner.Keys
    {
      && logs.Keys == windows.Keys
      && (forall ip :: ip in windows ==> windows[ip].data in owner && owner[windows[ip].data] == ip)
      && (forall ip :: ip in windows ==> SliceHolds(windows[ip], logs[ip]))
    }

    /** Valid but for what the slice of `ip` holds. */
    ghost predicate ValidBut(ip: string)
      reads this, owner.Keys
    {
      && logs.Keys == windows.Keys
      && (forall other :: other in windows ==> windows[other].data in owner && owner[windows[other].data] == other)
      && (forall other :: other in windows && other != ip ==> SliceHolds(windows[other], logs[other]))
    }

    /** Stores a slice of an array owned by `ip` as its log. */
    method Put(ip: string, s: Slice, ghost log: seq<int>)
      requires ValidBut(ip) && s.data in owner && owner[s.data] == ip && SliceHolds(s, log)
      modifies `windows, `logs
      ensures Valid() && ip in windows && windows[ip] == s && logs == old(logs)[ip := log]
    {
      windows, logs := windows[ip := s], logs[ip := log];
    }

    constructor (limit: int, window: nat)
      ensures Valid() && logs == map[] && config == Config(limit, window) && owner == map[]
    {
      config := Config(limit, window);
      windows, logs, owner := map[], map[], map[];
    }

    /** Keeps the times after `cutoff` at the front of the same array; returns how many. */
    static method Compact(data: array<int>, len: nat, cutoff: int) returns (kept: nat)
      requires len <= data.Length
      modifies data
      ensures kept <= len
      ensures data[..kept] == Recent(old(data[..len]), cutoff)
    {
      ghost var was := data[..len];
      kept := 0;
      var i := 0;
      while i < len
        invariant 0 <= kept <= i <= len
        invariant data[i..len] == was[i..]
        invariant data[..kept] == Recent(was[..i], cutoff)
      {
        var t := data[i];
        assert t == data[i..len][0] == was[i];
        assert was[..i + 1][..i] == was[..i];
        assert data[i + 1..len] == was[i + 1..] by { assert data[i + 1..len] == data[i..len][1..]; }
        if t > cutoff {
          data[kept] := t;
          kept := kept + 1;
        }
        i := i + 1;
      }
      assert was[..len] == was;
    }

    /** `append` on the first `len` cells: in place while there is room, else into a larger array. */
    static method Append(data: array<int>, len: nat, t: int) returns (s: Slice)
      requires len <= data.Length
      modifies data
      ensures s.len == len + 1 <= s.data.Length
      ensures s.data == data || fresh(s.data)
      ensures s.data[..s.len] == old(data[..len]) + [t]
    {
      if len < data.Length {
        data[len] := t;
        s := Slice(data, len + 1);
      } else {
        var larger := new int[2 * len + 1](_ => 0);
        forall k | 0 <= k < len {
          larger[k] := data[k];
        }
        larger[len] := t;
        assert larger[..len] == data[..len];
        s := Slice(larger, len + 1);
      }
    }

    /** Compacts the log of `ip`; no other log is touched. */
    method CompactLog(ip: string, cutoff: int)
      requires Valid() && ip in windows
      modifies this, windows[ip].data
      ensures Valid() && owner == old(owner) && ip in windows && windows[ip].data == old(windows[ip].data)
      ensures logs == old(logs)[ip := Recent(old(logs)[ip], cutoff)]
    {
      hide Recent;
      var ts := windows[ip];
      var kept := Compact(ts.data, ts.len, cutoff);
      Put(ip, Slice(ts.data, kept), Recent(logs[ip], cutoff));
    }

    method Delete(ip: string)
      requires Valid()
      modifies `windows, `logs
      ensures Valid() && logs == old(logs) - {ip}
    {
      windows, logs := windows - {ip}, logs - {ip};
    }

    /** Appends to the log of `ip`. */
    method AppendTo(ip: string, now: int)
      requires Valid() && ip in windows
      modifies this, windows[ip].data
      ensures Valid() && fresh(owner.Keys - old(owner.Keys))
      ensures logs == old(logs)[ip := old(logs)[ip] + [now]]
    {
      var ts := windows[ip];
      var grown := Append(ts.data, ts.len, now);
      owner := owner[grown.data := ip];
      Put(ip, grown, logs[ip] + [now]);
    }

    /** The log of `ip`, an empty one if there is none yet. */
    method Open(ip: string)
      requires Valid()
      modifies this
      ensures Valid() && ip in windows && owner.Keys >= old(owner.Keys) && fresh(owner.Keys - old(owner.Keys))
      ensures logs == old(logs)[ip := LogOf(old(logs), ip)]
    {
      if ip !in windows {
        var empty := new int[0];
        windows, logs, owner := windows[ip := Slice(empty, 0)], logs[ip := []], owner[empty := ip];
      }
    }

    /** Prunes the log of `ip`, opening it first. */
    method Prune(ip: string, cutoff: int)
      requires Valid()
      modifies this, owner.Keys
      ensures Valid() && ip in windows && fresh(owner.Keys - old(owner.Keys))
      ensures logs == old(logs)[ip := Recent(LogOf(old(logs), ip), cutoff)]
    {
      hide Recent, SliceHolds;
      Open(ip);
      CompactLog(ip, cutoff);
    }

    method Allow(ip: string, now: int) returns (ok: bool)
      requires Valid()
      modifies this, owner.Keys
      ensures Valid() && fresh(owner.Keys - old(owner.Keys))
      ensures logs == AllowLog(config, old(logs), ip, now).0 && ok == AllowLog(config, old(logs), ip, now).1
    {
      hide Recent, SliceHolds, LogOf;
      ghost var valid := Recent(LogOf(logs, ip), now - config.window);
      Prune(ip, now - config.window);
      ok := Length(ip) < config.limit;
      if ok {
        AppendTo(ip, now);
        Overwrite(old(logs), ip, valid, valid + [now]);
      }
    }

    function Length(ip: string): (n: nat)
      requires Valid() && ip in windows
      reads this, owner.Keys
      ensures n == |logs[ip]|
    {
      windows[ip].len
    }

    /** The body of the cleanup loop. */
    method CompactOrDelete(ip: string, cutoff: int)
      requires Valid() && ip in windows
      modifies this, windows[ip].data
      ensures Valid() && owner == old(owner)
      ensures var recent := Recent(old(logs)[ip], cutoff);
              logs == if recent == [] then old(logs) - {ip} else old(logs)[ip := recent]
    {
      hide Recent, SliceHolds;
      CompactLog(ip, cutoff);
      if Length(ip) == 0 {
        Delete(ip);
      }
    }

    /** One round of the minute tick: compacts every log and deletes the empty ones. */
    method Cleanup(now: int)
      requires Valid()
      modifies this, owner.Keys
      ensures Valid() && owner == old(owner)
      ensures logs == CleanLogs(config, old(logs), now)
    {
      hide Recent, SliceHolds;
      var cutoff := now - config.window;
      var left := windows.Keys;
      PartlyEnds(logs, config, now);
      while left != {}
        invariant Valid() && owner == old(owner) && left <= windows.Keys && left <= old(logs).Keys
        invariant logs == Partly(old(logs), left, cutoff)
        decreases left
      {
        var ip :| ip in left;
        PartlyStep(old(logs), left, ip, cutoff);
        CompactOrDelete(ip, cutoff);
        left := left - {ip};
      }
    }
  }

  lemma Overwrite(logs: Logs, ip: string, a: seq<int>, b: seq<int>)
    ensures logs[ip := a][ip := b] == logs[ip := b]
  {
  }

  /** Logs with all but the addresses in `left` compacted and, where empty, deleted. */
  function Partly(logs: Logs, left: set<string>, cutoff: int): Logs {
    map ip | ip in logs && (ip in left || Recent(logs[ip], cutoff) != []) ::
      if ip in left then logs[ip] else Recent(logs[ip], cutoff)
  }

  lemma PartlyStep(logs: Logs, left: set<string>, ip: string, cutoff: int)
    requires ip in left && left <= logs.Keys
    ensures ip in Partly(logs, left, cutoff) && Partly(logs, left, cutoff)[ip] == logs[ip]
    ensures var compacted := Partly(logs, left, cutoff)[ip := Recent(logs[ip], cutoff)];
            Partly(logs, left - {ip}, cutoff) ==
              if Recent(logs[ip], cutoff) == [] then Partly(logs, left, cutoff) - {ip} else compacted
  {
    hide Recent;
  }

  lemma PartlyEnds(logs: Logs, c: Config, now: int)
    ensures Partly(logs, logs.Keys, now - c.window) == logs
    ensures Partly(logs, {}, now - c.window) == CleanLogs(c, logs, now)
  {
    hide Recent;
  }

  // ---------------------------------------------------------------- runs

  datatype Call = Request(ip: string, now: int) | Tick(now: int)

  /** The calls that read or write the log of `ip`. */
  predicate Touches(call: Call, ip: string) {
    call.Tick? || call.ip == ip
  }

  /** No call before the `k`th that touched the log of `ip` had read a clock later than `now`. */
  predicate NoneLater(calls: seq<Call>, k: nat, ip: string, now: int)
    requires k <= |calls|
  {
    forall i :: 0 <= i < k && Touches(calls[i], ip) ==> calls[i].now <= now
  }

  /** Every request of `ip` is served in the order of readings among the calls that touch its log. */
  predicate Ordered(calls: seq<Call>, ip: string) {
    forall k :: 0 <= k < |calls| && calls[k].Request? && calls[k].ip == ip ==> NoneLater(calls, k, ip, calls[k].now)
  }

  function Next(c: Config, logs: Logs, call: Call): Logs {
    match call
    case Request(ip, now) => AllowLog(c, logs, ip, now).0
    case Tick(now) => CleanLogs(c, logs, now)
  }

  function After(c: Config, calls: seq<Call>, k: nat): Logs
    requires k <= |calls|
  {
    if k == 0 then map[] else Next(c, After(c, calls, k - 1), calls[k - 1])
  }

  /** The limiter's answer to request `k`. */
  function Answer(c: Config, calls: seq<Call>, k: nat): bool
    requires k < |calls| && calls[k].Request?
  {
    AllowLog(c, After(c, calls, k), calls[k].ip, calls[k].now).1
  }

  /** The times of the accepted requests of `ip` among the first `k` calls: the log never pruned. */
  function Accepted(c: Config, calls: seq<Call>, k: nat, ip: string): seq<int>
    requires k <= |calls|
  {
    if k == 0 then []
    else
      var before := Accepted(c, calls, k - 1, ip);
      if calls[k - 1].Request? && calls[k - 1].ip == ip && Answer(c, calls, k - 1)
      then before + [calls[k - 1].now] else before
  }

  lemma {:induction false} AcceptedInThePast(c: Config, calls: seq<Call>, k: nat, ip: string, now: int)
    requires k <= |calls| && NoneLater(calls, k, ip, now)
    ensures forall i :: 0 <= i < |Accepted(c, calls, k, ip)| ==> Accepted(c, calls, k, ip)[i] <= now
  {
    if k > 0 {
      AcceptedInThePast(c, calls, k - 1, ip, now);
    }
  }

  /** What one call leaves of the log of `ip`, a deleted log being an empty one. */
  lemma LogStep(c: Config, logs: Logs, call: Call, ip: string)
    ensures var was, log := LogOf(logs, ip), LogOf(Next(c, logs, call), ip);
            if call.Request? && call.ip != ip then log == was
            else log == Recent(was, call.now - c.window) +
                        (if call.Request? && AllowLog(c, logs, ip, call.now).1 then [call.now] else [])
  {
    hide Recent;
  }

  lemma AcceptedStep(c: Config, calls: seq<Call>, k: nat, ip: string)
    requires 0 < k <= |calls|
    ensures After(c, calls, k) == Next(c, After(c, calls, k - 1), calls[k - 1])
    ensures Accepted(c, calls, k, ip) == Accepted(c, calls, k - 1, ip) +
              (if calls[k - 1].Request? && calls[k - 1].ip == ip
                  && AllowLog(c, After(c, calls, k - 1), ip, calls[k - 1].now).1
               then [calls[k - 1].now] else [])
  {
    hide Next, AllowLog;
  }

  lemma SeesAllStep(was: seq<int>, all: seq<int>, limit: int, cutoff: int, tail: seq<int>)
    requires limit <= cutoff && Recent(was, cutoff) == Recent(all, cutoff) && |tail| <= 1
    ensures Recent(Recent(was, limit) + tail, cutoff) == Recent(all + tail, cutoff)
  {
    hide Recent;
    RecentTwice(was, limit, cutoff);
    if tail == [] {
      assert Recent(was, limit) + tail == Recent(was, limit) && all + tail == all;
    } else {
      assert tail == [tail[0]];
      RecentAppend(Recent(was, limit), tail[0], cutoff);
      RecentAppend(all, tail[0], cutoff);
    }
  }

  lemma StoredStep(c: Config, calls: seq<Call>, k: nat, ip: string, cutoff: int)
    requires 0 < k <= |calls| && (Touches(calls[k - 1], ip) ==> calls[k - 1].now - c.window <= cutoff)
    requires Recent(LogOf(After(c, calls, k - 1), ip), cutoff) == Recent(Accepted(c, calls, k - 1, ip), cutoff)
    ensures Recent(LogOf(After(c, calls, k), ip), cutoff) == Recent(Accepted(c, calls, k, ip), cutoff)
  {
    hide Next, After, Accepted, AllowLog, LogOf, Recent;
    var logs, call, all := After(c, calls, k - 1), calls[k - 1], Accepted(c, calls, k - 1, ip);
    AcceptedStep(c, calls, k, ip);
    LogStep(c, logs, call, ip);
    if call.Request? && call.ip != ip {
      assert all + [] == all;
    } else {
      SeesAllStep(LogOf(logs, ip), all, call.now - c.window, cutoff,
                  if call.Request? && AllowLog(c, logs, ip, call.now).1 then [call.now] else []);
    }
  }

  /** Stored and full log agree on everything after a cutoff that no touching call has gone beyond. */
  lemma {:induction false} StoredSeesAll(c: Config, calls: seq<Call>, k: nat, ip: string, cutoff: int)
    requires k <= |calls| && NoneLater(calls, k, ip, cutoff + c.window)
    ensures Recent(LogOf(After(c, calls, k), ip), cutoff) == Recent(Accepted(c, calls, k, ip), cutoff)
  {
    hide Next, AllowLog, Recent;
    if k > 0 {
      StoredSeesAll(c, calls, k - 1, ip, cutoff);
      StoredStep(c, calls, k, ip, cutoff);
    }
  }

  /**
   A request served behind no later reading is allowed exactly when fewer than `limit` requests
   of its address were accepted in the window that ends now, as if nothing had ever been pruned
   or deleted.
   */
  lemma AnswersAsTheFullLog(c: Config, calls: seq<Call>, k: nat)
    requires k < |calls| && calls[k].Request? && NoneLater(calls, k, calls[k].ip, calls[k].now)
    ensures Answer(c, calls, k) <==>
            InWindow(Accepted(c, calls, k, calls[k].ip), calls[k].now - c.window, calls[k].now) < c.limit
  {
    hide After, Accepted, Recent, InWindow;
    var ip, now := calls[k].ip, calls[k].now;
    StoredSeesAll(c, calls, k, ip, now - c.window);
    AcceptedInThePast(c, calls, k, ip, now);
    RecentCounts(Accepted(c, calls, k, ip), now - c.window, now);
  }

  lemma NoneInWindow(lo: int, hi: int)
    ensures InWindow([], lo, hi) == 0
  {
  }

  /** Every window of the configured length, wherever it starts, holds at most `limit` accepted requests. */
  lemma {:induction false} SlidingBound(c: Config, calls: seq<Call>, k: nat, ip: string, x: int)
    requires Ordered(calls, ip) && k <= |calls|
    ensures InWindow(Accepted(c, calls, k, ip), x, x + c.window) <= if c.limit < 0 then 0 else c.limit
  {
    hide After, Answer, InWindow;
    if k == 0 {
      NoneInWindow(x, x + c.window);
    } else {
      SlidingBound(c, calls, k - 1, ip, x);
      var now := calls[k - 1].now;
      if calls[k - 1].Request? && calls[k - 1].ip == ip && Answer(c, calls, k - 1) {
        var before := Accepted(c, calls, k - 1, ip);
        WindowAppend(before, now, x, x + c.window);
        if x < now <= x + c.window {
          AnswersAsTheFullLog(c, calls, k - 1);
          AcceptedInThePast(c, calls, k - 1, ip, now);
          WindowWidens(before, x, x + c.window, now - c.window, now);
        }
      }
    }
  }

  /** `calls` with a tick inserted before call `p`. */
  function WithTick(calls: seq<Call>, p: nat, now: int): seq<Call>
    requires p <= |calls|
  {
    calls[..p] + [Tick(now)] + calls[p..]
  }

  lemma AcceptedAcrossTick(c: Config, calls: seq<Call>, p: nat, ip: string)
    requires p < |calls| && calls[p].Tick?
    ensures Accepted(c, calls, p + 1, ip) == Accepted(c, calls, p, ip)
  {
  }

  lemma {:induction false} SameAccepted(c: Config, calls: seq<Call>, p: nat, now: int, k: nat, ip: string)
    requires p <= |calls| && k <= |calls| && Ordered(calls, ip) && Ordered(WithTick(calls, p, now), ip)
    ensures Accepted(c, WithTick(calls, p, now), if k <= p then k else k + 1, ip) == Accepted(c, calls, k, ip)
    decreases k, 0
  {
    hide After, Answer;
    var ticked := WithTick(calls, p, now);
    if k > 0 {
      SameAccepted(c, calls, p, now, k - 1, ip);
      assert calls[k - 1] == ticked[if k - 1 < p then k - 1 else k];
      if calls[k - 1].Request? && calls[k - 1].ip == ip {
        TicksChangeNoAnswer(c, calls, p, now, k - 1);
      }
      if k == p + 1 {
        AcceptedAcrossTick(c, ticked, p, ip);
      }
    }
  }

  /** A cleanup run inserted anywhere changes no answer. */
  lemma {:induction false} TicksChangeNoAnswer(c: Config, calls: seq<Call>, p: nat, now: int, k: nat)
    requires p <= |calls| && k < |calls| && calls[k].Request?
    requires Ordered(calls, calls[k].ip) && Ordered(WithTick(calls, p, now), calls[k].ip)
    ensures Answer(c, WithTick(calls, p, now), if k < p then k else k + 1) == Answer(c, calls, k)
    decreases k, 1
  {
    hide After, Answer, Accepted, InWindow;
    var ticked := WithTick(calls, p, now);
    var k' := if k < p then k else k + 1;
    assert ticked[k'] == calls[k];
    SameAccepted(c, calls, p, now, k, calls[k].ip);
    if k == p {
      AcceptedAcrossTick(c, ticked, p, calls[k].ip);
    }
    AnswersAsTheFullLog(c, calls, k);
    AnswersAsTheFullLog(c, ticked, k');
  }

  // ---------------------------------------------------------------- what is kept

  lemma {:induction false} RecentIsRecent(ts: seq<int>, cutoff: int)
    ensures forall i :: 0 <= i < |Recent(ts, cutoff)| ==> Recent(ts, cutoff)[i] > cutoff
  {
    if ts != [] {
      RecentIsRecent(ts[..|ts| - 1], cutoff);
    }
  }

  /** A cleanup leaves no empty log and no time outside the window that ends at its reading. */
  lemma CleanupLeavesRecent(c: Config, logs: Logs, now: int, ip: string)
    requires ip in CleanLogs(c, logs, now)
    ensures var log := CleanLogs(c, logs, now)[ip];
            log != [] && forall i :: 0 <= i < |log| ==> log[i] > now - c.window
  {
    RecentIsRecent(logs[ip], now - c.window);
  }

  /** No stored log is ever longer than the limit. */
  lemma {:induction false} LogsStayShort(c: Config, calls: seq<Call>, k: nat, ip: string)
    requires k <= |calls|
    ensures |LogOf(After(c, calls, k), ip)| <= if c.limit < 0 then 0 else c.limit
  {
    hide After, Recent, Next, Accepted, LogOf;
    if k == 0 {
      StartEmpty(c, calls, ip);
    } else {
      LogsStayShort(c, calls, k - 1, ip);
      AcceptedStep(c, calls, k, ip);
      LogStep(c, After(c, calls, k - 1), calls[k - 1], ip);
    }
  }

  // ---------------------------------------------------------------- readings served out of order

  /** `second`, served after `first` touched the log of `ip`, is a request of `ip` with an earlier reading. */
  predicate OutOfOrder(first: Call, second: Call, ip: string) {
    Touches(first, ip) && second.Request? && second.ip == ip && first.now > second.now
  }

  /** Only a request that read `r`, served after a call that had read `late`, may be out of order. */
  predicate OnlyLate(calls: seq<Call>, ip: string, late: int, r: int) {
    forall i, k :: 0 <= i < k < |calls| && OutOfOrder(calls[i], calls[k], ip) ==>
      calls[i].now == late && calls[k].now == r
  }

  /** The window that starts at `x` holds at most `limit` accepted requests of `ip`. */
  predicate WithinLimit(c: Config, calls: seq<Call>, ip: string, x: int) {
    InWindow(Accepted(c, calls, |calls|, ip), x, x + c.window) <= if c.limit < 0 then 0 else c.limit
  }

  ghost predicate Bounded(c: Config, calls: seq<Call>, ip: string) {
    forall x :: WithinLimit(c, calls, ip, x)
  }

  function Burst(ip: string, e: int, n: nat): (calls: seq<Call>)
    ensures |calls| == n && forall i :: 0 <= i < n ==> calls[i] == Request(ip, e)
  {
    seq(n, i => Request(ip, e))
  }

  function Times(e: int, n: nat): seq<int> {
    seq(n, i => e)
  }

  lemma TimesGrow(e: int, n: nat)
    ensures Times(e, n) + [e] == Times(e, n + 1)
  {
  }

  lemma RecentOfNone(cutoff: int)
    ensures Recent([], cutoff) == []
  {
  }

  lemma {:induction false} TimesRecent(e: int, n: nat, cutoff: int)
    ensures Recent(Times(e, n), cutoff) == if e > cutoff then Times(e, n) else []
  {
    if n > 0 {
      TimesRecent(e, n - 1, cutoff);
      TimesGrow(e, n - 1);
      RecentAppend(Times(e, n - 1), e, cutoff);
    }
  }

  lemma {:induction false} TimesInWindow(e: int, n: nat, lo: int, hi: int)
    requires lo < e <= hi
    ensures InWindow(Times(e, n), lo, hi) == n
  {
    if n > 0 {
      TimesInWindow(e, n - 1, lo, hi);
      TimesGrow(e, n - 1);
      WindowAppend(Times(e, n - 1), e, lo, hi);
    }
  }

  /** A burst at one instant is accepted up to the limit, and stored as accepted. */
  lemma {:induction false} BurstAccepted(c: Config, calls: seq<Call>, ip: string, e: int, n: nat)
    requires (c.window > 0 || n <= 1) && n <= c.limit && n <= |calls| && calls[..n] == Burst(ip, e, n)
    ensures LogOf(After(c, calls, n), ip) == Accepted(c, calls, n, ip) == Times(e, n)
  {
    hide Recent, After, Accepted, Next;
    if n == 0 {
      StartEmpty(c, calls, ip);
    } else {
      assert calls[..n - 1] == Burst(ip, e, n - 1) by { assert calls[..n - 1] == calls[..n][..n - 1]; }
      assert calls[n - 1] == calls[..n][n - 1];
      BurstAccepted(c, calls, ip, e, n - 1);
      AcceptedStep(c, calls, n, ip);
      LogStep(c, After(c, calls, n - 1), calls[n - 1], ip);
      TimesRecent(e, n - 1, e - c.window);
      TimesGrow(e, n - 1);
    }
  }

  lemma StartEmpty(c: Config, calls: seq<Call>, ip: string)
    ensures LogOf(After(c, calls, 0), ip) == [] && Accepted(c, calls, 0, ip) == []
  {
  }

  /** A full window, then a cleanup at a later reading: the request read before it is let in on top. */
  function LateHistory(c: Config, ip: string, late: int, r: int): seq<Call>
    requires c.limit > 0
  {
    Burst(ip, r - c.window + 1, c.limit) + [Tick(late)] + [Request(ip, r)]
  }

  /** The cleanup at the later reading empties the log of the window it filled. */
  lemma LateCleanup(c: Config, calls: seq<Call>, ip: string, e: int, late: int)
    requires c.limit > 0 && c.window > 0 && e <= late - c.window && |calls| > c.limit
    requires calls[..c.limit] == Burst(ip, e, c.limit) && calls[c.limit] == Tick(late)
    ensures LogOf(After(c, calls, c.limit + 1), ip) == []
    ensures Accepted(c, calls, c.limit + 1, ip) == Times(e, c.limit)
  {
    hide Recent, After, Accepted, Next, Times, Burst, LogOf, AllowLog;
    var n := c.limit;
    BurstAccepted(c, calls, ip, e, n);
    AcceptedStep(c, calls, n + 1, ip);
    LogStep(c, After(c, calls, n), calls[n], ip);
    TimesRecent(e, n, late - c.window);
    assert Times(e, n) + [] == Times(e, n);
  }

  lemma LateOverflows(c: Config, ip: string, late: int, r: int)
    requires c.limit > 0 && c.window > 0 && r < late
    ensures var calls := LateHistory(c, ip, late, r);
            OnlyLate(calls, ip, late, r) && InWindow(Accepted(c, calls, |calls|, ip), r - c.window, r) == c.limit + 1
  {
    hide Recent, After, Accepted, Next, InWindow, Times, Burst, LogOf;
    var calls, e, n := LateHistory(c, ip, late, r), r - c.window + 1, c.limit;
    assert calls[..n] == Burst(ip, e, n) && calls[n] == Tick(late) && calls[n + 1] == Request(ip, r);
    assert forall i :: 0 <= i < n ==> calls[i] == Burst(ip, e, n)[i];
    LateCleanup(c, calls, ip, e, late);
    RecentOfNone(r - c.window);
    AcceptedStep(c, calls, n + 2, ip);
    WindowAppend(Times(e, n), r, r - c.window, r);
    TimesInWindow(e, n, r - c.window, r);
  }

  lemma {:induction false} NeverAccepts(c: Config, calls: seq<Call>, k: nat, ip: string)
    requires c.limit <= 0 && k <= |calls|
    ensures Accepted(c, calls, k, ip) == []
  {
    hide After;
    if k > 0 {
      NeverAccepts(c, calls, k - 1, ip);
    }
  }

  lemma {:induction false} EmptyWindow(ts: seq<int>, x: int)
    ensures InWindow(ts, x, x) == 0
  {
    if ts != [] {
      EmptyWindow(ts[..|ts| - 1], x);
    }
  }

  lemma BoundKept(c: Config, calls: seq<Call>, ip: string, late: int, r: int)
    requires OnlyLate(calls, ip, late, r) && (late <= r || c.limit <= 0 || c.window == 0)
    ensures Bounded(c, calls, ip)
  {
    hide Accepted, InWindow;
    forall x ensures WithinLimit(c, calls, ip, x) {
      if c.limit <= 0 {
        NeverAccepts(c, calls, |calls|, ip);
        NoneInWindow(x, x + c.window);
      } else if c.window == 0 {
        EmptyWindow(Accepted(c, calls, |calls|, ip), x);
      } else {
        assert Ordered(calls, ip);
        SlidingBound(c, calls, |calls|, ip, x);
      }
    }
  }

  lemma BoundLost(c: Config, ip: string, late: int, r: int)
    requires c.limit > 0 && c.window > 0 && r < late
    ensures OnlyLate(LateHistory(c, ip, late, r), ip, late, r) && !Bounded(c, LateHistory(c, ip, late, r), ip)
  {
    hide Accepted, InWindow, LateHistory;
    LateOverflows(c, ip, late, r);
    var calls, x := LateHistory(c, ip, late, r), r - c.window;
    assert !WithinLimit(c, calls, ip, x);
  }

  /**
   `allow` reads the clock before it takes the lock. A request that read `r` may be served after a
   call that read `late`, in every history, without the bound being lost, exactly when `r` is not
   the earlier reading, or the limiter lets nothing in, or it has no window at all.
   */
  lemma LateReadingExactly(c: Config, ip: string, late: int, r: int)
    ensures (forall calls :: OnlyLate(calls, ip, late, r) ==> Bounded(c, calls, ip))
            <==> late <= r || c.limit <= 0 || c.window == 0
  {
    hide OnlyLate, Bounded;
    if late <= r || c.limit <= 0 || c.window == 0 {
      forall calls | OnlyLate(calls, ip, late, r) ensures Bounded(c, calls, ip) {
        BoundKept(c, calls, ip, late, r);
      }
    } else {
      BoundLost(c, ip, late, r);
    }
  }

  /** The answer to request `k` is the one the log never pruned would give. */
  predicate Agrees(c: Config, calls: seq<Call>, k: nat)
    requires k < |calls| && calls[k].Request?
  {
    Answer(c, calls, k) <==>
      InWindow(Accepted(c, calls, k, calls[k].ip), calls[k].now - c.window, calls[k].now) < c.limit
  }

  ghost predicate AllAgree(c: Config, calls: seq<Call>, ip: string) {
    forall k :: 0 <= k < |calls| && calls[k].Request? && calls[k].ip == ip ==> Agrees(c, calls, k)
  }

  lemma {:induction false} RecentShrinks(ts: seq<int>, early: int, late: int)
    requires early <= late
    ensures |Recent(ts, late)| <= |Recent(ts, early)|
  {
    if ts != [] {
      RecentShrinks(ts[..|ts| - 1], early, late);
    }
  }

  /** Without a window an in-order request finds nothing left that is later than itself. */
  lemma NothingLater(c: Config, calls: seq<Call>, k: nat, ip: string, now: int)
    requires c.window == 0 && k <= |calls| && NoneLater(calls, k, ip, now)
    ensures Recent(LogOf(After(c, calls, k), ip), now) == []
  {
    hide After, Accepted, Recent, InWindow, LogOf;
    StoredSeesAll(c, calls, k, ip, now);
    AcceptedInThePast(c, calls, k, ip, now);
    RecentCounts(Accepted(c, calls, k, ip), now, now);
    EmptyWindow(Accepted(c, calls, k, ip), now);
  }

  /** Without a window at most one stored time is later than the reading that is served late. */
  lemma {:induction false} AtMostOneLater(c: Config, calls: seq<Call>, k: nat, ip: string, late: int, r: int)
    requires c.window == 0 && k <= |calls| && OnlyLate(calls, ip, late, r)
    ensures |Recent(LogOf(After(c, calls, k), ip), r)| <= 1
  {
    hide Recent, Next, AllowLog, LogOf, Accepted, After;
    if k == 0 {
      StartEmpty(c, calls, ip);
      RecentOfNone(r);
    } else {
      var was, call := LogOf(After(c, calls, k - 1), ip), calls[k - 1];
      AtMostOneLater(c, calls, k - 1, ip, late, r);
      AcceptedStep(c, calls, k, ip);
      LogStep(c, After(c, calls, k - 1), call, ip);
      var kept := Recent(was, call.now);
      assert kept + [] == kept;
      if call.now <= r {
        RecentTwice(was, call.now, r);
        RecentAppend(kept, call.now, r);
      } else {
        RecentShrinks(was, r, call.now);
        if call.Request? && call.ip == ip {
          assert NoneLater(calls, k - 1, ip, call.now);
          NothingLater(c, calls, k - 1, ip, call.now);
        }
      }
    }
  }

  lemma AgreementKept(c: Config, calls: seq<Call>, ip: string, late: int, r: int)
    requires OnlyLate(calls, ip, late, r) && (late <= r || c.limit <= 0 || (c.window == 0 && c.limit > 1))
    ensures AllAgree(c, calls, ip)
  {
    hide Accepted, InWindow, Recent, After;
    forall k | 0 <= k < |calls| && calls[k].Request? && calls[k].ip == ip ensures Agrees(c, calls, k) {
      if NoneLater(calls, k, ip, calls[k].now) {
        AnswersAsTheFullLog(c, calls, k);
      } else if c.limit > 0 {
        EmptyWindow(Accepted(c, calls, k, ip), r);
        AtMostOneLater(c, calls, k, ip, late, r);
      }
    }
  }

  /**
   As many requests as the limit allows at a later reading: the one read before them is refused
   although its own window is empty.
   */
  lemma AgreementLost(c: Config, ip: string, late: int, r: int)
    requires c.limit > 0 && r < late && (c.window > 0 || c.limit == 1)
    ensures var calls := Burst(ip, late, c.limit) + [Request(ip, r)];
            OnlyLate(calls, ip, late, r) && !AllAgree(c, calls, ip)
  {
    hide Recent, After, Accepted, Next, InWindow, Times, Burst, LogOf;
    var n := c.limit;
    var calls := Burst(ip, late, n) + [Request(ip, r)];
    assert calls[..n] == Burst(ip, late, n) && calls[n] == Request(ip, r);
    assert forall i :: 0 <= i < n ==> calls[i] == Burst(ip, late, n)[i];
    BurstAccepted(c, calls, ip, late, n);
    TimesRecent(late, n, r - c.window);
    TimesOutside(late, n, r - c.window, r);
    assert !Agrees(c, calls, n) by { assert |Times(late, n)| == n by { TimesLength(late, n); } }
  }

  lemma TimesLength(e: int, n: nat)
    ensures |Times(e, n)| == n
  {
  }

  lemma {:induction false} TimesOutside(e: int, n: nat, lo: int, hi: int)
    requires e > hi
    ensures InWindow(Times(e, n), lo, hi) == 0
  {
    if n > 0 {
      TimesOutside(e, n - 1, lo, hi);
      TimesGrow(e, n - 1);
      WindowAppend(Times(e, n - 1), e, lo, hi);
    }
  }

  /**
   The same for the answers: a request that read `r`, served after a call that read `late`, gets in
   every history the answer of the full log exactly when `r` is not the earlier reading, or the
   limiter lets nothing in, or it has no window and room for more than one.
   */
  lemma LateAnswerExactly(c: Config, ip: string, late: int, r: int)
    ensures (forall calls :: OnlyLate(calls, ip, late, r) ==> AllAgree(c, calls, ip))
            <==> late <= r || c.limit <= 0 || (c.window == 0 && c.limit > 1)
  {
    hide OnlyLate, AllAgree;
    if late <= r || c.limit <= 0 || (c.window == 0 && c.limit > 1) {
      forall calls | OnlyLate(calls, ip, late, r) ensures AllAgree(c, calls, ip) {
        AgreementKept(c, calls, ip, late, r);
      }
    } else {
      AgreementLost(c, ip, late, r);
    }
  }
}
