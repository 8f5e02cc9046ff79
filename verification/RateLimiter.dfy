/** The per-connection sliding-window limiter of the mail tools. */
module RateLimiter {

  const WINDOW_MS := 60_000

  /** One call as it was decided. */
  datatype Entry = Entry(connection: string, at: int, allowed: bool)

  /** Times less than a window before `now`. */
  function Recent(times: seq<int>, now: int): seq<int> {
    if times == [] then []
    else Recent(times[..|times| - 1], now) + if now - times[|times| - 1] < WINDOW_MS then [times[|times| - 1]] else []
  }

  function AllowedTimes(log: seq<Entry>, connection: string): seq<int> {
    if log == [] then []
    else
      var last := log[|log| - 1];
      AllowedTimes(log[..|log| - 1], connection)
      + if last.connection == connection && last.allowed then [last.at] else []
  }

  /** How many calls of a connection were allowed in the half-open interval (lo, hi]. */
  function AllowedIn(log: seq<Entry>, connection: string, lo: int, hi: int): nat {
    if log == [] then 0
    else
      var last := log[|log| - 1];
      AllowedIn(log[..|log| - 1], connection, lo, hi)
      + if last.connection == connection && last.allowed && lo < last.at <= hi then 1 else 0
  }

  /** Which calls those are. */
  function AllowedCalls(log: seq<Entry>, connection: string, lo: int, hi: int): set<nat> {
    set i | 0 <= i < |log| && log[i].connection == connection && log[i].allowed && lo < log[i].at && log[i].at <= hi
  }

  lemma {:induction false} AllowedInCounts(log: seq<Entry>, connection: string, lo: int, hi: int)
    ensures AllowedIn(log, connection, lo, hi) == |AllowedCalls(log, connection, lo, hi)|
  {
    hide AllowedCalls;
    if log == [] {
      NoCalls(connection, lo, hi);
    } else {
      AllowedInCounts(log[..|log| - 1], connection, lo, hi);
      OneMoreCall(log, connection, lo, hi);
    }
  }

  lemma NoCalls(connection: string, lo: int, hi: int)
    ensures AllowedCalls([], connection, lo, hi) == {}
  {
  }

  lemma OneMoreCall(log: seq<Entry>, connection: string, lo: int, hi: int)
    requires log != []
    ensures var e := log[|log| - 1];
            |AllowedCalls(log, connection, lo, hi)|
            == |AllowedCalls(log[..|log| - 1], connection, lo, hi)|
               + if e.connection == connection && e.allowed && lo < e.at <= hi then 1 else 0
  {
    var n := |log| - 1;
    var e := log[n];
    var more: set<nat> := if e.connection == connection && e.allowed && lo < e.at <= hi then {n} else {};
    assert AllowedCalls(log, connection, lo, hi) == AllowedCalls(log[..n], connection, lo, hi) + more;
  }

  predicate Ordered(log: seq<Entry>) {
    forall i, j :: 0 <= i < j < |log| ==> log[i].at <= log[j].at
  }

  predicate NotAfter(log: seq<Entry>, now: int) {
    forall i :: 0 <= i < |log| ==> log[i].at <= now
  }

  predicate Decided(log: seq<Entry>, e: Entry, perMinute: int) {
    e.allowed <==> AllowedIn(log, e.connection, e.at - WINDOW_MS, e.at) < perMinute
  }

  /** Each call is allowed exactly when fewer than the limit were allowed in the window before it. */
  predicate Fair(log: seq<Entry>, perMinute: int) {
    log == [] || (Fair(log[..|log| - 1], perMinute) && Decided(log[..|log| - 1], log[|log| - 1], perMinute))
  }

  /** In a fair log a call is refused only when the window before it was full. */
  lemma {:induction false} FairAt(log: seq<Entry>, perMinute: int, i: nat)
    requires Fair(log, perMinute) && i < |log|
    ensures log[i].allowed <==> AllowedIn(log[..i], log[i].connection, log[i].at - 60_000, log[i].at) < perMinute
    decreases |log|
  {
    if i < |log| - 1 {
      FairAt(log[..|log| - 1], perMinute, i);
      assert log[..|log| - 1][..i] == log[..i];
    }
  }

  // ----- the limiter -----

  lemma {:induction false} RecentTwice(times: seq<int>, now: int, later: int)
    requires now <= later
    ensures Recent(Recent(times, now), later) == Recent(times, later)
  {
    if times != [] {
      var init, last := times[..|times| - 1], times[|times| - 1];
      RecentTwice(init, now, later);
      var r := Recent(init, now);
      if now - last < WINDOW_MS {
        assert (r + [last])[..|r|] == r;
      } else {
        assert r + [] == r;
      }
    }
  }

  lemma {:induction false} RecentCount(log: seq<Entry>, connection: string, now: int)
    requires NotAfter(log, now)
    ensures |Recent(AllowedTimes(log, connection), now)| == AllowedIn(log, connection, now - WINDOW_MS, now)
  {
    if log != [] {
      var init, last := log[..|log| - 1], log[|log| - 1];
      RecentCount(init, connection, now);
      var times := AllowedTimes(init, connection);
      assert last.at <= now;
      if last.connection == connection && last.allowed {
        assert (times + [last.at])[..|times|] == times;
      } else {
        assert times + [] == times;
      }
    }
  }

  lemma RecentSnoc(times: seq<int>, t: int, now: int)
    ensures Recent(times + [t], now) == Recent(times, now) + if now - t < WINDOW_MS then [t] else []
  {
    assert (times + [t])[..|times|] == times;
  }

  lemma AllowedSnoc(log: seq<Entry>, e: Entry, connection: string)
    ensures AllowedTimes(log + [e], connection)
            == AllowedTimes(log, connection) + if e.connection == connection && e.allowed then [e.at] else []
  {
    assert (log + [e])[..|log|] == log;
  }

  class ToolRateLimiter {
    var calls: map<string, seq<int>>
    ghost var log: seq<Entry>

    function Stored(connection: string): seq<int>
      reads this
    {
      if connection in calls then calls[connection] else []
    }

    /** From the last call on, what is stored counts the same as everything that was allowed. */
    ghost predicate Valid()
      reads this
    {
      forall connection, now :: NotAfter(log, now) ==>
        Recent(Stored(connection), now) == Recent(AllowedTimes(log, connection), now)
    }

    constructor ()
      ensures Valid() && log == []
    {
      calls, log := map[], [];
    }

    /** `now` is the clock's reading, which never goes back. */
    method Allow(connectionId: string, perMinute: int, now: int) returns (allowed: bool)
      requires Valid() && NotAfter(log, now)
      modifies this
      ensures Valid() && log == old(log) + [Entry(connectionId, now, allowed)]
      ensures allowed <==> AllowedIn(old(log), connectionId, now - WINDOW_MS, now) < perMinute
      ensures forall c :: c != connectionId ==> Stored(c) == old(Stored(c))
    {
      var recent := Recent(Stored(connectionId), now);
      RecentCount(log, connectionId, now);
      assert Recent(Stored(connectionId), now) == Recent(AllowedTimes(log, connectionId), now);
      allowed := |recent| < perMinute;
      calls := calls[connectionId := if allowed then recent + [now] else recent];
      ghost var before := log;
      log := log + [Entry(connectionId, now, allowed)];
      forall c, later | NotAfter(log, later)
        ensures Recent(Stored(c), later) == Recent(AllowedTimes(log, c), later)
      {
        assert log[|before|].at <= later;
        assert forall i :: 0 <= i < |before| ==> before[i] == log[i];
        assert NotAfter(before, later);
        AllowedSnoc(before, log[|before|], c);
        var times := AllowedTimes(before, c);
        if c == connectionId {
          RecentTwice(old(Stored(connectionId)), now, later);
          RecentSnoc(recent, now, later);
          RecentSnoc(times, now, later);
          assert Recent(old(Stored(connectionId)), later) == Recent(times, later);
          assert times + [] == times;
        } else {
          assert times + [] == times;
          assert Stored(c) == old(Stored(c));
        }
      }
    }
  }

  datatype Call = Call(connection: string, at: int)

  function CallsOf(log: seq<Entry>): (r: seq<Call>)
    ensures |r| == |log|
  {
    seq(|log|, i requires 0 <= i < |log| => Call(log[i].connection, log[i].at))
  }

  /** A whole run with a fixed limit: every call is decided, and decided fairly. */
  method DecideAll(calls: seq<Call>, perMinute: int) returns (log: seq<Entry>)
    requires forall i, j :: 0 <= i < j < |calls| ==> calls[i].at <= calls[j].at
    ensures CallsOf(log) == calls
    ensures Fair(log, perMinute)
  {
    var limiter := new ToolRateLimiter();
    log := [];
    for i := 0 to |calls|
      invariant limiter.Valid() && limiter.log == log && fresh(limiter)
      invariant CallsOf(log) == calls[..i]
      invariant |log| == i && (i < |calls| ==> NotAfter(log, calls[i].at))
      invariant Fair(log, perMinute)
    {
      hide Fair, AllowedIn;
      var allowed := limiter.Allow(calls[i].connection, perMinute, calls[i].at);
      FairSnoc(log, Entry(calls[i].connection, calls[i].at, allowed), perMinute);
      log := log + [Entry(calls[i].connection, calls[i].at, allowed)];
      assert CallsOf(log)[i] == calls[i];
    }
  }

  // ----- what fairness gives -----

  lemma FairSnoc(log: seq<Entry>, e: Entry, perMinute: int)
    ensures Fair(log + [e], perMinute) <==> Fair(log, perMinute) && Decided(log, e, perMinute)
  {
    assert (log + [e])[..|log|] == log;
  }

  lemma {:induction false} WiderCountsMore(log: seq<Entry>, connection: string, lo: int, hi: int, lo': int, hi': int)
    requires lo' <= lo && forall i :: 0 <= i < |log| && log[i].at <= hi ==> log[i].at <= hi'
    ensures AllowedIn(log, connection, lo, hi) <= AllowedIn(log, connection, lo', hi')
  {
    if log != [] {
      WiderCountsMore(log[..|log| - 1], connection, lo, hi, lo', hi');
    }
  }

  /** Every half-open window of a minute, wherever it starts, holds at most the limit. */
  lemma {:induction false} WindowBound(log: seq<Entry>, perMinute: nat, connection: string, a: int)
    requires Ordered(log) && Fair(log, perMinute)
    ensures AllowedIn(log, connection, a, a + 60_000) <= perMinute
    decreases |log|
  {
    if log != [] {
      var n := |log| - 1;
      var init, last := log[..n], log[n];
      WindowBound(init, perMinute, connection, a);
      if last.connection == connection && last.allowed && a < last.at <= a + WINDOW_MS {
        assert AllowedIn(init, connection, last.at - WINDOW_MS, last.at) < perMinute;
        WiderCountsMore(init, connection, a, a + WINDOW_MS, last.at - WINDOW_MS, last.at);
      }
    }
  }

  /** Only a connection's own entries. */
  function Project(log: seq<Entry>, connection: string): seq<Entry> {
    if log == [] then []
    else
      var last := log[|log| - 1];
      Project(log[..|log| - 1], connection) + if last.connection == connection then [last] else []
  }

  lemma {:induction false} ProjectCounts(log: seq<Entry>, connection: string, lo: int, hi: int)
    ensures AllowedIn(Project(log, connection), connection, lo, hi) == AllowedIn(log, connection, lo, hi)
  {
    if log != [] {
      var init, last := log[..|log| - 1], log[|log| - 1];
      ProjectCounts(init, connection, lo, hi);
      var p := Project(init, connection);
      assert (p + [last])[..|p|] == p;
      assert p + [] == p;
    }
  }

  /** A connection's own entries are by themselves a fair log. */
  lemma {:induction false} ProjectFair(log: seq<Entry>, perMinute: int, connection: string)
    requires Fair(log, perMinute)
    ensures Fair(Project(log, connection), perMinute)
    ensures forall e :: e in Project(log, connection) ==> e.connection == connection
    decreases |log|
  {
    hide AllowedIn, Fair, Project;
    if log == [] {
      EmptyIsFair(perMinute, connection);
    } else {
      var init, last := log[..|log| - 1], log[|log| - 1];
      assert log == init + [last];
      FairSnoc(init, last, perMinute);
      ProjectFair(init, perMinute, connection);
      var p := Project(init, connection);
      ProjectSnoc(init, last, connection);
      if last.connection == connection {
        ProjectCounts(init, connection, last.at - WINDOW_MS, last.at);
        FairSnoc(p, last, perMinute);
      }
    }
  }

  lemma EmptyIsFair(perMinute: int, connection: string)
    ensures Project([], connection) == [] && Fair([], perMinute)
  {
  }

  lemma ProjectSnoc(init: seq<Entry>, last: Entry, connection: string)
    ensures Project(init + [last], connection)
            == if last.connection == connection then Project(init, connection) + [last] else Project(init, connection)
  {
    assert (init + [last])[..|init|] == init;
    assert Project(init, connection) + [] == Project(init, connection);
  }

  /** The calls leave a fair limiter no choice. */
  lemma {:induction false} FairIsUnique(a: seq<Entry>, b: seq<Entry>, perMinute: int)
    requires Fair(a, perMinute) && Fair(b, perMinute) && CallsOf(a) == CallsOf(b)
    ensures a == b
    decreases |a|
  {
    hide AllowedIn, Fair;
    assert |CallsOf(a)| == |CallsOf(b)|;
    if a != [] {
      var n := |a| - 1;
      assert CallsOf(a[..n]) == CallsOf(a)[..n] == CallsOf(b)[..n] == CallsOf(b[..n]);
      assert CallsOf(a)[n] == CallsOf(b)[n];
      assert a == a[..n] + [a[n]] && b == b[..n] + [b[n]];
      FairSnoc(a[..n], a[n], perMinute);
      FairSnoc(b[..n], b[n], perMinute);
      FairIsUnique(a[..n], b[..n], perMinute);
    }
  }

  /** What a connection gets depends on its own calls alone, whatever the others do. */
  lemma Independent(a: seq<Entry>, b: seq<Entry>, perMinute: int, connection: string)
    requires Fair(a, perMinute) && Fair(b, perMinute)
    requires CallsOf(Project(a, connection)) == CallsOf(Project(b, connection))
    ensures Project(a, connection) == Project(b, connection)
  {
    ProjectFair(a, perMinute, connection);
    ProjectFair(b, perMinute, connection);
    FairIsUnique(Project(a, connection), Project(b, connection), perMinute);
  }
}
