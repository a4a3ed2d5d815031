/** metrics.go: a window of the most recent connections, against the whole history. */
module Metrics {
  import opened Bytes

  const WINDOW := 100

  /** Nanoseconds. */
  const MINUTE := 60_000_000_000

  function LastOf(history: seq<int>): (r: seq<int>) {
    if |history| <= WINDOW then history else history[|history| - WINDOW..]
  }

  function CountAfter(times: seq<int>, cutoff: int): nat {
    if times == [] then 0 else CountAfter(times[..|times| - 1], cutoff) + if times[|times| - 1] > cutoff then 1 else 0
  }

  ghost predicate Ordered(times: seq<int>) {
    forall i, j :: 0 <= i < j < |times| ==> times[i] <= times[j]
  }

  class ConnectionMetrics {
    var totalConnections: int
    var activeConnections: int
    var recentConns: seq<int>
    ghost var history: seq<int>  // when each connection was recorded

    constructor ()
      ensures Valid() && history == []
    {
      totalConnections, activeConnections, recentConns, history := 0, 0, [], [];
    }

    /** The window holds the last recorded connections, and the total counts all of them. */
    ghost predicate Valid()
      reads this
    {
      recentConns == LastOf(history) && totalConnections == |history|
    }

    /** The time is read while the lock is held, so the history is in order if the clock does not go back. */
    method RecordConnection(now: int)
      requires Valid()
      modifies this
      ensures Valid() && history == old(history) + [now]
      ensures recentConns == if |history| <= 100 then history else history[|history| - 100..]
      ensures activeConnections == old(activeConnections) + 1
    {
      totalConnections := totalConnections + 1;
      activeConnections := activeConnections + 1;
      recentConns := recentConns + [now];
      if |recentConns| > WINDOW {
        recentConns := recentConns[1..];
      }
      history := history + [now];
    }

    method RecordClose()
      requires Valid()
      modifies `activeConnections
      ensures Valid() && activeConnections == old(activeConnections) - 1
    {
      activeConnections := activeConnections - 1;
    }

    /** The window gives the number of connections of the last minute in the whole history, capped at its size. */
    method ConnsPerMinute(now: int) returns (count: nat)
      requires Valid() && Ordered(history)
      ensures count == Min(100, CountAfter(history, now - 60_000_000_000))
    {
      var cutoff := now - MINUTE;
      count := 0;
      for i := 0 to |recentConns|
        invariant count == CountAfter(recentConns[..i], cutoff)
      {
        assert recentConns[..i + 1][..i] == recentConns[..i];
        if recentConns[i] > cutoff {
          count := count + 1;
        }
      }
      assert recentConns[..|recentConns|] == recentConns;
      WindowCounts(history, cutoff);
    }
  }

  /** How many of the times lie after the cutoff. */
  lemma {:induction false} CountIsNumber(times: seq<int>, cutoff: int)
    ensures CountAfter(times, cutoff) == |set i | 0 <= i < |times| && times[i] > cutoff|
  {
    if times != [] {
      var n := |times| - 1;
      var before, now := set i | 0 <= i < n && times[..n][i] > cutoff, set i | 0 <= i < |times| && times[i] > cutoff;
      CountIsNumber(times[..n], cutoff);
      assert now == before + (if times[n] > cutoff then {n} else {});
    }
  }

  lemma {:induction false} CountSplit(a: seq<int>, b: seq<int>, cutoff: int)
    ensures CountAfter(a + b, cutoff) == CountAfter(a, cutoff) + CountAfter(b, cutoff)
    ensures CountAfter(b, cutoff) <= |b|
    decreases |b|
  {
    if b == [] {
      assert a + b == a;
    } else {
      CountSplit(a, b[..|b| - 1], cutoff);
      assert (a + b)[..|a + b| - 1] == a + b[..|b| - 1];
    }
  }

  lemma {:induction false} CountAll(times: seq<int>, cutoff: int, after: bool)
    requires forall i :: 0 <= i < |times| ==> (times[i] > cutoff) == after
    ensures CountAfter(times, cutoff) == if after then |times| else 0
  {
    if times != [] {
      CountAll(times[..|times| - 1], cutoff, after);
    }
  }

  /** If anything older than the window is recent, everything in the window is. */
  lemma WindowCounts(history: seq<int>, cutoff: int)
    requires Ordered(history)
    ensures CountAfter(LastOf(history), cutoff) == Min(WINDOW, CountAfter(history, cutoff))
  {
    if |history| <= WINDOW {
      CountSplit([], history, cutoff);
    } else {
      var n := |history| - WINDOW;
      var earlier, recent := history[..n], history[n..];
      assert history == earlier + recent;
      CountSplit(earlier, recent, cutoff);
      if history[n] > cutoff {
        CountAll(recent, cutoff, true);
      } else {
        CountAll(earlier, cutoff, false);
      }
    }
  }
}
