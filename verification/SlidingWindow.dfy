/** The sliding-window rate limiter of the chat widget, taken by itself: what one call to
    `handleSend` does to the stored time stamps, and what follows for whole runs of calls.

    The widget stores a pruned list of time stamps.  The reference here is the full list of
    accepted calls, which the code never keeps. */
module SlidingWindow {

  const MAX_MESSAGES: nat := 60
  const TIME_WINDOW_MS: nat := 60000

  // ----- The code: filter, compare, append -----

  /** The stamps of the last window, oldest first. */
  function Recent(stamps: seq<int>, now: int): seq<int> {
    if stamps == [] then []
    else if now - stamps[0] < TIME_WINDOW_MS then [stamps[0]] + Recent(stamps[1..], now)
    else Recent(stamps[1..], now)
  }

  datatype Decision = Decision(accepted: bool, stamps: seq<int>)

  /** One call: a rejection leaves the stored list as it was, stale stamps included. */
  function Limit(stamps: seq<int>, now: int): Decision {
    var recent := Recent(stamps, now);
    if |recent| >= MAX_MESSAGES then Decision(false, stamps)
    else Decision(true, recent + [now])
  }

  /** The stored list beside what the code does not keep: the positions and the times of all
      calls accepted so far. */
  datatype Log = Log(stamps: seq<int>, accepted: seq<nat>, times: seq<int>)

  /** A run of calls at the given times, starting from an empty list. */
  function Replay(calls: seq<int>): Log {
    if calls == [] then Log([], [], [])
    else
      var n := |calls| - 1;
      var before := Replay(calls[..n]);
      var d := Limit(before.stamps, calls[n]);
      if d.accepted then Log(d.stamps, before.accepted + [n], before.times + [calls[n]])
      else before.(stamps := d.stamps)
  }

  /** One call more. */
  lemma ReplayOneMore(calls: seq<int>, now: int)
    ensures var before, d := Replay(calls), Limit(Replay(calls).stamps, now);
            && Replay(calls + [now]).stamps == d.stamps
            && Replay(calls + [now]).times == if d.accepted then before.times + [now] else before.times
  {
    assert (calls + [now])[..|calls|] == calls;
  }

  // ----- Vocabulary of the claims -----

  ghost predicate Sorted(s: seq<int>) {
    forall i, j :: 0 <= i < j < |s| ==> s[i] <= s[j]
  }

  /** The clock does not step back. */
  ghost predicate NoneAfter(s: seq<int>, now: int) {
    forall i :: 0 <= i < |s| ==> s[i] <= now
  }

  /** A choice of calls, by position. */
  ghost predicate Selection(calls: seq<int>, sel: seq<nat>) {
    && (forall i :: 0 <= i < |sel| ==> sel[i] < |calls|)
    && (forall i, j :: 0 <= i < j < |sel| ==> sel[i] < sel[j])
  }

  /** These are the times of the chosen calls. */
  ghost predicate TimesOf(calls: seq<int>, sel: seq<nat>, times: seq<int>)
    requires Selection(calls, sel)
  {
    && |times| == |sel|
    && (forall i :: 0 <= i < |sel| ==> times[i] == calls[sel[i]])
  }

  /** How many of the times lie in the half-open interval from lo to hi. */
  function CountIn(times: seq<int>, lo: int, hi: int): nat {
    if times == [] then 0
    else
      var last := times[|times| - 1];
      CountIn(times[..|times| - 1], lo, hi) + (if lo <= last < hi then 1 else 0)
  }

  function CountInWindow(times: seq<int>, lo: int): nat {
    CountIn(times, lo, lo + TIME_WINDOW_MS)
  }

  /** The promise of the limiter, stated without reference to how it works. */
  ghost predicate WithinLimit(times: seq<int>) {
    forall lo :: CountInWindow(times, lo) <= MAX_MESSAGES
  }

  /** The element 60 positions further on is at least a window later. */
  ghost predicate Gap(times: seq<int>, i: nat) {
    i + MAX_MESSAGES < |times| ==> times[i + MAX_MESSAGES] - times[i] >= TIME_WINDOW_MS
  }

  ghost predicate Spaced(times: seq<int>) {
    forall i :: 0 <= i < |times| ==> Gap(times, i)
  }

  // ----- Sorted lists -----

  /** On a sorted list the filter cuts off a prefix. */
  lemma {:induction false} RecentIsSuffix(s: seq<int>, now: int) returns (k: nat)
    requires Sorted(s)
    ensures k <= |s| && Recent(s, now) == s[k..]
    ensures forall j :: 0 <= j < k ==> now - s[j] >= TIME_WINDOW_MS
    ensures forall j :: k <= j < |s| ==> now - s[j] < TIME_WINDOW_MS
  {
    if s == [] {
      k := 0;
    } else {
      var rest := s[1..];
      assert forall j :: 0 <= j < |rest| ==> rest[j] == s[j + 1];
      var k' := RecentIsSuffix(rest, now);
      if now - s[0] < TIME_WINDOW_MS {
        k := 0;
        assert s == [s[0]] + rest;
        assert k' == 0;
      } else {
        k := k' + 1;
        assert rest[k'..] == s[k..];
        forall j | 0 <= j < k ensures now - s[j] >= TIME_WINDOW_MS {
          if j > 0 { assert rest[j - 1] == s[j]; }
        }
        forall j | k <= j < |s| ensures now - s[j] < TIME_WINDOW_MS {
          assert rest[j - 1] == s[j];
        }
      }
    }
  }

  /** The filter keeps a list that has nothing stale in it. */
  lemma {:induction false} RecentKeepsAll(s: seq<int>, now: int)
    requires forall i :: 0 <= i < |s| ==> now - s[i] < TIME_WINDOW_MS
    ensures Recent(s, now) == s
  {
    if s != [] {
      assert forall i :: 0 <= i < |s| - 1 ==> s[1..][i] == s[i + 1];
      RecentKeepsAll(s[1..], now);
      assert s == [s[0]] + s[1..];
    }
  }

  /** On a sorted list the elements of an interval are neighbours. */
  lemma {:induction false} CountIsRange(s: seq<int>, lo: int, hi: int) returns (a: nat, b: nat)
    requires Sorted(s) && lo <= hi
    ensures a <= b <= |s| && CountIn(s, lo, hi) == b - a
    ensures forall j :: 0 <= j < a ==> s[j] < lo
    ensures forall j :: a <= j < b ==> lo <= s[j] < hi
    ensures forall j :: b <= j < |s| ==> hi <= s[j]
  {
    if s == [] {
      a, b := 0, 0;
    } else {
      var n := |s| - 1;
      var front := s[..n];
      assert forall j :: 0 <= j < n ==> front[j] == s[j] <= s[n];
      a, b := CountIsRange(front, lo, hi);
      if s[n] < lo {
        assert a == n && b == n;
        a, b := n + 1, n + 1;
      } else if s[n] < hi {
        assert b == n;
        b := n + 1;
      }
    }
  }

  /** At most 60 in every window says the same as: 60 positions apart is a window apart. */
  lemma WithinLimitIffSpaced(times: seq<int>)
    requires Sorted(times)
    ensures WithinLimit(times) <==> Spaced(times)
  {
    if WithinLimit(times) {
      forall i | 0 <= i < |times| ensures Gap(times, i) {
        assert CountInWindow(times, times[i]) <= MAX_MESSAGES;
        var a, b := CountIsRange(times, times[i], times[i] + TIME_WINDOW_MS);
      }
    }
    if Spaced(times) {
      forall lo: int ensures CountInWindow(times, lo) <= MAX_MESSAGES {
        var a, b := CountIsRange(times, lo, lo + TIME_WINDOW_MS);
        assert a < |times| ==> Gap(times, a);
      }
    }
  }

  // ----- Every reachable state -----

  /** The stored list is the tail of the accepted times; what was dropped from it is stale at
      the given time and ever after. */
  ghost predicate Prunes(stamps: seq<int>, times: seq<int>, clock: int) {
    && Sorted(times) && NoneAfter(times, clock) && Spaced(times)
    && |stamps| <= |times| && |stamps| <= MAX_MESSAGES
    && stamps == times[|times| - |stamps|..]
    && (forall j :: 0 <= j < |times| - |stamps| ==> clock - times[j] >= TIME_WINDOW_MS)
  }

  /** Stale stamps at the front make no difference to the filter. */
  lemma {:induction false} RecentSkipsStale(s: seq<int>, d: nat, now: int)
    requires d <= |s|
    requires forall j :: 0 <= j < d ==> now - s[j] >= TIME_WINDOW_MS
    ensures Recent(s[d..], now) == Recent(s, now)
  {
    if d > 0 {
      var rest := s[1..];
      assert rest[d - 1..] == s[d..];
      RecentSkipsStale(rest, d - 1, now);
    } else {
      assert s[d..] == s;
    }
  }

  /** A call finds the same recent stamps in the stored list as in the full history. */
  lemma RecentOfFullHistory(stamps: seq<int>, times: seq<int>, clock: int, now: int) returns (k: nat)
    requires Prunes(stamps, times, clock) && clock <= now
    ensures k <= |times|
    ensures Recent(stamps, now) == Recent(times, now) == times[k..]
    ensures forall j :: 0 <= j < k ==> now - times[j] >= TIME_WINDOW_MS
    ensures forall j :: k <= j < |times| ==> now - times[j] < TIME_WINDOW_MS
  {
    RecentSkipsStale(times, |times| - |stamps|, now);
    k := RecentIsSuffix(times, now);
  }

  lemma AcceptKeepsPruned(times: seq<int>, now: int, k: nat)
    requires Sorted(times) && NoneAfter(times, now) && Spaced(times)
    requires k <= |times| < k + MAX_MESSAGES
    requires forall j :: 0 <= j < k ==> now - times[j] >= TIME_WINDOW_MS
    ensures Prunes(times[k..] + [now], times + [now], now)
  {
    var more := times + [now];
    assert times[k..] + [now] == more[k..];
    forall i | 0 <= i < |more| ensures Gap(more, i) {
      if i < |times| { assert Gap(times, i); }
    }
  }

  /** What one call does to the full history. */
  lemma LimitKeepsPruned(stamps: seq<int>, times: seq<int>, clock: int, now: int)
    requires Prunes(stamps, times, clock) && clock <= now
    ensures var d := Limit(stamps, now);
            Prunes(d.stamps, if d.accepted then times + [now] else times, now)
  {
    var k := RecentOfFullHistory(stamps, times, clock, now);
    if Limit(stamps, now).accepted {
      AcceptKeepsPruned(times, now, k);
    }
  }

  lemma SortedPrefix(calls: seq<int>, n: nat)
    requires Sorted(calls) && n < |calls|
    ensures Sorted(calls[..n]) && NoneAfter(calls[..n], calls[n])
  {
    assert forall i :: 0 <= i < n ==> calls[..n][i] == calls[i];
  }

  lemma {:induction false} Reachable(calls: seq<int>, clock: int)
    requires Sorted(calls) && NoneAfter(calls, clock)
    ensures Prunes(Replay(calls).stamps, Replay(calls).times, clock)
  {
    if calls != [] {
      var n := |calls| - 1;
      var now := calls[n];
      SortedPrefix(calls, n);
      var before := Replay(calls[..n]);
      Reachable(calls[..n], now);
      LimitKeepsPruned(before.stamps, before.times, now, now);
      PrunesLater(Replay(calls).stamps, Replay(calls).times, now, clock);
    }
  }

  lemma PrunesLater(stamps: seq<int>, times: seq<int>, clock: int, later: int)
    requires Prunes(stamps, times, clock) && clock <= later
    ensures Prunes(stamps, times, later)
  {
  }

  lemma {:induction false} AcceptedPositions(calls: seq<int>)
    ensures Selection(calls, Replay(calls).accepted)
    ensures TimesOf(calls, Replay(calls).accepted, Replay(calls).times)
  {
    if calls != [] {
      AcceptedPositions(calls[..|calls| - 1]);
    }
  }

  // ----- Main results -----

  /** The stored list never exceeds 60 entries, and a call is accepted exactly when fewer than
      60 of all calls ever accepted lie within the last 60000 ms. */
  lemma AcceptsExactlyUnderLimit(calls: seq<int>, now: int)
    requires Sorted(calls) && NoneAfter(calls, now)
    ensures |Replay(calls).stamps| <= 60
    ensures Limit(Replay(calls).stamps, now).accepted
       <==> CountIn(Replay(calls).times, now - 59999, now + 1) < 60
  {
    Reachable(calls, now);
    RecentCounts(Replay(calls).stamps, Replay(calls).times, now);
  }

  lemma RecentCounts(stamps: seq<int>, times: seq<int>, now: int)
    requires Prunes(stamps, times, now)
    ensures |Recent(stamps, now)| == CountIn(times, now - TIME_WINDOW_MS + 1, now + 1)
  {
    var k := RecentOfFullHistory(stamps, times, now, now);
    var a, b := CountIsRange(times, now - TIME_WINDOW_MS + 1, now + 1);
    assert b == |times|;
    var first := if a < k then a else k;
    assert first < |times| ==> (now - times[first] >= TIME_WINDOW_MS <==> first < k);
  }

  lemma AcceptableAgain(stamps: seq<int>, times: seq<int>, now: int, later: int)
    requires Prunes(stamps, times, now) && now <= later
    requires !Limit(stamps, now).accepted
    ensures |times| >= MAX_MESSAGES
    ensures Limit(stamps, later).accepted
       <==> later >= times[|times| - MAX_MESSAGES] + TIME_WINDOW_MS
  {
    var k0 := RecentOfFullHistory(stamps, times, now, now);
    var k := RecentOfFullHistory(stamps, times, now, later);
    var p := |times| - MAX_MESSAGES;
    assert |Recent(stamps, later)| == |times| - k;
    assert k <= p <==> later - times[p] < TIME_WINDOW_MS;
  }

  /** After a rejection, the calls that would be accepted are exactly those made no earlier
      than a window after the 60th-last accepted call. */
  lemma FirstAcceptableTime(calls: seq<int>, now: int, later: int)
    requires Sorted(calls) && NoneAfter(calls, now) && now <= later
    requires !Limit(Replay(calls).stamps, now).accepted
    ensures |Replay(calls).times| >= MAX_MESSAGES
    ensures Limit(Replay(calls + [now]).stamps, later).accepted
       <==> later >= Replay(calls).times[|Replay(calls).times| - MAX_MESSAGES] + TIME_WINDOW_MS
  {
    Reachable(calls, now);
    AcceptableAgain(Replay(calls).stamps, Replay(calls).times, now, later);
    ReplayOneMore(calls, now);
  }

  /** Every half-open window of 60000 ms holds at most 60 accepted calls, and the call 60
      positions after an accepted call is accepted at least 60000 ms later. */
  lemma WindowSafety(calls: seq<int>)
    requires Sorted(calls)
    ensures Spaced(Replay(calls).times) && WithinLimit(Replay(calls).times)
    ensures forall lo, hi :: hi == lo + 60000 ==> CountIn(Replay(calls).times, lo, hi) <= 60
  {
    Reachable(calls, if calls == [] then 0 else calls[|calls| - 1]);
    WithinLimitIffSpaced(Replay(calls).times);
    forall lo, hi | hi == lo + 60000 ensures CountIn(Replay(calls).times, lo, hi) <= 60 {
      assert CountInWindow(Replay(calls).times, lo) <= MAX_MESSAGES;
    }
  }

  lemma {:induction false} SpacedSteps(times: seq<int>, a: nat, q: nat)
    requires Spaced(times) && a + MAX_MESSAGES * q < |times|
    ensures times[a + MAX_MESSAGES * q] - times[a] >= q * TIME_WINDOW_MS
  {
    if q > 0 {
      SpacedSteps(times, a, q - 1);
      assert Gap(times, a + MAX_MESSAGES * (q - 1));
    }
  }

  lemma SpacedSpan(times: seq<int>, lo: int, d: nat)
    requires Sorted(times) && Spaced(times)
    ensures CountIn(times, lo, lo + d + 1) <= MAX_MESSAGES * (d / TIME_WINDOW_MS + 1)
  {
    var a, b := CountIsRange(times, lo, lo + d + 1);
    var q := d / TIME_WINDOW_MS + 1;
    if b - a > MAX_MESSAGES * q {
      SpacedSteps(times, a, q);
      assert false;
    }
  }

  /** A closed span of d ms holds at most 60 * (d / 60000 + 1) accepted calls. */
  lemma SpanBound(calls: seq<int>, lo: int, d: nat)
    requires Sorted(calls)
    ensures CountIn(Replay(calls).times, lo, lo + d + 1) <= MAX_MESSAGES * (d / TIME_WINDOW_MS + 1)
  {
    Reachable(calls, if calls == [] then 0 else calls[|calls| - 1]);
    SpacedSpan(Replay(calls).times, lo, d);
  }

  /** Position by position, the first list is at least as long and nowhere behind. */
  ghost predicate Ahead(greedy: seq<nat>, sel: seq<nat>) {
    |sel| <= |greedy| && forall i :: 0 <= i < |sel| ==> greedy[i] <= sel[i]
  }

  /** What a selection takes of all calls but the last. */
  lemma WithoutLastCall(calls: seq<int>, sel: seq<nat>, times: seq<int>) returns (m: nat)
    requires Selection(calls, sel) && TimesOf(calls, sel, times) && Spaced(times) && sel != []
    ensures calls != [] && m <= |sel| && Spaced(times[..m])
    ensures var n := |calls| - 1;
            && Selection(calls[..n], sel[..m]) && TimesOf(calls[..n], sel[..m], times[..m])
            && (m < |sel| ==> sel == sel[..m] + [n] && times == times[..m] + [calls[n]])
  {
    m := |sel| - 1;
    assert sel[m] < |calls|;
    var n := |calls| - 1;
    assert forall i :: 0 <= i < m ==> sel[i] < sel[m] <= n;
    if sel[m] < n { m := m + 1; }
    SpacedPrefix(times, m);
  }

  lemma {:induction false} GreedyStaysAhead(calls: seq<int>, sel: seq<nat>, times: seq<int>)
    requires Sorted(calls) && Selection(calls, sel) && TimesOf(calls, sel, times)
    requires Spaced(times)
    ensures Ahead(Replay(calls).accepted, sel)
    decreases |calls|
  {
    if sel != [] {
      var m := WithoutLastCall(calls, sel, times);
      var n := |calls| - 1;
      SortedPrefix(calls, n);
      GreedyStaysAhead(calls[..n], sel[..m], times[..m]);
      if m < |sel| {
        AcceptedPositions(calls[..n]);
        Reachable(calls[..n], calls[n]);
        GreedyTakesNext(calls[..n], Replay(calls[..n]), calls[n], sel[..m], times[..m]);
      } else {
        assert sel[..m] == sel;
      }
    }
  }

  lemma SpacedPrefix(times: seq<int>, m: nat)
    requires Spaced(times) && m <= |times|
    ensures Spaced(times[..m])
  {
    forall i | 0 <= i < m ensures Gap(times[..m], i) { assert Gap(times, i); }
  }

  /** When the code has accepted as many calls as the selection, none of them later, and the
      selection may take the next call, then the code takes it too. */
  lemma GreedyKeepsUp(stamps: seq<int>, taken: seq<int>, now: int, times: seq<int>)
    requires Prunes(stamps, taken, now)
    requires |taken| == |times| && forall i :: 0 <= i < |times| ==> taken[i] <= times[i]
    requires Spaced(times + [now])
    ensures Limit(stamps, now).accepted
  {
    var k := RecentOfFullHistory(stamps, taken, now, now);
    if |times| >= MAX_MESSAGES {
      var p := |times| - MAX_MESSAGES;
      assert Gap(times + [now], p);
      assert taken[p] <= times[p];
    }
  }

  lemma AheadIsEarlier(calls: seq<int>, greedy: seq<nat>, early: seq<int>, sel: seq<nat>, times: seq<int>)
    requires Sorted(calls) && Selection(calls, greedy) && Selection(calls, sel)
    requires TimesOf(calls, greedy, early) && TimesOf(calls, sel, times)
    requires Ahead(greedy, sel)
    ensures forall i :: 0 <= i < |times| ==> early[i] <= times[i]
  {
    forall i | 0 <= i < |times| ensures early[i] <= times[i] {
      assert greedy[i] <= sel[i];
    }
  }

  /** The record of a run in which a call may follow now. */
  ghost predicate LogOf(calls: seq<int>, log: Log, now: int) {
    && Selection(calls, log.accepted) && TimesOf(calls, log.accepted, log.times)
    && Prunes(log.stamps, log.times, now)
  }

  /** One call later the code is still ahead. */
  lemma GreedyTakesNext(calls: seq<int>, log: Log, now: int, sel: seq<nat>, times: seq<int>)
    requires Sorted(calls) && LogOf(calls, log, now)
    requires Selection(calls, sel) && TimesOf(calls, sel, times)
    requires Spaced(times + [now])
    requires Ahead(log.accepted, sel)
    ensures Ahead(if Limit(log.stamps, now).accepted then log.accepted + [|calls|] else log.accepted,
                  sel + [|calls|])
  {
    if |sel| == |log.accepted| {
      AheadIsEarlier(calls, log.accepted, log.times, sel, times);
      GreedyKeepsUp(log.stamps, log.times, now, times);
    } else {
      assert log.accepted[|sel|] < |calls|;
    }
  }

  /** No selection of the same calls that keeps the promise takes more calls than the code
      does, and the code's i-th accepted call is never later than the selection's i-th.  The
      code's own choice is such a selection, so it is the best one. */
  lemma GreedyIsOptimal(calls: seq<int>, sel: seq<nat>, times: seq<int>)
    requires Sorted(calls) && Selection(calls, sel) && TimesOf(calls, sel, times)
    requires WithinLimit(times)
    ensures Ahead(Replay(calls).accepted, sel)
    ensures Selection(calls, Replay(calls).accepted)
    ensures TimesOf(calls, Replay(calls).accepted, Replay(calls).times)
    ensures forall i :: 0 <= i < |sel| ==> Replay(calls).times[i] <= times[i]
    ensures WithinLimit(Replay(calls).times)
  {
    WithinLimitIffSpaced(times);
    GreedyStaysAhead(calls, sel, times);
    AcceptedPositions(calls);
    AheadIsEarlier(calls, Replay(calls).accepted, Replay(calls).times, sel, times);
    WindowSafety(calls);
  }
}
