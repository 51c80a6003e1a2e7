/** The exact request log that the two counters of a key stand in for, and how many
    entries of it fall into a stretch of time. */
module RequestLog {
  import opened SlidingWindow

  /** One accepted request. */
  datatype Entry = Entry(id: string, time: int)

  /** Whose requests a counter counts. */
  datatype Scope = Attestor(id: string) | Everyone

  predicate Covers(scope: Scope, e: Entry) {
    scope.Everyone? || scope.id == e.id
  }

  /** Accepted requests of `scope` with lo <= time < hi. */
  function Count(log: seq<Entry>, scope: Scope, lo: int, hi: int): nat {
    if log == [] then 0
    else
      var last := log[|log| - 1];
      Count(log[..|log| - 1], scope, lo, hi)
      + if Covers(scope, last) && lo <= last.time < hi then 1 else 0
  }

  /** Accepted requests of `scope` in fixed window number `k`. */
  function InWindow(log: seq<Entry>, scope: Scope, k: int, w: int): nat {
    Count(log, scope, k * w, (k + 1) * w)
  }

  /** The counter state a full log would give for `scope` at `now`. */
  function Exact(log: seq<Entry>, scope: Scope, now: int, w: int): Window
    requires w > 0
  {
    var k := Index(now, w);
    Window(AlignToWindow(now, w), InWindow(log, scope, k, w), InWindow(log, scope, k - 1, w), now)
  }

  ghost predicate AllBy(log: seq<Entry>, scope: Scope, t: int) {
    forall i :: 0 <= i < |log| && Covers(scope, log[i]) ==> log[i].time <= t
  }

  // --- Counting -----------------------------------------------------------

  lemma CountAppend(log: seq<Entry>, e: Entry, scope: Scope, lo: int, hi: int)
    ensures Count(log + [e], scope, lo, hi)
         == Count(log, scope, lo, hi) + if Covers(scope, e) && lo <= e.time < hi then 1 else 0
  {
    assert (log + [e])[..|log|] == log;
  }

  lemma {:induction false} CountSplit(log: seq<Entry>, scope: Scope, lo: int, mid: int, hi: int)
    requires lo <= mid <= hi
    ensures Count(log, scope, lo, hi) == Count(log, scope, lo, mid) + Count(log, scope, mid, hi)
  {
    if log == [] {
    } else {
      CountSplit(log[..|log| - 1], scope, lo, mid, hi);
    }
  }

  lemma {:induction false} CountNone(log: seq<Entry>, scope: Scope, lo: int, hi: int)
    requires forall i :: 0 <= i < |log| && Covers(scope, log[i]) ==> !(lo <= log[i].time < hi)
    ensures Count(log, scope, lo, hi) == 0
  {
    if log == [] {
    } else {
      CountNone(log[..|log| - 1], scope, lo, hi);
    }
  }

  /** A window wholly after the last request of the scope is empty. */
  lemma EmptyAfter(log: seq<Entry>, scope: Scope, t: int, k: int, w: int)
    requires w > 0 && AllBy(log, scope, t) && Index(t, w) < k
    ensures InWindow(log, scope, k, w) == 0
  {
    Scaled(Index(t, w), k, w);
    CountNone(log, scope, k * w, (k + 1) * w);
  }

  /** Rolling the exact counters forward gives the exact counters again. */
  lemma RollExact(log: seq<Entry>, scope: Scope, t: int, now: int, w: int)
    requires w > 0 && t <= now && AllBy(log, scope, t)
    ensures RollWindow(Exact(log, scope, t, w), now, w) == Exact(log, scope, now, w)
  {
    var s := Exact(log, scope, t, w);
    RollIsRolled(s, now, w);
    RollByIndex(s, now, w);
    var k, m := Index(now, w), Index(now, w) - Index(t, w);
    if m == 1 {
      EmptyAfter(log, scope, t, k, w);
      assert InWindow(log, scope, k - 1, w) == s.current;
    } else if m > 1 {
      EmptyAfter(log, scope, t, k, w);
      EmptyAfter(log, scope, t, k - 1, w);
    }
  }

  /** A scope silent for two windows looks exactly like one never seen. */
  lemma ForgottenIsFresh(log: seq<Entry>, scope: Scope, now: int, w: int)
    requires w > 0
    requires forall i :: 0 <= i < |log| && Covers(scope, log[i]) ==> Index(log[i].time, w) + 2 <= Index(now, w)
    ensures Exact(log, scope, now, w) == CreateState(now, w)
  {
    var k := Index(now, w);
    forall i | 0 <= i < |log| && Covers(scope, log[i])
      ensures log[i].time < (k - 1) * w
    {
      Scaled(Index(log[i].time, w), k - 1, w);
    }
    Scaled(k - 1, k, w);
    CountNone(log, scope, k * w, (k + 1) * w);
    CountNone(log, scope, (k - 1) * w, k * w);
  }

  /** Counting one more request at `now` in the exact counters of `now`. */
  lemma ExactAppend(log: seq<Entry>, id: string, now: int, scope: Scope, w: int)
    requires w > 0
    ensures
      var before := Exact(log, scope, now, w);
      Exact(log + [Entry(id, now)], scope, now, w)
      == if Covers(scope, Entry(id, now)) then before.(current := before.current + 1) else before
  {
    var k := Index(now, w);
    var e := Entry(id, now);
    Scaled(k - 1, k, w);
    CountAppend(log, e, scope, k * w, (k + 1) * w);
    CountAppend(log, e, scope, (k - 1) * w, k * w);
  }

  /** A request of another attestor does not show in the exact counters. */
  lemma ExactAppendOther(log: seq<Entry>, e: Entry, scope: Scope, now: int, w: int)
    requires w > 0 && !Covers(scope, e)
    ensures Exact(log + [e], scope, now, w) == Exact(log, scope, now, w)
  {
    var k := Index(now, w);
    CountAppend(log, e, scope, k * w, (k + 1) * w);
    CountAppend(log, e, scope, (k - 1) * w, k * w);
  }
}
