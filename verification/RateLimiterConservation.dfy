/** The global counters are the sum of the attestors' counters, although windows roll
    lazily and idle attestors are forgotten. */
module RateLimiterConservation {
  import opened SlidingWindow
  import opened RequestLog
  import opened RateLimiterModel
  import opened RateLimiterRefinement
  import opened RateLimiterRetention

  ghost function Sum(ids: set<string>, f: string -> nat): nat {
    if ids == {} then 0
    else
      var id :| id in ids;
      f(id) + Sum(ids - {id}, f)
  }

  lemma {:induction false} SumRemove(ids: set<string>, f: string -> nat, id: string)
    requires id in ids
    ensures Sum(ids, f) == f(id) + Sum(ids - {id}, f)
    decreases |ids|
  {
    var first :| first in ids && Sum(ids, f) == f(first) + Sum(ids - {first}, f);
    if first != id {
      SumRemove(ids - {first}, f, id);
      SumRemove(ids - {id}, f, first);
      assert ids - {first} - {id} == ids - {id} - {first};
    }
  }

  lemma {:induction false} SumSame(ids: set<string>, f: string -> nat, g: string -> nat)
    requires forall id :: id in ids ==> f(id) == g(id)
    ensures Sum(ids, f) == Sum(ids, g)
    decreases |ids|
  {
    if ids == {} {
    } else {
      var id :| id in ids;
      SumRemove(ids, f, id);
      SumRemove(ids, g, id);
      SumSame(ids - {id}, f, g);
    }
  }

  /** Requests of one attestor in [lo, hi). */
  function ByAttestorIn(log: seq<Entry>, lo: int, hi: int): string -> nat {
    id => Count(log, Attestor(id), lo, hi)
  }

  lemma {:induction false} SumZero(ids: set<string>, lo: int, hi: int)
    ensures Sum(ids, ByAttestorIn([], lo, hi)) == 0
    decreases |ids|
  {
    if ids == {} {
    } else {
      var id :| id in ids;
      SumRemove(ids, ByAttestorIn([], lo, hi), id);
      SumZero(ids - {id}, lo, hi);
    }
  }

  /** Whoever else is counted, the requests of [lo, hi) are those of the attestors in `ids`,
      provided all of them come from `ids`. */
  lemma {:induction false} SumIsEveryone(ids: set<string>, log: seq<Entry>, lo: int, hi: int)
    requires forall i :: 0 <= i < |log| && lo <= log[i].time < hi ==> log[i].id in ids
    ensures Sum(ids, ByAttestorIn(log, lo, hi)) == Count(log, Everyone, lo, hi)
    decreases |log|
  {
    if log == [] {
      SumZero(ids, lo, hi);
    } else {
      var rest, last := log[..|log| - 1], log[|log| - 1];
      SumIsEveryone(ids, rest, lo, hi);
      var f, g := ByAttestorIn(log, lo, hi), ByAttestorIn(rest, lo, hi);
      if lo <= last.time < hi {
        SumRemove(ids, f, last.id);
        SumRemove(ids, g, last.id);
        SumSame(ids - {last.id}, f, g);
      } else {
        SumSame(ids, f, g);
      }
    }
  }

  /** Current and previous counter of a tracked attestor once rolled to `now`. */
  function Current(tracked: map<string, Window>, now: int, w: int): string -> nat
    requires w > 0
  {
    id => if id in tracked then RollWindow(tracked[id], now, w).current else 0
  }

  function Previous(tracked: map<string, Window>, now: int, w: int): string -> nat
    requires w > 0
  {
    id => if id in tracked then RollWindow(tracked[id], now, w).previous else 0
  }

  lemma SumInWindow(cfg: Config, st: State, log: seq<Entry>, k: int)
    requires ValidConfig(cfg)
    requires forall i :: 0 <= i < |log| && Index(log[i].time, cfg.windowMs) == k ==> log[i].id in st.perAttestor
    ensures Sum(st.perAttestor.Keys, ByAttestorIn(log, k * cfg.windowMs, (k + 1) * cfg.windowMs))
         == InWindow(log, Everyone, k, cfg.windowMs)
  {
    var w := cfg.windowMs;
    forall i | 0 <= i < |log| && k * w <= log[i].time < (k + 1) * w
      ensures log[i].id in st.perAttestor
    {
      IndexUnique(log[i].time, w, k);
    }
    SumIsEveryone(st.perAttestor.Keys, log, k * w, (k + 1) * w);
  }

  /** Whoever made a request in this window is tracked, if counters are kept for a window. */
  lemma CurrentTracked(cfg: Config, st: State, log: seq<Entry>, t: int, i: nat)
    requires ValidConfig(cfg) && KeepsWindow(cfg) && Knows(cfg, st, log, t)
    requires i < |log| && Index(log[i].time, cfg.windowMs) == Index(t, cfg.windowMs)
    ensures log[i].id in st.perAttestor
  {
  }

  lemma CurrentSums(cfg: Config, st: State, log: seq<Entry>, t: int)
    requires ValidConfig(cfg) && KeepsWindow(cfg) && Knows(cfg, st, log, t)
    ensures RollWindow(st.global, t, cfg.windowMs).current
         == Sum(st.perAttestor.Keys, Current(st.perAttestor, t, cfg.windowMs))
  {
    var w, k := cfg.windowMs, Index(t, cfg.windowMs);
    RollExact(log, Everyone, st.global.lastSeen, t, w);
    forall i | 0 <= i < |log| && Index(log[i].time, w) == k ensures log[i].id in st.perAttestor {
      CurrentTracked(cfg, st, log, t, i);
    }
    SumInWindow(cfg, st, log, k);
    var f, g := Current(st.perAttestor, t, w), ByAttestorIn(log, k * w, (k + 1) * w);
    forall id | id in st.perAttestor.Keys ensures f(id) == g(id) {
      FoundHolds(cfg, st, log, id, t);
    }
    SumSame(st.perAttestor.Keys, f, g);
  }

  lemma PreviousSums(cfg: Config, st: State, log: seq<Entry>, t: int)
    requires ValidConfig(cfg) && Refines(cfg, st, log, t)
    ensures RollWindow(st.global, t, cfg.windowMs).previous
         == Sum(st.perAttestor.Keys, Previous(st.perAttestor, t, cfg.windowMs))
  {
    var w, k := cfg.windowMs, Index(t, cfg.windowMs) - 1;
    RollExact(log, Everyone, st.global.lastSeen, t, w);
    SumInWindow(cfg, st, log, k);
    var f, g := Previous(st.perAttestor, t, w), ByAttestorIn(log, k * w, (k + 1) * w);
    forall id | id in st.perAttestor.Keys ensures f(id) == g(id) {
      FoundIsExact(cfg, st, log, id, t);
    }
    SumSame(st.perAttestor.Keys, f, g);
  }

  /** Conservation: at the end of every run, rolled to that moment, the global counters are
      the sums of the counters of the attestors still tracked: the current ones if counters
      are kept for a window, the previous ones too if they are kept for two. */
  lemma GlobalIsSum(cfg: Config, t0: int, ops: seq<Op>)
    requires ValidConfig(cfg) && KeepsWindow(cfg) && Ordered(t0, ops)
    ensures
      var st, t, w := Run(cfg, InitialState(cfg, t0), ops), Latest(t0, ops), cfg.windowMs;
      && RollWindow(st.global, t, w).current == Sum(st.perAttestor.Keys, Current(st.perAttestor, t, w))
      && (KeepsTwoWindows(cfg) ==>
            RollWindow(st.global, t, w).previous == Sum(st.perAttestor.Keys, Previous(st.perAttestor, t, w)))
  {
    var st := Run(cfg, InitialState(cfg, t0), ops);
    RunSound(cfg, t0, ops);
    CurrentSums(cfg, st, AcceptedInRun(cfg, t0, ops), Latest(t0, ops));
    if KeepsTwoWindows(cfg) {
      RunRefines(cfg, t0, ops);
      PreviousSums(cfg, st, LogRun(cfg, [], ops), Latest(t0, ops));
    }
  }
}
