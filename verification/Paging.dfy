/** Reading a history page by page while the contract keeps running
    (`list_attestation_history` of `src/storage.rs`). */
module Paging {
  import opened Prelude
  import opened ContractModel
  import opened ContractProofs

  function Reversed<T>(s: seq<T>): (r: seq<T>)
    ensures |r| == |s|
    ensures forall i :: 0 <= i < |s| ==> r[i] == s[|s| - 1 - i]
  {
    if s == [] then [] else [s[|s| - 1]] + Reversed(s[..|s| - 1])
  }

  /** The page of history h that starts at number `start`. Number 0 names no entry, but a
      forward page that starts there spends one of its places on it. */
  function Page(h: seq<HistoryEntry>, start: nat, limit: nat, reverse: bool): seq<HistoryEntry>
    requires limit > 0
  {
    if start > |h| then []
    else if reverse then Reversed(h[Most(0, start - limit)..start])
    else h[Most(start, 1) - 1..Most(Most(start, 1) - 1, Least(start + limit - 1, |h|))]
  }

  /** A page, entry by entry: forward from number `start`, or backward down from it, at most
      `limit` entries; nothing beyond the end. */
  lemma PageMeans(h: seq<HistoryEntry>, start: nat, limit: nat, reverse: bool)
    requires limit > 0
    ensures
      var page := Page(h, start, limit, reverse);
      && (start > |h| ==> page == [])
      && (!reverse && 1 <= start <= |h| ==>
            |page| == Least(limit, |h| - start + 1) && forall i :: 0 <= i < |page| ==> page[i] == h[start + i - 1])
      && (!reverse && start == 0 ==>
            |page| == Least(limit - 1, |h|) && forall i :: 0 <= i < |page| ==> page[i] == h[i])
      && (reverse && start <= |h| ==>
            |page| == Least(limit, start) && forall i :: 0 <= i < |page| ==> page[i] == h[start - i - 1])
  {
  }

  /** The same of the stored history of p. */
  ghost predicate IsPage(st: State, p: Pair, start: nat, limit: nat, reverse: bool, page: seq<HistoryEntry>)
    requires Keyed(st) && limit > 0
  {
    var n := Seq(st, p);
    if start > n then page == []
    else if reverse then
      |page| == Least(limit, start)
      && forall i :: 0 <= i < |page| ==> (p, start - i) in st.history && page[i] == st.history[(p, start - i)]
    else if start > 0 then
      |page| == Least(limit, n - start + 1)
      && forall i :: 0 <= i < |page| ==> (p, start + i) in st.history && page[i] == st.history[(p, start + i)]
    else
      |page| == Least(limit - 1, n)
      && forall i :: 0 <= i < |page| ==> (p, i + 1) in st.history && page[i] == st.history[(p, i + 1)]
  }

  lemma StoredAt(st: State, p: Pair, k: nat)
    requires Keyed(st) && 1 <= k <= Seq(st, p)
    ensures (p, k) in st.history && HistoryOf(st, p)[k - 1] == st.history[(p, k)]
  {
    assert (p, (k - 1) + 1) in st.history;
  }

  lemma PageOfHistory(st: State, p: Pair, start: nat, limit: nat, reverse: bool)
    requires Keyed(st) && limit > 0
    ensures IsPage(st, p, start, limit, reverse, Page(HistoryOf(st, p), start, limit, reverse))
  {
    var h := HistoryOf(st, p);
    var page := Page(h, start, limit, reverse);
    PageMeans(h, start, limit, reverse);
    if start > |h| {
    } else if reverse {
      forall i | 0 <= i < |page| ensures (p, start - i) in st.history && page[i] == st.history[(p, start - i)] {
        StoredAt(st, p, start - i);
      }
    } else {
      var first := Most(start, 1);
      forall i | 0 <= i < |page| ensures (p, first + i) in st.history && page[i] == st.history[(p, first + i)] {
        StoredAt(st, p, first + i);
      }
    }
  }

  /** `list_attestation_history`, over the stored map. */
  method ListHistory(st: State, p: Pair, start: U64, limit: nat, reverse: bool)
    returns (r: Result<seq<HistoryEntry>, Error>)
    requires Keyed(st)
    ensures limit == 0 ==> r == Err(InvalidPagination)
    ensures limit > 0 ==> r.Ok? && IsPage(st, p, start, limit, reverse, r.value)
    ensures limit > 0 ==> r == Ok(Page(HistoryOf(st, p), start, limit, reverse))
  {
    if limit == 0 {
      return Err(InvalidPagination);
    }
    PageOfHistory(st, p, start, limit, reverse);
    var total := if p in st.seqs then st.seqs[p] else 0;
    if total == 0 || start > total {
      return Ok([]);
    }
    var results: seq<HistoryEntry>;
    if reverse {
      results := NewestFirst(st, p, start, limit);
    } else {
      results := OldestFirst(st, p, start, limit, total);
    }
    return Ok(results);
  }

  method NewestFirst(st: State, p: Pair, start: nat, limit: nat) returns (results: seq<HistoryEntry>)
    requires Keyed(st) && limit > 0 && start <= Seq(st, p)
    ensures results == Page(HistoryOf(st, p), start, limit, true)
  {
    ghost var h := HistoryOf(st, p);
    results := [];
    var current := start;
    for i := 0 to limit
      invariant current == Most(0, start - i)
      invariant results == Reversed(h[current..start])
    {
      if current == 0 {
        break;
      }
      ghost var k := current - 1;
      assert h[k] == st.history[(p, k + 1)] && [h[k]] + h[current..start] == h[k..start];
      ReversedCons(h[k], h[current..start]);
      if (p, current) in st.history {
        results := results + [st.history[(p, current)]];
      }
      current := current - 1;
    }
  }

  method OldestFirst(st: State, p: Pair, start: nat, limit: nat, total: nat) returns (results: seq<HistoryEntry>)
    requires Keyed(st) && limit > 0 && start <= total == Seq(st, p)
    ensures results == Page(HistoryOf(st, p), start, limit, false)
  {
    ghost var h := HistoryOf(st, p);
    ghost var lo := Most(start, 1) - 1;
    results := [];
    var i := 0;
    while i < limit
      invariant 0 <= i <= limit && start + i - 1 <= |h|
      invariant results == h[lo..Most(lo, start + i - 1)]
    {
      var current := start + i;
      if current > total {
        break;
      }
      assert (p, current) in st.history <==> 1 <= current;
      if (p, current) in st.history {
        assert h[current - 1] == st.history[(p, (current - 1) + 1)];
        SliceSnoc(h, lo, current - 1);
        results := results + [st.history[(p, current)]];
      }
      i := i + 1;
    }
  }

  lemma SliceSnoc<T>(s: seq<T>, lo: nat, k: nat)
    requires lo <= k < |s|
    ensures s[lo..k] + [s[k]] == s[lo..k + 1]
  {
  }

  lemma {:induction false} ReversedCons<T>(x: T, s: seq<T>)
    ensures Reversed([x] + s) == Reversed(s) + [x]
  {
  }

  // --- Walks ------------------------------------------------------------------

  /** What the reader sees of one history: each request finds it at least as long as before. */
  ghost predicate Growing(hs: seq<seq<HistoryEntry>>) {
    forall i, j :: 0 <= i <= j < |hs| ==> hs[i] <= hs[j]
  }

  ghost predicate Numbered(h: seq<HistoryEntry>) {
    forall i :: 0 <= i < |h| ==> h[i].sequence == i + 1
  }

  /** A reader's n-th request finds history hs[n] and asks for at most limits[n] entries. */
  ghost predicate Asked(hs: seq<seq<HistoryEntry>>, limits: seq<nat>) {
    |hs| == |limits| && forall i :: 0 <= i < |limits| ==> limits[i] > 0
  }

  ghost predicate Readable(hs: seq<seq<HistoryEntry>>, limits: seq<nat>) {
    && Asked(hs, limits)
    && Growing(hs)
    && (forall i :: 0 <= i < |hs| ==> Numbered(hs[i]))
  }

  /** Where a forward reader goes on after a page. */
  function After(c: nat, page: seq<HistoryEntry>): nat {
    if page == [] then c else page[|page| - 1].sequence + 1
  }

  /** Where a backward reader goes on. */
  function Before(c: nat, page: seq<HistoryEntry>): nat {
    if page == [] || page[|page| - 1].sequence == 0 then c else page[|page| - 1].sequence - 1
  }

  /** Forward: start at 1, go on after the last number seen. After n pages, where the reader
      goes on and what it has read. */
  ghost function Walked(hs: seq<seq<HistoryEntry>>, limits: seq<nat>, n: nat): (nat, seq<HistoryEntry>)
    requires Asked(hs, limits) && n <= |hs|
  {
    if n == 0 then (1, [])
    else
      var (c, held) := Walked(hs, limits, n - 1);
      var page := Page(hs[n - 1], c, limits[n - 1], false);
      (After(c, page), held + page)
  }

  ghost function Cursor(hs: seq<seq<HistoryEntry>>, limits: seq<nat>, n: nat): nat
    requires Asked(hs, limits) && n <= |hs|
  {
    Walked(hs, limits, n).0
  }

  ghost function Collected(hs: seq<seq<HistoryEntry>>, limits: seq<nat>, n: nat): seq<HistoryEntry>
    requires Asked(hs, limits) && n <= |hs|
  {
    Walked(hs, limits, n).1
  }

  /** The answer to request number n, counted from 0. */
  ghost function PageAt(hs: seq<seq<HistoryEntry>>, limits: seq<nat>, n: nat): seq<HistoryEntry>
    requires Asked(hs, limits) && n < |hs|
  {
    Page(hs[n], Cursor(hs, limits, n), limits[n], false)
  }

  /** The reader holds exactly the first c - 1 entries of h. */
  ghost predicate Holds(h: seq<HistoryEntry>, c: nat, held: seq<HistoryEntry>) {
    1 <= c <= |h| + 1 && held == h[..c - 1]
  }

  /** One more forward page keeps that, and is empty only at the end of h. */
  lemma ForwardPage(h: seq<HistoryEntry>, c: nat, held: seq<HistoryEntry>, limit: nat)
    requires Numbered(h) && limit > 0 && Holds(h, c, held)
    ensures
      var page := Page(h, c, limit, false);
      && Holds(h, After(c, page), held + page)
      && (page == [] <==> c - 1 == |h|)
  {
    var page := Page(h, c, limit, false);
    assert h[..c - 1] + page == h[..c - 1 + |page|];
  }

  lemma HoldsLater(h: seq<HistoryEntry>, h': seq<HistoryEntry>, c: nat, held: seq<HistoryEntry>)
    requires h <= h' && Holds(h, c, held)
    ensures Holds(h', c, held)
  {
  }

  lemma WalkedStep(hs: seq<seq<HistoryEntry>>, limits: seq<nat>, n: nat)
    requires Asked(hs, limits) && n < |hs|
    ensures
      var page := PageAt(hs, limits, n);
      && Cursor(hs, limits, n + 1) == After(Cursor(hs, limits, n), page)
      && Collected(hs, limits, n + 1) == Collected(hs, limits, n) + page
  {
  }

  /** After n pages the reader holds exactly the first cursor - 1 entries of every history
      from then on. */
  lemma {:induction false} ForwardWalk(hs: seq<seq<HistoryEntry>>, limits: seq<nat>, n: nat, m: nat)
    requires Readable(hs, limits) && n <= m + 1 && m < |hs|
    ensures Holds(hs[m], Cursor(hs, limits, n), Collected(hs, limits, n))
    decreases n
  {
    if n == 0 {
    } else {
      var h, c, held := hs[n - 1], Cursor(hs, limits, n - 1), Collected(hs, limits, n - 1);
      ForwardWalk(hs, limits, n - 1, n - 1);
      ForwardPage(h, c, held, limits[n - 1]);
      WalkedStep(hs, limits, n - 1);
      HoldsLater(h, hs[m], Cursor(hs, limits, n), Collected(hs, limits, n));
    }
  }

  /** Reading forward while the contract runs: the pages joined are a gap-free, repeat-free
      prefix of every later history; the walk stops only at the then-current end; and it
      stops, since each full page moves it on. */
  lemma ForwardWalkExact(hs: seq<seq<HistoryEntry>>, limits: seq<nat>, n: nat, m: nat)
    requires Readable(hs, limits) && 0 < n <= m < |hs| + 1
    ensures Collected(hs, limits, n) <= hs[m - 1]
    ensures PageAt(hs, limits, n - 1) == [] ==> Collected(hs, limits, n) == hs[n - 1]
    ensures (forall k :: 0 <= k < n ==> PageAt(hs, limits, k) != []) ==> n <= |Collected(hs, limits, n)| <= |hs[n - 1]|
  {
    ForwardWalk(hs, limits, n, m - 1);
    ForwardWalk(hs, limits, n, n - 1);
    EndsAtEnd(hs, limits, n - 1);
    if |Collected(hs, limits, n)| < n {
      var k := SomeEmptyPage(hs, limits, n);
    }
  }

  /** An empty page comes only when everything has been read. */
  lemma EndsAtEnd(hs: seq<seq<HistoryEntry>>, limits: seq<nat>, n: nat)
    requires Readable(hs, limits) && n < |hs|
    ensures PageAt(hs, limits, n) == [] ==> Collected(hs, limits, n + 1) == hs[n]
  {
    var c, held := Cursor(hs, limits, n), Collected(hs, limits, n);
    ForwardWalk(hs, limits, n, n);
    ForwardPage(hs[n], c, held, limits[n]);
    WalkedStep(hs, limits, n);
  }

  lemma EmptyOrMore(hs: seq<seq<HistoryEntry>>, limits: seq<nat>, n: nat)
    requires Asked(hs, limits) && n < |hs|
    ensures PageAt(hs, limits, n) == [] || |Collected(hs, limits, n + 1)| > |Collected(hs, limits, n)|
  {
    WalkedStep(hs, limits, n);
  }

  /** A reader with fewer entries than pages has had an empty page. */
  lemma {:induction false} SomeEmptyPage(hs: seq<seq<HistoryEntry>>, limits: seq<nat>, n: nat) returns (k: nat)
    requires Asked(hs, limits) && 0 < n <= |hs| && |Collected(hs, limits, n)| < n
    ensures k < n && PageAt(hs, limits, k) == []
    decreases n
  {
    k := n - 1;
    EmptyOrMore(hs, limits, k);
    if PageAt(hs, limits, k) != [] {
      k := SomeEmptyPage(hs, limits, k);
    }
  }

  /** Backward: start at the length of the first history seen, go on below the last number. */
  ghost function WalkedBack(hs: seq<seq<HistoryEntry>>, limits: seq<nat>, n: nat): (nat, seq<HistoryEntry>)
    requires Asked(hs, limits) && 0 < |hs| && n <= |hs|
  {
    if n == 0 then (|hs[0]|, [])
    else
      var (c, held) := WalkedBack(hs, limits, n - 1);
      var page := Page(hs[n - 1], c, limits[n - 1], true);
      (Before(c, page), held + page)
  }

  ghost function BackCursor(hs: seq<seq<HistoryEntry>>, limits: seq<nat>, n: nat): nat
    requires Asked(hs, limits) && 0 < |hs| && n <= |hs|
  {
    WalkedBack(hs, limits, n).0
  }

  ghost function BackCollected(hs: seq<seq<HistoryEntry>>, limits: seq<nat>, n: nat): seq<HistoryEntry>
    requires Asked(hs, limits) && 0 < |hs| && n <= |hs|
  {
    WalkedBack(hs, limits, n).1
  }

  ghost function BackPage(hs: seq<seq<HistoryEntry>>, limits: seq<nat>, n: nat): seq<HistoryEntry>
    requires Asked(hs, limits) && n < |hs|
  {
    Page(hs[n], BackCursor(hs, limits, n), limits[n], true)
  }

  lemma ReversedConcat<T>(a: seq<T>, b: seq<T>)
    ensures Reversed(a + b) == Reversed(b) + Reversed(a)
  {
  }

  /** The number below a backward page. */
  lemma BelowPage(h: seq<HistoryEntry>, c: nat, limit: nat)
    requires Numbered(h) && limit > 0 && c <= |h|
    ensures
      var page := Page(h, c, limit, true);
      Before(c, page) == (if c < limit then 0 else c - limit) && (page == [] <==> c == 0)
  {
    var page := Page(h, c, limit, true);
    PageMeans(h, c, limit, true);
    if c > 0 {
      assert page[|page| - 1] == h[c - |page|];
    }
  }

  /** One backward page below c, of a history that has grown since. */
  lemma BackwardPage(h0: seq<HistoryEntry>, h: seq<HistoryEntry>, c: nat, held: seq<HistoryEntry>, limit: nat)
    requires Numbered(h) && h0 <= h && limit > 0 && c <= |h0| && held == Reversed(h0[c..])
    ensures
      var page := Page(h, c, limit, true);
      && Before(c, page) == (if c < limit then 0 else c - limit)
      && held + page == Reversed(h0[Before(c, page)..])
      && (page == [] <==> c == 0)
  {
    var lo := if c < limit then 0 else c - limit;
    var page := Page(h, c, limit, true);
    assert page == Reversed(h[lo..c]) && h[lo..c] == h0[lo..c];
    assert h0[lo..] == h0[lo..c] + h0[c..];
    ReversedConcat(h0[lo..c], h0[c..]);
    BelowPage(h, c, limit);
  }

  lemma WalkedBackStep(hs: seq<seq<HistoryEntry>>, limits: seq<nat>, n: nat)
    requires Asked(hs, limits) && n < |hs|
    ensures
      var page := BackPage(hs, limits, n);
      && BackCursor(hs, limits, n + 1) == Before(BackCursor(hs, limits, n), page)
      && BackCollected(hs, limits, n + 1) == BackCollected(hs, limits, n) + page
  {
  }

  /** Reading backward from the length of the history at the first request: whatever is
      appended meanwhile, the pages joined are exactly that history reversed, as far as the
      cursor has come down. */
  lemma {:induction false} BackwardWalk(hs: seq<seq<HistoryEntry>>, limits: seq<nat>, n: nat)
    requires Readable(hs, limits) && 0 < |hs| && n <= |hs|
    ensures BackCursor(hs, limits, n) <= |hs[0]|
    ensures BackCollected(hs, limits, n) == Reversed(hs[0][BackCursor(hs, limits, n)..])
    decreases n
  {
    if n == 0 {
    } else {
      BackwardWalk(hs, limits, n - 1);
      BackwardPage(hs[0], hs[n - 1], BackCursor(hs, limits, n - 1), BackCollected(hs, limits, n - 1), limits[n - 1]);
      WalkedBackStep(hs, limits, n - 1);
    }
  }

  /** Every page moves the cursor down by the number asked for, to zero at the lowest, and
      only a finished walk gets an empty page. */
  lemma CursorMoves(hs: seq<seq<HistoryEntry>>, limits: seq<nat>, n: nat)
    requires Readable(hs, limits) && n < |hs|
    ensures BackCursor(hs, limits, n + 1) == Most(0, BackCursor(hs, limits, n) - limits[n])
    ensures BackPage(hs, limits, n) == [] <==> BackCursor(hs, limits, n) == 0
  {
    BackwardWalk(hs, limits, n);
    BackwardPage(hs[0], hs[n], BackCursor(hs, limits, n), BackCollected(hs, limits, n), limits[n]);
    WalkedBackStep(hs, limits, n);
  }

  lemma {:induction false} CursorFalls(hs: seq<seq<HistoryEntry>>, limits: seq<nat>, n: nat)
    requires Readable(hs, limits) && 0 < |hs| && n <= |hs|
    ensures BackCursor(hs, limits, n) <= Most(0, |hs[0]| - n)
    decreases n
  {
    if n == 0 {
    } else {
      CursorFalls(hs, limits, n - 1);
      CursorMoves(hs, limits, n - 1);
    }
  }

  /** The backward walk is complete within as many pages as there were entries, and an empty
      page comes exactly when it is complete. */
  lemma BackwardWalkEnds(hs: seq<seq<HistoryEntry>>, limits: seq<nat>, n: nat)
    requires Readable(hs, limits) && 0 < |hs| && n <= |hs|
    ensures n >= |hs[0]| ==> BackCollected(hs, limits, n) == Reversed(hs[0])
    ensures n < |hs| ==> (BackPage(hs, limits, n) == [] <==> BackCollected(hs, limits, n) == Reversed(hs[0]))
  {
    CursorFalls(hs, limits, n);
    AllRead(hs, limits, n);
    if n < |hs| {
      CursorMoves(hs, limits, n);
    }
  }

  lemma AllRead(hs: seq<seq<HistoryEntry>>, limits: seq<nat>, n: nat)
    requires Readable(hs, limits) && 0 < |hs| && n <= |hs|
    ensures BackCursor(hs, limits, n) == 0 <==> BackCollected(hs, limits, n) == Reversed(hs[0])
  {
    BackwardWalk(hs, limits, n);
    assert hs[0][0..] == hs[0];
    assert |BackCollected(hs, limits, n)| == |hs[0]| - BackCursor(hs, limits, n);
  }

  // --- Walks over a run ---------------------------------------------------------

  /** The history of p after each of the given numbers of invocations. */
  ghost function Seen(invs: seq<Invocation>, t: U64, cuts: seq<nat>, p: Pair): (hs: seq<seq<HistoryEntry>>)
    requires Ordered(t, invs) && forall i :: 0 <= i < |cuts| ==> cuts[i] <= |invs|
    requires forall n :: 0 <= n <= |invs| ==> Keyed(Run(DEPLOYED, invs[..n]))
    ensures |hs| == |cuts|
    ensures forall i :: 0 <= i < |cuts| ==> hs[i] == HistoryOf(Run(DEPLOYED, invs[..cuts[i]]), p)
  {
    seq(|cuts|, i requires 0 <= i < |cuts| => HistoryOf(Run(DEPLOYED, invs[..cuts[i]]), p))
  }

  lemma PrefixesKeyed(t: U64, invs: seq<Invocation>)
    requires Ordered(t, invs)
    ensures forall n :: 0 <= n <= |invs| ==> Keyed(Run(DEPLOYED, invs[..n]))
  {
    forall n | 0 <= n <= |invs| ensures Keyed(Run(DEPLOYED, invs[..n])) {
      HistoriesOnlyGrow(t, invs, n, Pair("", ""));
    }
  }

  lemma GrowsBetween(t: U64, invs: seq<Invocation>, a: nat, b: nat, p: Pair)
    requires Ordered(t, invs) && a <= b <= |invs|
    ensures Keyed(Run(DEPLOYED, invs[..a])) && Keyed(Run(DEPLOYED, invs[..b]))
    ensures HistoryOf(Run(DEPLOYED, invs[..a]), p) <= HistoryOf(Run(DEPLOYED, invs[..b]), p)
  {
    SplitRun(DEPLOYED, t, invs, b);
    assert invs[..b][..a] == invs[..a];
    HistoriesOnlyGrow(t, invs[..b], a, p);
  }

  lemma NumberedAt(t: U64, invs: seq<Invocation>, a: nat, p: Pair)
    requires Ordered(t, invs) && a <= |invs|
    ensures Keyed(Run(DEPLOYED, invs[..a])) && Numbered(HistoryOf(Run(DEPLOYED, invs[..a]), p))
  {
    var part := invs[..a];
    SplitRun(DEPLOYED, t, invs, a);
    DeployedInv(t);
    RunInv(DEPLOYED, t, part);
    assert PairOk(Run(DEPLOYED, part), p, Latest(t, part));
  }

  /** Requests made in order during any run of the contract see a growing, numbered history,
      so both walk theorems apply to it. */
  lemma RunIsReadable(t: U64, invs: seq<Invocation>, cuts: seq<nat>, limits: seq<nat>, p: Pair)
    requires Ordered(t, invs) && |cuts| == |limits|
    requires forall i :: 0 <= i < |cuts| ==> cuts[i] <= |invs| && limits[i] > 0
    requires forall i, j :: 0 <= i <= j < |cuts| ==> cuts[i] <= cuts[j]
    ensures forall n :: 0 <= n <= |invs| ==> Keyed(Run(DEPLOYED, invs[..n]))
    ensures Readable(Seen(invs, t, cuts, p), limits)
  {
    PrefixesKeyed(t, invs);
    var hs := Seen(invs, t, cuts, p);
    forall i, j | 0 <= i <= j < |hs| ensures hs[i] <= hs[j] {
      GrowsBetween(t, invs, cuts[i], cuts[j], p);
    }
    forall i | 0 <= i < |hs| ensures Numbered(hs[i]) {
      NumberedAt(t, invs, cuts[i], p);
    }
  }

  /** Both walks over any run of the contract: what a forward reader has after n pages is a
      prefix of the final history, complete as of the request that came back empty; what a
      backward reader has after as many pages as there were entries is the history at its
      first request, newest first. */
  lemma WalksInRun(t: U64, invs: seq<Invocation>, cuts: seq<nat>, limits: seq<nat>, p: Pair, n: nat)
    requires Ordered(t, invs) && |cuts| == |limits| && 0 < n <= |cuts|
    requires forall i :: 0 <= i < |cuts| ==> cuts[i] <= |invs| && limits[i] > 0
    requires forall i, j :: 0 <= i <= j < |cuts| ==> cuts[i] <= cuts[j]
    ensures Keyed(Run(DEPLOYED, invs))
    ensures forall m :: 0 <= m <= |invs| ==> Keyed(Run(DEPLOYED, invs[..m]))
    ensures
      var hs := Seen(invs, t, cuts, p);
      && Readable(hs, limits)
      && Collected(hs, limits, n) <= HistoryOf(Run(DEPLOYED, invs), p)
      && (PageAt(hs, limits, n - 1) == [] ==> Collected(hs, limits, n) == hs[n - 1])
      && (n >= |hs[0]| ==> BackCollected(hs, limits, n) == Reversed(hs[0]))
  {
    RunIsReadable(t, invs, cuts, limits, p);
    var hs := Seen(invs, t, cuts, p);
    ForwardWalkExact(hs, limits, n, n);
    HistoriesOnlyGrow(t, invs, cuts[n - 1], p);
    BackwardWalkEnds(hs, limits, n);
  }
}
