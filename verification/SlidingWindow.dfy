/** The sliding-window counter of `sdk/src/services/rateLimiter.ts`: one key keeps two
    adjacent fixed windows, rolls them lazily, and estimates the load as a blend of both. */
module SlidingWindow {

  /** Counter state of one key (`RateLimitState`). Times are whole milliseconds. */
  datatype Window = Window(start: int, current: nat, previous: nat, lastSeen: int)

  /** Number of the fixed window that contains `now`. */
  function Index(now: int, w: int): (k: int)
    requires w > 0
    ensures k * w <= now < (k + 1) * w
  {
    now / w
  }

  function AlignToWindow(now: int, w: int): (start: int)
    requires w > 0
    ensures start <= now < start + w
  {
    Index(now, w) * w
  }

  function CreateState(now: int, w: int): (s: Window)
    requires w > 0
    ensures s.start == AlignToWindow(now, w)
    ensures s.current == 0 && s.previous == 0 && s.lastSeen == now
  {
    Window(AlignToWindow(now, w), 0, 0, now)
  }

  /** `Math.round(d / w)`: halves round up. */
  function RoundDiv(d: int, w: int): (r: int)
    requires w > 0
    ensures 2 * r * w <= 2 * d + w < 2 * (r + 1) * w
  {
    (2 * d + w) / (2 * w)
  }

  function RollWindow(s: Window, now: int, w: int): Window
    requires w > 0
  {
    var windowStart := AlignToWindow(now, w);
    var elapsedWindows := RoundDiv(windowStart - s.start, w);
    if elapsedWindows == 1 then
      Window(windowStart, 0, s.current, now)
    else if elapsedWindows > 1 then
      Window(windowStart, 0, 0, now)
    else
      s.(lastSeen := now)
  }

  function Max(a: real, b: real): real { if a < b then b else a }

  function Min(a: real, b: real): real { if a < b then a else b }

  function EstimateCount(s: Window, now: int, w: int): real
    requires w > 0
  {
    var elapsedInCurrent := (now - s.start) as real;
    var overlap := Min(1.0, Max(0.0, 1.0 - elapsedInCurrent / w as real));
    s.previous as real * overlap + s.current as real
  }

  // --- Window arithmetic --------------------------------------------------

  lemma NonNegativeProduct(a: int, b: int)
    requires a >= 0 && b >= 0
    ensures a * b >= 0
  {
  }

  lemma Scaled(a: int, b: int, w: int)
    requires w > 0
    ensures a < b ==> a * w + w <= b * w
    ensures a <= b ==> a * w <= b * w
  {
    if a < b {
      NonNegativeProduct(b - a - 1, w);
      assert b * w == a * w + w + (b - a - 1) * w;
    }
  }

  lemma IndexUnique(now: int, w: int, k: int)
    requires w > 0
    requires k * w <= now < (k + 1) * w
    ensures Index(now, w) == k
  {
    Scaled(Index(now, w), k, w);
    Scaled(k, Index(now, w), w);
  }

  /** The start of a time's window is the one multiple of the window length that has the time
      within the length after it. */
  lemma AlignIff(now: int, w: int, start: int)
    requires w > 0
    ensures start == AlignToWindow(now, w) <==> (exists k :: start == k * w) && start <= now < start + w
  {
    if start <= now < start + w && exists k :: start == k * w {
      var k :| start == k * w;
      assert (k + 1) * w == start + w;
      IndexUnique(now, w, k);
    }
  }

  lemma IndexMonotone(a: int, b: int, w: int)
    requires w > 0 && a <= b
    ensures Index(a, w) <= Index(b, w)
    ensures AlignToWindow(a, w) <= AlignToWindow(b, w)
  {
    Scaled(Index(b, w), Index(a, w), w);
    Scaled(Index(a, w), Index(b, w), w);
  }

  /** Two full windows of silence always move the index by at least two. */
  lemma IndexAfterTwoWindows(a: int, b: int, w: int)
    requires w > 0 && b - a >= 2 * w
    ensures Index(a, w) + 2 <= Index(b, w)
  {
    Scaled(Index(b, w), Index(a, w) + 2, w);
    assert (Index(a, w) + 2) * w == Index(a, w) * w + 2 * w;
  }

  lemma RoundExact(m: int, w: int)
    requires w > 0
    ensures RoundDiv(m * w, w) == m
  {
    var r := RoundDiv(m * w, w);
    Scaled(r, m, w);
    Scaled(m, r, w);
    assert 2 * (r + 1) * w == 2 * (r * w) + 2 * w;
    assert 2 * r * w == 2 * (r * w);
  }

  /** For an aligned state rolling is a case split on how many windows the index moved; a
      clock that has gone back moves nothing. */
  lemma RollByIndex(s: Window, now: int, w: int)
    requires w > 0
    requires s.start == Index(s.start, w) * w
    ensures
      var m := Index(now, w) - Index(s.start, w);
      && (s.start <= now ==> m >= 0)
      && RollWindow(s, now, w) ==
         if m <= 0 then s.(lastSeen := now)
         else if m == 1 then Window(AlignToWindow(now, w), 0, s.current, now)
         else Window(AlignToWindow(now, w), 0, 0, now)
  {
    if s.start <= now {
      IndexMonotone(s.start, now, w);
    }
    var m := Index(now, w) - Index(s.start, w);
    assert AlignToWindow(now, w) - s.start == m * w;
    RoundExact(m, w);
  }

  /** A state as `CreateState` and `RollWindow` leave it: its window is the one of `lastSeen`. */
  ghost predicate Rolled(s: Window, w: int)
    requires w > 0
  {
    s.start == AlignToWindow(s.lastSeen, w)
  }

  lemma RollIsRolled(s: Window, now: int, w: int)
    requires w > 0 && Rolled(s, w) && s.lastSeen <= now
    ensures Rolled(RollWindow(s, now, w), w)
    ensures s.start == Index(s.start, w) * w && Index(s.start, w) == Index(s.lastSeen, w)
  {
    var k := Index(s.lastSeen, w);
    IndexUnique(k * w, w, k);
    RollByIndex(s, now, w);
  }

  /** roll(roll(s, t1), t2) = roll(s, t2): intermediate rolls leave no trace. */
  lemma RollCompose(s: Window, t1: int, t2: int, w: int)
    requires w > 0 && Rolled(s, w) && s.lastSeen <= t1 <= t2
    ensures RollWindow(RollWindow(s, t1, w), t2, w) == RollWindow(s, t2, w)
  {
    var mid := RollWindow(s, t1, w);
    RollIsRolled(s, t1, w);
    RollIsRolled(mid, t2, w);
    RollByIndex(s, t1, w);
    RollByIndex(s, t2, w);
    RollByIndex(mid, t2, w);
  }

  lemma RollEmpty(s: Window, now: int, w: int)
    requires w > 0 && Rolled(s, w) && s.lastSeen <= now && s.current == 0 && s.previous == 0
    ensures RollWindow(s, now, w).current == 0 && RollWindow(s, now, w).previous == 0
  {
    RollIsRolled(s, now, w);
    RollByIndex(s, now, w);
  }

  lemma RollNow(s: Window, w: int)
    requires w > 0 && Rolled(s, w)
    ensures RollWindow(s, s.lastSeen, w) == s
  {
    RollIsRolled(s, s.lastSeen, w);
    RollByIndex(s, s.lastSeen, w);
  }

  // --- The estimate -------------------------------------------------------

  lemma MulMonotone(x: real, a: real, b: real)
    requires x >= 0.0 && a <= b
    ensures x * a <= x * b
  {
  }

  lemma DivMonotone(a: real, b: real, w: real)
    requires w > 0.0 && a <= b
    ensures a / w <= b / w
  {
  }

  /** Inside the current window the estimate is previous * (1 - e/w) + current. */
  lemma EstimateInWindow(s: Window, now: int, w: int)
    requires w > 0 && s.start <= now < s.start + w
    ensures 0.0 <= (now - s.start) as real / w as real < 1.0
    ensures EstimateCount(s, now, w) ==
            s.previous as real * (1.0 - (now - s.start) as real / w as real) + s.current as real
  {
    var e := (now - s.start) as real;
    DivMonotone(0.0, e, w as real);
    assert e <= w as real - 1.0;
    DivMonotone(e, w as real - 1.0, w as real);
    assert (w as real - 1.0) / w as real == 1.0 - 1.0 / w as real;
  }

  /** Before the current window the previous one weighs in full, after it not at all. */
  lemma EstimateOutside(s: Window, now: int, w: int)
    requires w > 0 && !(s.start <= now < s.start + w)
    ensures EstimateCount(s, now, w) ==
            if now < s.start then s.previous as real + s.current as real else s.current as real
  {
    var e := (now - s.start) as real;
    if now < s.start {
      DivMonotone(e, 0.0, w as real);
    } else {
      DivMonotone(w as real, e, w as real);
    }
  }

  lemma EstimateNonNegative(s: Window, now: int, w: int)
    requires w > 0
    ensures EstimateCount(s, now, w) >= s.current as real
  {
    var overlap := Min(1.0, Max(0.0, 1.0 - (now - s.start) as real / w as real));
    MulMonotone(s.previous as real, 0.0, overlap);
  }

  lemma EstimateAtMostBoth(s: Window, now: int, w: int)
    requires w > 0
    ensures EstimateCount(s, now, w) <= s.previous as real + s.current as real
  {
    var overlap := Min(1.0, Max(0.0, 1.0 - (now - s.start) as real / w as real));
    MulMonotone(s.previous as real, overlap, 1.0);
  }

  lemma EstimateDecaysInWindow(s: Window, t1: int, t2: int, w: int)
    requires w > 0 && s.start <= t1 <= t2 < s.start + w
    ensures EstimateCount(s, t2, w) <= EstimateCount(s, t1, w)
  {
    EstimateInWindow(s, t1, w);
    EstimateInWindow(s, t2, w);
    DivMonotone((t1 - s.start) as real, (t2 - s.start) as real, w as real);
    MulMonotone(s.previous as real,
                1.0 - (t2 - s.start) as real / w as real, 1.0 - (t1 - s.start) as real / w as real);
  }

  /** Decay: with no request counted in between, the estimate never rises with time, even
      across window boundaries. */
  lemma EstimateDecays(s: Window, now: int, w: int)
    requires w > 0 && Rolled(s, w) && s.lastSeen <= now
    ensures EstimateCount(RollWindow(s, now, w), now, w) <= EstimateCount(s, s.lastSeen, w)
  {
    RollIsRolled(s, now, w);
    RollByIndex(s, now, w);
    var r := RollWindow(s, now, w);
    if Index(now, w) == Index(s.lastSeen, w) {
      EstimateDecaysInWindow(s, s.lastSeen, now, w);
    } else {
      EstimateAtMostBoth(r, now, w);
      EstimateNonNegative(s, s.lastSeen, w);
    }
  }

  lemma EstimateCharged(s: Window, now: int, w: int)
    requires w > 0
    ensures EstimateCount(s.(current := s.current + 1), now, w) == EstimateCount(s, now, w) + 1.0
  {
  }

  // --- The same test on whole numbers ---------------------------------------

  /** The estimate times the window length. */
  function Load(s: Window, now: int, w: int): int {
    s.previous * (w - (now - s.start)) + s.current * w
  }

  /** The largest whole load within `limit`. */
  function Cap(limit: real, w: int): int {
    (limit * w as real).Floor
  }

  lemma ScaleUp(p: real, e: real, c: real, limit: real, w: real)
    requires w > 0.0
    ensures p * (1.0 - e / w) + c + 1.0 <= limit <==> p * (w - e) + c * w + w <= limit * w
  {
    var est := p * (1.0 - e / w) + c + 1.0;
    assert (e / w) * w == e;
    assert est * w == p * (w - (e / w) * w) + c * w + w;
    if est <= limit {
      MulMonotone(w, est, limit);
    } else {
      assert (est - limit) * w > 0.0;
    }
  }

  lemma FitsScaled(s: Window, limit: real, now: int, w: int)
    requires w > 0 && s.start <= now < s.start + w
    ensures EstimateCount(s, now, w) + 1.0 <= limit <==> Load(s, now, w) + w <= Cap(limit, w)
  {
    EstimateInWindow(s, now, w);
    ScaleUp(s.previous as real, (now - s.start) as real, s.current as real, limit, w as real);
    WholeAsReal(s.previous, w - (now - s.start));
    WholeAsReal(s.current, w);
  }

  lemma WholeAsReal(a: int, b: int)
    ensures (a * b) as real == a as real * b as real
  {
  }
}
