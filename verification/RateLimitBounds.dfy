/**
  How many requests of one key can be served in a closed interval of time.

  The limiter counts in fixed windows opened by the first request, so the figure
  for one window length is 2N - 1, not N; the exact figure is given for clocks in
  order and any interval, and for every tolerated skew and one window length.
 */
module RateLimitBounds {
  import opened Basics
  import opened RateLimit
  import opened RateLimitRefinement

  predicate Within(lo: int, t: int, hi: int) {
    lo <= t <= hi
  }

  /** The key's requests served among the first i steps with a stamp in [lo, hi]. */
  function ServedIn(cfg: Config, run: seq<Step>, key: string, lo: int, hi: int, i: nat): nat
    requires i <= |run|
  {
    if i == 0 then 0
    else
      var s := run[i - 1];
      ServedIn(cfg, run, key, lo, hi, i - 1) +
      if s.Request? && s.key == key && Within(lo, s.now, hi) && ReplyAt(cfg, run, i - 1).verdict == Served then 1 else 0
  }

  /** The same figure for a stand-alone counter. */
  function CounterServedIn(cfg: Config, stamps: seq<int>, lo: int, hi: int): nat {
    if stamps == [] then 0
    else
      var n := |stamps| - 1;
      CounterServedIn(cfg, stamps[..n], lo, hi) +
      if Within(lo, stamps[n], hi) && Answer(cfg, Counter(cfg, stamps[..n]), stamps[n]).verdict == Served then 1 else 0
  }

  lemma CounterServedSnoc(cfg: Config, stamps: seq<int>, t: int, lo: int, hi: int)
    ensures CounterServedIn(cfg, stamps + [t], lo, hi) == CounterServedIn(cfg, stamps, lo, hi) +
            if Within(lo, t, hi) && Answer(cfg, Counter(cfg, stamps), t).verdict == Served then 1 else 0
  {
    assert (stamps + [t])[..|stamps|] == stamps;
  }

  lemma {:induction false} ServedInIsCounted(cfg: Config, run: seq<Step>, key: string, lo: int, hi: int, i: nat)
    requires cfg.Normal() && SkewAtMost(run, cfg.window)
    requires i <= |run|
    ensures ServedIn(cfg, run, key, lo, hi, i) == CounterServedIn(cfg, Stamps(cfg, run, key, i), lo, hi)
  {
    if i > 0 {
      ServedInIsCounted(cfg, run, key, lo, hi, i - 1);
      if Counted(cfg, run, key, i - 1) {
        AnsweredByOwnCounter(cfg, run, key, i - 1);
        CounterServedSnoc(cfg, Stamps(cfg, run, key, i - 1), run[i - 1].now, lo, hi);
      }
    }
  }

  // ----- The bound for one counter -----

  /** How many instants more than w apart fit from `from` to `to`, both included. */
  function Spaced(w: nat, from: int, to: int): nat
    decreases to - from
  {
    if to < from then 0 else 1 + Spaced(w, from, to - (w + 1))
  }

  /**
    What windows give an interval of length l if those reaching into it are opened from `from` on,
    counted from its start, and up to s past its end, and those opened inside it from `inner` on.
    Each gives n - 1 at most, and one more if opened inside.
   */
  function Track(n: int, w: nat, from: int, inner: int, s: nat, l: nat): int {
    Spaced(w, from, l + s) * (n - 1) + Spaced(w, inner, l)
  }

  /**
    The most a key can be served, with skew s, in a closed interval of length l.  Either no window
    is opened at its very start, and one opened up to w before may reach in; or one is, and as starts
    are more than w apart none reaches in from before.
   */
  function Capacity(n: int, w: nat, s: nat, l: nat): int {
    Max(Track(n, w, 0 - w, 1, s, l), Track(n, w, 0, 0, s, l))
  }

  function Max(x: int, y: int): int {
    if x < y then y else x
  }

  ghost predicate StampSkewAtMost(stamps: seq<int>, s: int) {
    forall i, j :: 0 <= i < j < |stamps| ==> stamps[i] - s <= stamps[j]
  }

  lemma {:induction false} SpacedMonotone(w: nat, from: int, to: int, to': int)
    requires to <= to'
    ensures Spaced(w, from, to) <= Spaced(w, from, to')
    ensures from <= to' && to + w < to' ==> Spaced(w, from, to) + 1 <= Spaced(w, from, to')
    decreases to' - from
  {
    if from <= to' {
      SpacedMonotone(w, from, to - (w + 1), to' - (w + 1));
      if to + w < to' {
        SpacedMonotone(w, from, to, to' - (w + 1));
      }
    }
  }

  lemma {:induction false} SpacedShift(w: nat, from: int, to: int, k: int)
    ensures Spaced(w, from + k, to + k) == Spaced(w, from, to)
    decreases if to < from then 0 else 1 + to - from
  {
    if from <= to {
      SpacedShift(w, from, to - (w + 1), k);
    }
  }

  lemma MulMonotone(x: int, y: int, k: nat)
    requires x <= y
    ensures x * k <= y * k
  {
  }

  lemma MulPred(x: int, k: int)
    ensures (x - 1) * k == x * k - k
  {
  }

  function Min(x: int, y: int): int {
    if x < y then x else y
  }

  /** The credit used on a track when the current window is the given one. */
  function Budget(cfg: Config, e: Entry, from: int, inner: int, hi: int): int
    requires cfg.Normal()
  {
    var n, w := cfg.requestsPerWindow, cfg.window;
    (Spaced(w, from, e.windowAt) - 1) * (n - 1) + Min(e.count, n) - 1 + Spaced(w, inner, Min(e.windowAt, hi))
  }

  /** On one of the two tracks, no more was served than its credit. */
  ghost predicate OnTrack(cfg: Config, e: Entry, served: int, lo: int, hi: int)
    requires cfg.Normal()
  {
    || served <= Budget(cfg, e, lo - cfg.window, lo + 1, hi)
    || (lo <= e.windowAt && served <= Budget(cfg, e, lo, lo, hi))
  }

  ghost predicate WithinBudget(cfg: Config, slot: Option<Entry>, served: int, s: nat, lo: int, hi: int)
    requires cfg.Normal() && lo <= hi
  {
    if slot.None? || slot.value.windowAt < lo - cfg.window then served == 0
    else if slot.value.windowAt <= hi + s then slot.value.count >= 1 && OnTrack(cfg, slot.value, served, lo, hi)
    else served <= Capacity(cfg.requestsPerWindow, cfg.window, s, hi - lo)
  }

  /** Whatever the current window, its credit is within that of the track. */
  lemma BudgetWithinTrack(cfg: Config, e: Entry, from: int, inner: int, s: nat, lo: int, hi: int)
    requires cfg.Normal() && lo <= hi
    requires e.windowAt <= hi + s
    ensures Budget(cfg, e, lo + from, lo + inner, hi)
         <= Track(cfg.requestsPerWindow, cfg.window, from, inner, s, hi - lo)
  {
    var n, w := cfg.requestsPerWindow, cfg.window;
    SpacedMonotone(w, lo + from, e.windowAt, hi + s);
    SpacedShift(w, from, hi - lo + s, lo);
    SpacedMonotone(w, lo + inner, Min(e.windowAt, hi), hi);
    SpacedShift(w, inner, hi - lo, lo);
    MulMonotone(Spaced(w, lo + from, e.windowAt), Spaced(w, from, hi - lo + s), n - 1);
    MulPred(Spaced(w, lo + from, e.windowAt), n - 1);
  }

  lemma OnTrackWithinCapacity(cfg: Config, e: Entry, served: int, s: nat, lo: int, hi: int)
    requires cfg.Normal() && lo <= hi && e.windowAt <= hi + s
    requires OnTrack(cfg, e, served, lo, hi)
    ensures served <= Capacity(cfg.requestsPerWindow, cfg.window, s, hi - lo)
  {
    BudgetWithinTrack(cfg, e, 0 - cfg.window, 1, s, lo, hi);
    BudgetWithinTrack(cfg, e, 0, 0, s, lo, hi);
  }

  /** Opening a new window more than w after the last one pays for the requests of the last one. */
  lemma NewWindowBudget(cfg: Config, e: Entry, t: int, from: int, inner: int, lo: int, hi: int)
    requires cfg.Normal() && lo <= hi
    requires from <= e.windowAt && e.windowAt + cfg.window < t && inner <= t
    ensures Budget(cfg, e, from, inner, hi) + (if Within(lo, t, hi) then 1 else 0)
         <= Budget(cfg, Entry(1, t), from, inner, hi)
  {
    var n, w := cfg.requestsPerWindow, cfg.window;
    SpacedMonotone(w, from, e.windowAt, t);
    MulMonotone(Spaced(w, from, e.windowAt), Spaced(w, from, t) - 1, n - 1);
    MulPred(Spaced(w, from, e.windowAt), n - 1);
    SpacedMonotone(w, inner, Min(e.windowAt, hi), Min(t, hi));
  }

  /** The first window that can reach into the interval sets the track. */
  lemma FirstWindowOnTrack(cfg: Config, t: int, lo: int, hi: int)
    requires cfg.Normal() && lo <= hi && lo - cfg.window <= t
    ensures OnTrack(cfg, Entry(1, t), if Within(lo, t, hi) then 1 else 0, lo, hi)
  {
    var n, w := cfg.requestsPerWindow, cfg.window;
    if t == lo {
      assert Spaced(w, lo, t) == 1 + Spaced(w, lo, t - (w + 1)) == 1;
    } else {
      SpacedMonotone(w, lo - w, lo - w - (w + 1), t);
      MulMonotone(0, Spaced(w, lo - w, t) - 1, n - 1);
      if Within(lo, t, hi) {
        SpacedMonotone(w, lo + 1, lo + 1 - (w + 1), t);
      }
    }
  }

  /** Each later one stays on it. */
  lemma LaterWindowOnTrack(cfg: Config, e: Entry, served: int, t: int, lo: int, hi: int)
    requires cfg.Normal() && lo <= hi
    requires lo - cfg.window <= e.windowAt && e.windowAt + cfg.window < t
    requires OnTrack(cfg, e, served, lo, hi)
    ensures OnTrack(cfg, Entry(1, t), served + if Within(lo, t, hi) then 1 else 0, lo, hi)
  {
    if served <= Budget(cfg, e, lo - cfg.window, lo + 1, hi) {
      NewWindowBudget(cfg, e, t, lo - cfg.window, lo + 1, lo, hi);
    } else {
      NewWindowBudget(cfg, e, t, lo, lo, lo, hi);
    }
  }

  /** The current window of a counter was opened by one of the stamps. */
  lemma {:induction false} OpenedByAStamp(cfg: Config, stamps: seq<int>)
    ensures Counter(cfg, stamps).Some? ==> Counter(cfg, stamps).value.windowAt in stamps
  {
    if stamps != [] {
      OpenedByAStamp(cfg, stamps[..|stamps| - 1]);
    }
  }

  lemma {:induction false} CounterWithinBudget(cfg: Config, stamps: seq<int>, s: nat, lo: int, hi: int)
    requires cfg.Normal() && lo <= hi
    requires StampSkewAtMost(stamps, s)
    ensures WithinBudget(cfg, Counter(cfg, stamps), CounterServedIn(cfg, stamps, lo, hi), s, lo, hi)
  {
    if stamps != [] {
      var n := |stamps| - 1;
      var t, before := stamps[n], stamps[..n];
      CounterWithinBudget(cfg, before, s, lo, hi);
      OpenedByAStamp(cfg, before);
      StepWithinBudget(cfg, Counter(cfg, before), CounterServedIn(cfg, before, lo, hi), t, s, lo, hi);
    }
  }

  /** One request keeps the count of served requests within the budget. */
  lemma StepWithinBudget(cfg: Config, slot: Option<Entry>, served: nat, t: int, s: nat, lo: int, hi: int)
    requires cfg.Normal() && lo <= hi
    requires WithinBudget(cfg, slot, served, s, lo, hi)
    requires slot.Some? ==> slot.value.windowAt - s <= t
    ensures var gain := if Within(lo, t, hi) && Answer(cfg, slot, t).verdict == Served then 1 else 0;
            WithinBudget(cfg, Some(Touch(cfg, slot, t)), served + gain, s, lo, hi)
  {
    CapacityPositive(cfg, s, lo, hi);
    if Lapsed(cfg, slot, t) && lo - cfg.window <= t {
      if slot.None? || slot.value.windowAt < lo - cfg.window {
        FirstWindowOnTrack(cfg, t, lo, hi);
      } else if slot.value.windowAt <= hi + s {
        LaterWindowOnTrack(cfg, slot.value, served, t, lo, hi);
        OnTrackWithinCapacity(cfg, slot.value, served, s, lo, hi);
      }
    }
  }

  lemma CapacityPositive(cfg: Config, s: nat, lo: int, hi: int)
    requires cfg.Normal() && lo <= hi
    ensures Capacity(cfg.requestsPerWindow, cfg.window, s, hi - lo) >= 0
  {
    MulMonotone(0, Spaced(cfg.window, 0, hi - lo + s), cfg.requestsPerWindow - 1);
  }

  lemma CounterBound(cfg: Config, stamps: seq<int>, s: nat, lo: int, hi: int)
    requires cfg.Normal() && lo <= hi
    requires StampSkewAtMost(stamps, s)
    ensures CounterServedIn(cfg, stamps, lo, hi) <= Capacity(cfg.requestsPerWindow, cfg.window, s, hi - lo)
  {
    CounterWithinBudget(cfg, stamps, s, lo, hi);
    CapacityPositive(cfg, s, lo, hi);
    var slot := Counter(cfg, stamps);
    if slot.Some? && lo - cfg.window <= slot.value.windowAt <= hi + s {
      OnTrackWithinCapacity(cfg, slot.value, CounterServedIn(cfg, stamps, lo, hi), s, lo, hi);
    }
  }

  // ----- The bound for runs -----

  lemma {:induction false} StampsComeFromSteps(cfg: Config, run: seq<Step>, key: string, i: nat, s: int)
    requires i <= |run| && SkewAtMost(run, s)
    ensures forall t :: t in Stamps(cfg, run, key, i) ==> exists j :: 0 <= j < i && run[j].now == t
    ensures StampSkewAtMost(Stamps(cfg, run, key, i), s)
  {
    if i > 0 {
      StampsComeFromSteps(cfg, run, key, i - 1, s);
      var before := Stamps(cfg, run, key, i - 1);
      forall p | 0 <= p < |before|
        ensures before[p] - s <= run[i - 1].now
      {
        assert before[p] in before;
        var j :| 0 <= j < i - 1 && run[j].now == before[p];
      }
    }
  }

  /** In every run, over any interleaving of keys and cleanups, a key is served no more than the capacity. */
  lemma AdmissionBound(cfg: Config, run: seq<Step>, key: string, s: nat, lo: int, hi: int)
    requires cfg.Normal() && s <= cfg.window && SkewAtMost(run, s)
    requires lo <= hi
    ensures ServedIn(cfg, run, key, lo, hi, |run|) <= Capacity(cfg.requestsPerWindow, cfg.window, s, hi - lo)
  {
    assert SkewAtMost(run, cfg.window);
    ServedInIsCounted(cfg, run, key, lo, hi, |run|);
    StampsComeFromSteps(cfg, run, key, |run|, s);
    CounterBound(cfg, Stamps(cfg, run, key, |run|), s, lo, hi);
  }

  // ----- The figures -----

  /** l is a whole number of times d. */
  predicate Multiple(l: int, d: nat)
    requires d > 0
  {
    if l < d then l == 0 else Multiple(l - d, d)
  }

  /** Counting from one later loses an instant exactly where the last one stood at the end. */
  lemma {:induction false} InnerSpacing(w: nat, l: int, s: nat)
    requires 0 <= l && s <= w
    ensures Spaced(w, 0, l) == Spaced(w, 1, l) + if Multiple(l, w + 1) then 1 else 0
    ensures Spaced(w, 1, l + s) <= Spaced(w, 0, l + s) <= Spaced(w, 1, l + s) + 1
    ensures Multiple(l, w + 1) && 1 <= s ==> Spaced(w, 0, l + s) == Spaced(w, 1, l + s)
  {
    if l > w {
      InnerSpacing(w, l - (w + 1), s);
    } else {
      assert Spaced(w, 0, l - (w + 1)) == Spaced(w, 1, l - (w + 1)) == 0;
      assert Spaced(w, 0, l + s - (w + 1) - (w + 1)) == Spaced(w, 1, l + s - (w + 1) - (w + 1)) == 0;
    }
  }

  /** A window opened up to w before the interval, and the others. */
  lemma LeadingWindow(w: nat, l: int)
    requires 0 - w <= l
    ensures Spaced(w, 0 - w, l) == 1 + Spaced(w, 1, l)
  {
    SpacedShift(w, 0 - w, l - (w + 1), w + 1);
  }

  /**
    The capacity as one figure: the windows that reach in give n - 1 each, those opened inside one more;
    but with skew, where the interval is a whole number of times w + 1, not both counts can be had.
   */
  lemma CapacityFigure(n: int, w: nat, s: nat, l: nat)
    requires n > 0 && s <= w
    ensures Capacity(n, w, s, l) == Spaced(w, 0 - w, l + s) * (n - 1) + Spaced(w, 0, l)
                                    - if 1 <= s && Multiple(l, w + 1) && n > 1 then 1 else 0
  {
    InnerSpacing(w, l, s);
    LeadingWindow(w, l + s);
    var q := Spaced(w, 1, l + s);
    MulPred(q + 1, n - 1);
    MulPred(q + 2, n - 1);
  }

  /** For an interval of one window length: 2n - 1, or 3n - 2 once stamps may be out of order by two nanoseconds. */
  lemma OneWindowFigure(n: int, w: nat, s: nat)
    requires n > 0 && w > 0 && s <= w
    ensures Capacity(n, w, s, w) == if s < 2 then 2 * n - 1 else 3 * n - 2
  {
    CapacityFigure(n, w, s, w);
    assert !Multiple(w, w + 1);
    assert Spaced(w, 0, w) == 1 + Spaced(w, 0, -1) == 1;
    assert Spaced(w, 0 - w, w + s) == 1 + Spaced(w, 0 - w, s - 1) == 2 + Spaced(w, 0 - w, s - w - 2);
    assert Spaced(w, 0 - w, s - 2 * w - 3) == 0;
  }

  /** With stamps in order, an interval that holds a single instant serves n, one of length l > 0 no more than this. */
  lemma OrderedFigures(n: int, w: nat, l: nat)
    requires n > 0 && w > 0
    ensures Capacity(n, w, 0, 0) == n
    ensures l > 0 ==> Capacity(n, w, 0, l) <= n * Ceil(l, w) + n - 1
  {
    CapacityFigure(n, w, 0, 0);
    assert Spaced(w, 0 - w, 0) == 1 + Spaced(w, 0 - w, 0 - w - 1) == 1;
    assert Spaced(w, 0, 0) == 1;
    if l > 0 {
      CapacityFigure(n, w, 0, l);
      LeadingWindow(w, l);
      InnerSpacing(w, l, 0);
      CeilAtLeastSpaced(l, w);
      WholeWindows(n, Spaced(w, 0, l), Spaced(w, 0 - w, l), Ceil(l, w));
    }
  }

  lemma WholeWindows(n: int, p: nat, c: nat, k: nat)
    requires n > 0 && c <= p + 1 && p <= k
    ensures c * (n - 1) + p <= n * k + n - 1
  {
    MulMonotone(c, p + 1, n - 1);
    MulMonotone(p, k, n);
    assert (p + 1) * (n - 1) + p == p * n + n - 1;
  }

  function Ceil(x: nat, d: nat): nat
    requires d > 0
  {
    (x + d - 1) / d
  }

  /** The number of spaced instants in closed form: l / (w + 1), rounded down, plus one. */
  lemma {:induction false} SpacedSpan(w: nat, l: int)
    requires 0 <= l
    ensures (Spaced(w, 0, l) - 1) * (w + 1) <= l < Spaced(w, 0, l) * (w + 1)
  {
    if l > w {
      SpacedSpan(w, l - (w + 1));
      MulPred(Spaced(w, 0, l) - 1, w + 1);
      MulPred(Spaced(w, 0, l), w + 1);
    } else {
      assert Spaced(w, 0, l - (w + 1)) == 0;
    }
  }

  lemma CeilAtLeastSpaced(l: nat, w: nat)
    requires 0 < l && 0 < w
    ensures Spaced(w, 0, l) <= Ceil(l, w)
  {
    var p := Spaced(w, 0, l);
    SpacedSpan(w, l);
    assert (p - 1) * (w + 1) == p * w - w + p - 1;
    DivAtLeast(l + w - 1, w, p);
  }

  lemma DivAtLeast(x: nat, d: nat, q: nat)
    requires 0 < d && q * d <= x
    ensures q <= x / d
  {
    assert x == (x / d) * d + x % d;
    if x / d < q {
      MulMonotone(x / d + 1, q, d);
    }
  }

  // ----- The guarantees -----

  /** In any interval of one window length a key is served at most 2N - 1 times, or 3N - 2 with the tolerated skew. */
  lemma OneWindowGuarantee(cfg: Config, run: seq<Step>, key: string, s: nat, lo: int)
    requires cfg.Normal() && s <= cfg.window && SkewAtMost(run, s)
    ensures ServedIn(cfg, run, key, lo, lo + cfg.window, |run|)
         <= if s < 2 then 2 * cfg.requestsPerWindow - 1 else 3 * cfg.requestsPerWindow - 2
  {
    AdmissionBound(cfg, run, key, s, lo, lo + cfg.window);
    OneWindowFigure(cfg.requestsPerWindow, cfg.window, s);
  }

  /** With stamps in order, in any interval of length l > 0: N times the windows it spans, rounded up, plus N - 1. */
  lemma LongRunGuarantee(cfg: Config, run: seq<Step>, key: string, lo: int, l: nat)
    requires cfg.Normal() && SkewAtMost(run, 0) && l > 0
    ensures ServedIn(cfg, run, key, lo, lo + l, |run|)
         <= cfg.requestsPerWindow * Ceil(l, cfg.window) + cfg.requestsPerWindow - 1
  {
    AdmissionBound(cfg, run, key, 0, lo, lo + l);
    OrderedFigures(cfg.requestsPerWindow, cfg.window, l);
  }
}
