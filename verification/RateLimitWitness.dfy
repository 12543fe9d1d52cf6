/**
  Runs that reach the admission bound, for every configuration, every tolerated skew and every
  interval: the bound cannot be lowered.
 */
module RateLimitWitness {
  import opened Basics
  import opened RateLimit
  import opened RateLimitRefinement
  import opened RateLimitBounds

  /** What is watched: a configuration, an interval and the skew allowed. */
  datatype View = View(cfg: Config, lo: int, hi: int, s: nat)

  /** The stamps keep the skew, none is after `to`; they leave the counter at `slot`, having served that many in it. */
  ghost predicate Reaches(v: View, stamps: seq<int>, slot: Option<Entry>, served: int, to: int) {
    && Counter(v.cfg, stamps) == slot
    && CounterServedIn(v.cfg, stamps, v.lo, v.hi) == served
    && StampSkewAtMost(stamps, v.s)
    && forall i :: 0 <= i < |stamps| ==> stamps[i] <= to
  }

  function Gain(v: View, c: nat, t: int): nat {
    if Within(v.lo, t, v.hi) then c else 0
  }

  // ----- Adding requests -----

  /** One more request, which is served. */
  lemma Then(v: View, stamps: seq<int>, slot: Option<Entry>, served: int, to: int, t: int) returns (more: seq<int>)
    requires Reaches(v, stamps, slot, served, to) && to - v.s <= t
    requires Touch(v.cfg, slot, t).count <= v.cfg.requestsPerWindow
    ensures Reaches(v, more, Some(Touch(v.cfg, slot, t)), served + Gain(v, 1, t), Max(to, t))
  {
    CounterSnoc(v.cfg, stamps, t);
    CounterServedSnoc(v.cfg, stamps, t, v.lo, v.hi);
    more := stamps + [t];
  }

  /** Requests that fit in an open window are all served. */
  lemma {:induction false} ThenFill(v: View, stamps: seq<int>, e: Entry, served: int, to: int, c: nat, t: int)
    returns (more: seq<int>)
    requires Reaches(v, stamps, Some(e), served, to) && to - v.s <= t
    requires t <= e.windowAt + v.cfg.window && e.count + c <= v.cfg.requestsPerWindow
    ensures Reaches(v, more, Some(Entry(e.count + c, e.windowAt)), served + Gain(v, c, t), Max(to, t))
  {
    if c == 0 {
      more := stamps;
    } else {
      more := ThenFill(v, stamps, e, served, to, c - 1, t);
      more := Then(v, more, Some(Entry(e.count + c - 1, e.windowAt)), served + Gain(v, c - 1, t), Max(to, t), t);
    }
  }

  /** So are a window's worth of requests when no window is open. */
  lemma ThenBurst(v: View, stamps: seq<int>, slot: Option<Entry>, served: int, to: int, c: nat, t: int)
    returns (more: seq<int>)
    requires v.cfg.Normal() && Reaches(v, stamps, slot, served, to) && to - v.s <= t
    requires Lapsed(v.cfg, slot, t) && 1 <= c <= v.cfg.requestsPerWindow
    ensures Reaches(v, more, Some(Entry(c, t)), served + Gain(v, c, t), Max(to, t))
  {
    more := Then(v, stamps, slot, served, to, t);
    more := ThenFill(v, more, Entry(1, t), served + Gain(v, 1, t), Max(to, t), c - 1, t);
  }

  function BurstAt(w: nat, t: int, j: nat): (at: int)
    ensures t <= at
  {
    if j == 0 then t else BurstAt(w, t, j - 1) + w + 1
  }

  /** So are m bursts of a window's worth each, the first at t and each just over a window after the last. */
  lemma {:induction false} ThenBursts(v: View, stamps: seq<int>, slot: Option<Entry>, served: int, to: int,
                                      t: int, m: nat)
    returns (more: seq<int>, last: Option<Entry>)
    requires v.cfg.Normal() && Reaches(v, stamps, slot, served, to) && to <= t
    requires Lapsed(v.cfg, slot, t)
    requires v.lo <= t && (m > 0 ==> BurstAt(v.cfg.window, t, m - 1) <= v.hi)
    ensures Reaches(v, more, last, served + m * v.cfg.requestsPerWindow, BurstAt(v.cfg.window, t, m))
    ensures Lapsed(v.cfg, last, BurstAt(v.cfg.window, t, m))
  {
    if m == 0 {
      more, last := stamps, slot;
    } else {
      var n, at := v.cfg.requestsPerWindow, BurstAt(v.cfg.window, t, m - 1);
      more, last := ThenBursts(v, stamps, slot, served, to, t, m - 1);
      more := ThenBurst(v, more, last, served + (m - 1) * n, at, n, at);
      last := Some(Entry(n, at));
      MulPred(m, n);
    }
  }

  // ----- From stamps to a run -----

  function Solo(key: string, stamps: seq<int>): seq<Step> {
    seq(|stamps|, i requires 0 <= i < |stamps| => Request(key, stamps[i]))
  }

  lemma {:induction false} SoloHasRoom(cfg: Config, key: string, stamps: seq<int>, i: nat)
    requires cfg.Normal() && i <= |stamps|
    ensures TableAt(cfg, Solo(key, stamps), i).Keys == if i == 0 then {} else {key}
    ensures !NoRoom(cfg, TableAt(cfg, Solo(key, stamps), i), key)
  {
    if i > 0 {
      SoloHasRoom(cfg, key, stamps, i - 1);
    }
  }

  lemma {:induction false} SoloIsCounted(cfg: Config, key: string, stamps: seq<int>, i: nat)
    requires cfg.Normal() && i <= |stamps|
    ensures Stamps(cfg, Solo(key, stamps), key, i) == stamps[..i]
  {
    if i > 0 {
      SoloIsCounted(cfg, key, stamps, i - 1);
      SoloHasRoom(cfg, key, stamps, i - 1);
      assert stamps[..i] == stamps[..i - 1] + [stamps[i - 1]];
    }
  }

  lemma SoloServes(cfg: Config, key: string, stamps: seq<int>, s: nat, lo: int, hi: int)
    requires cfg.Normal() && s <= cfg.window && StampSkewAtMost(stamps, s)
    ensures SkewAtMost(Solo(key, stamps), s)
    ensures ServedIn(cfg, Solo(key, stamps), key, lo, hi, |stamps|) == CounterServedIn(cfg, stamps, lo, hi)
  {
    var run := Solo(key, stamps);
    assert SkewAtMost(run, cfg.window);
    ServedInIsCounted(cfg, run, key, lo, hi, |stamps|);
    SoloIsCounted(cfg, key, stamps, |stamps|);
    assert stamps[..|stamps|] == stamps;
  }

  // ----- The witnesses -----

  /** One request a window before the interval, and the rest of its window at the start of it. */
  lemma LateFill(v: View) returns (stamps: seq<int>)
    requires v.cfg.Normal() && v.lo <= v.hi
    ensures var n := v.cfg.requestsPerWindow;
            Reaches(v, stamps, Some(Entry(n, v.lo - v.cfg.window)), n - 1, v.lo)
  {
    var w := v.lo - v.cfg.window;
    stamps := ThenBurst(v, [], None, 0, w, 1, w);
    stamps := ThenFill(v, stamps, Entry(1, w), 0, w, v.cfg.requestsPerWindow - 1, v.lo);
  }

  /** As many bursts as fit from t on end within the interval; past it stragglers reach one more window or none. */
  lemma {:induction false} BurstsFit(w: nat, t: int, hi: int, s: nat)
    requires s <= w
    ensures var m := Spaced(w, t, hi);
            && (m > 0 ==> BurstAt(w, t, m - 1) <= hi) && hi < BurstAt(w, t, m)
            && Spaced(w, t, hi + s) == m + if BurstAt(w, t, m) <= hi + s then 1 else 0
    decreases if hi < t then 0 else 1 + hi - t
  {
    if t <= hi {
      BurstsFit(w, t, hi - (w + 1), s);
    } else {
      assert Spaced(w, t, hi + s - (w + 1)) == 0;
    }
  }

  /** Bursts from t on, and then stragglers from the end of the interval in a window opened past it, if one can be. */
  lemma ThenBurstsAndStragglers(v: View, stamps: seq<int>, slot: Option<Entry>, served: int, to: int, t: int)
    returns (more: seq<int>)
    requires v.cfg.Normal() && v.s <= v.cfg.window && Reaches(v, stamps, slot, served, to)
    requires to <= t && Lapsed(v.cfg, slot, t) && v.lo <= v.hi && v.lo <= t
    ensures StampSkewAtMost(more, v.s)
    ensures CounterServedIn(v.cfg, more, v.lo, v.hi)
         == served + Spaced(v.cfg.window, t, v.hi + v.s) * (v.cfg.requestsPerWindow - 1) + Spaced(v.cfg.window, t, v.hi)
  {
    var n, w := v.cfg.requestsPerWindow, v.cfg.window;
    var m := Spaced(w, t, v.hi);
    BurstsFit(w, t, v.hi, v.s);
    var last;
    more, last := ThenBursts(v, stamps, slot, served, to, t, m);
    BurstFigure(m, n);
    if BurstAt(w, t, m) <= v.hi + v.s {
      more := ThenStragglers(v, more, last, served + m * n, BurstAt(w, t, m));
    }
  }

  /** A window opened past the interval, and the rest of it filled from its end. */
  lemma ThenStragglers(v: View, stamps: seq<int>, slot: Option<Entry>, served: int, u: int) returns (more: seq<int>)
    requires v.cfg.Normal() && Reaches(v, stamps, slot, served, u) && Lapsed(v.cfg, slot, u)
    requires v.lo <= v.hi < u <= v.hi + v.s
    ensures StampSkewAtMost(more, v.s)
    ensures CounterServedIn(v.cfg, more, v.lo, v.hi) == served + v.cfg.requestsPerWindow - 1
  {
    more := ThenBurst(v, stamps, slot, served, u, 1, u);
    more := ThenFill(v, more, Entry(1, u), served, u, v.cfg.requestsPerWindow - 1, v.hi);
  }

  lemma BurstFigure(m: nat, n: int)
    ensures m * n == m * (n - 1) + m
    ensures (m + 1) * (n - 1) == m * (n - 1) + n - 1
  {
  }

  /** For every tolerated skew and every interval, the capacity is reached. */
  lemma CapacityAttained(cfg: Config, key: string, s: nat, lo: int, l: nat) returns (run: seq<Step>)
    requires cfg.Normal() && s <= cfg.window
    ensures SkewAtMost(run, s)
    ensures ServedIn(cfg, run, key, lo, lo + l, |run|) == Capacity(cfg.requestsPerWindow, cfg.window, s, l)
  {
    var v := View(cfg, lo, lo + l, s);
    var stamps;
    var n, w := cfg.requestsPerWindow, cfg.window;
    if Track(n, w, 0 - w, 1, s, l) < Track(n, w, 0, 0, s, l) {
      stamps := FromTheStart(v);
    } else {
      stamps := FromBefore(v);
    }
    SoloServes(cfg, key, stamps, s, lo, lo + l);
    run := Solo(key, stamps);
  }

  /** The track with a window opened at the very start of the interval. */
  lemma FromTheStart(v: View) returns (stamps: seq<int>)
    requires v.cfg.Normal() && v.s <= v.cfg.window && v.lo <= v.hi
    ensures StampSkewAtMost(stamps, v.s)
    ensures CounterServedIn(v.cfg, stamps, v.lo, v.hi)
         == Track(v.cfg.requestsPerWindow, v.cfg.window, 0, 0, v.s, v.hi - v.lo)
  {
    var w, l := v.cfg.window, v.hi - v.lo;
    stamps := ThenBurstsAndStragglers(v, [], None, 0, v.lo, v.lo);
    SpacedShift(w, 0, l, v.lo);
    SpacedShift(w, 0, l + v.s, v.lo);
  }

  /** The track with a window opened before the interval and filled at its start. */
  lemma FromBefore(v: View) returns (stamps: seq<int>)
    requires v.cfg.Normal() && v.s <= v.cfg.window && v.lo <= v.hi
    ensures StampSkewAtMost(stamps, v.s)
    ensures CounterServedIn(v.cfg, stamps, v.lo, v.hi)
         == Track(v.cfg.requestsPerWindow, v.cfg.window, 0 - v.cfg.window, 1, v.s, v.hi - v.lo)
  {
    var n, w, l := v.cfg.requestsPerWindow, v.cfg.window, v.hi - v.lo;
    var lead := LateFill(v);
    stamps := ThenBurstsAndStragglers(v, lead, Some(Entry(n, v.lo - w)), n - 1, v.lo, v.lo + 1);
    SpacedShift(w, 1, l, v.lo);
    SpacedShift(w, 1, l + v.s, v.lo);
    LeadingWindow(w, l + v.s);
    MulPred(Spaced(w, 0 - w, l + v.s), n - 1);
  }

  /** A sliding window serves at most N in any window length; with stamps in order that is so exactly when N is 1. */
  lemma SlidingWindowOnlyForOne(cfg: Config, key: string)
    requires cfg.Normal()
    ensures (forall run, lo :: SkewAtMost(run, 0) ==> SlidingAt(cfg, run, key, lo)) <==> cfg.requestsPerWindow == 1
  {
    if cfg.requestsPerWindow == 1 {
      forall run, lo | SkewAtMost(run, 0)
        ensures SlidingAt(cfg, run, key, lo)
      {
        OneWindowGuarantee(cfg, run, key, 0, lo);
      }
    } else {
      var run := CapacityAttained(cfg, key, 0, 0, cfg.window);
      OneWindowFigure(cfg.requestsPerWindow, cfg.window, 0);
      assert !SlidingAt(cfg, run, key, 0);
    }
  }

  ghost predicate SlidingAt(cfg: Config, run: seq<Step>, key: string, lo: int) {
    ServedIn(cfg, run, key, lo, lo + cfg.window, |run|) <= cfg.requestsPerWindow
  }
}
