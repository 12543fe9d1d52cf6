/** What a client may conclude from the headers, and what the cap on tracked keys guarantees. */
module RateLimitHeaders {
  import opened Basics
  import opened RateLimit

  // ----- The cap -----

  /** The table never tracks more keys than allowed, and every entry counts at least one request. */
  lemma {:induction false} CapHolds(cfg: Config, run: seq<Step>, i: nat)
    requires cfg.Normal() && i <= |run|
    ensures |TableAt(cfg, run, i)| <= cfg.maxEntries
    ensures forall k :: k in TableAt(cfg, run, i) ==> TableAt(cfg, run, i)[k].count >= 1
  {
    if i > 0 {
      CapHolds(cfg, run, i - 1);
      var t, t', s := TableAt(cfg, run, i - 1), TableAt(cfg, run, i), run[i - 1];
      if s.Cleanup? {
        assert t'.Keys <= t.Keys;
        SubsetIsSmaller(t'.Keys, t.Keys);
      } else if !NoRoom(cfg, t, s.key) {
        assert t'.Keys == t.Keys + {s.key};
      }
    }
  }

  lemma {:induction false} SubsetIsSmaller<T>(a: set<T>, b: set<T>)
    requires a <= b
    ensures |a| <= |b|
  {
    if a != {} {
      var x :| x in a;
      SubsetIsSmaller(a - {x}, b - {x});
    }
  }

  /** The window that the key's request at step i left it in. */
  function WindowAfter(cfg: Config, run: seq<Step>, key: string, i: nat): (w: int)
    requires i < |run| && Counted(cfg, run, key, i)
    ensures key in TableAt(cfg, run, i + 1) && w == TableAt(cfg, run, i + 1)[key].windowAt
  {
    Touch(cfg, Slot(TableAt(cfg, run, i), key), run[i].now).windowAt
  }

  /** No cleanup from step i up to step j finds a window opened at w to be two windows old. */
  ghost predicate NotPurgedBefore(cfg: Config, run: seq<Step>, w: int, i: nat, j: nat)
    requires j <= |run|
  {
    forall l :: i <= l < j && run[l].Cleanup? ==> run[l].now <= w + cfg.window * 2
  }

  /** A key stays tracked, in that window or a later one, until such a cleanup. */
  lemma {:induction false} StaysTracked(cfg: Config, run: seq<Step>, key: string, i: nat, j: nat)
    requires cfg.Normal() && i < j <= |run| && Counted(cfg, run, key, i)
    requires NotPurgedBefore(cfg, run, WindowAfter(cfg, run, key, i), i + 1, j)
    ensures key in TableAt(cfg, run, j)
    ensures TableAt(cfg, run, j)[key].windowAt >= WindowAfter(cfg, run, key, i)
  {
    if i + 1 < j {
      StaysTracked(cfg, run, key, i, j - 1);
      var s := run[j - 1];
      assert s.Cleanup? ==> s.now <= WindowAfter(cfg, run, key, i) + cfg.window * 2;
    }
  }

  /** With stamps in order, a key is not turned away for lack of room within two windows of its latest window start. */
  lemma NotTurnedAwayForTwoWindows(cfg: Config, run: seq<Step>, key: string, i: nat, j: nat)
    requires cfg.Normal() && SkewAtMost(run, 0)
    requires i < j < |run| && Counted(cfg, run, key, i) && run[j].Request? && run[j].key == key
    requires run[j].now <= WindowAfter(cfg, run, key, i) + cfg.window * 2
    ensures Counted(cfg, run, key, j)
  {
    StaysTracked(cfg, run, key, i, j);
  }

  // ----- The headers of every response -----

  /**
    The limit is the configured one, the reset the window in whole seconds; a refusal, and only a refusal,
    says when to retry, and says that nothing remains.
   */
  ghost predicate HeadersTrue(cfg: Config, r: Response) {
    && r.limit == cfg.requestsPerWindow
    && r.reset * 1_000_000_000 <= cfg.window < (r.reset + 1) * 1_000_000_000
    && (r.retryAfter.None? <==> r.verdict == Served)
    && (r.verdict != Served ==> r.remaining == 0 && r.retryAfter.value >= 1)
    && 0 <= r.remaining < cfg.requestsPerWindow
  }

  /** Every response of every run carries such headers. */
  lemma HeadersOfEveryResponse(cfg: Config, run: seq<Step>, i: nat)
    requires cfg.Normal() && i < |run| && run[i].Request?
    ensures HeadersTrue(cfg, ReplyAt(cfg, run, i))
  {
    CapHolds(cfg, run, i);
  }

  // ----- X-RateLimit-Remaining -----

  /** The key's requests among steps i up to j. */
  function RequestsOf(run: seq<Step>, key: string, i: nat, j: nat): nat
    requires i <= j <= |run|
    decreases j
  {
    if i == j then 0
    else RequestsOf(run, key, i, j - 1) + if run[j - 1].Request? && run[j - 1].key == key then 1 else 0
  }

  /** From step i up to step j, the key's requests are stamped within the window opened at w, and it is not purged. */
  ghost predicate WindowHolds(cfg: Config, run: seq<Step>, key: string, w: int, i: nat, j: nat)
    requires j <= |run|
  {
    && NotPurgedBefore(cfg, run, w, i, j)
    && forall l :: i <= l < j && run[l].Request? && run[l].key == key ==> run[l].now <= w + cfg.window
  }

  /** While it does, the entry counts those requests and nothing else. */
  lemma {:induction false} WindowCounts(cfg: Config, run: seq<Step>, key: string, i: nat, j: nat)
    requires cfg.Normal() && i < j <= |run| && Counted(cfg, run, key, i)
    requires WindowHolds(cfg, run, key, WindowAfter(cfg, run, key, i), i + 1, j)
    ensures var e := TableAt(cfg, run, i + 1)[key];
            Slot(TableAt(cfg, run, j), key) == Some(Entry(e.count + RequestsOf(run, key, i + 1, j), e.windowAt))
  {
    if i + 1 < j {
      WindowCounts(cfg, run, key, i, j - 1);
      var s, w := run[j - 1], WindowAfter(cfg, run, key, i);
      assert s.Cleanup? ==> s.now <= w + cfg.window * 2;
      assert s.Request? && s.key == key ==> s.now <= w + cfg.window;
    }
  }

  /**
    After an answer with Remaining = r, the key's next r requests stamped within the same
    window are served, each later one is refused, and Remaining counts down to 0.
   */
  lemma RemainingForecast(cfg: Config, run: seq<Step>, key: string, i: nat, j: nat)
    requires cfg.Normal() && i < j < |run|
    requires Counted(cfg, run, key, i) && run[j].Request? && run[j].key == key
    requires WindowHolds(cfg, run, key, WindowAfter(cfg, run, key, i), i + 1, j + 1)
    ensures var r, m, reply := ReplyAt(cfg, run, i).remaining, RequestsOf(run, key, i + 1, j), ReplyAt(cfg, run, j);
            && reply.verdict == (if m < r then Served else OverLimit)
            && reply.remaining == (if m < r then r - m - 1 else 0)
  {
    var w := WindowAfter(cfg, run, key, i);
    assert WindowHolds(cfg, run, key, w, i + 1, j);
    WindowCounts(cfg, run, key, i, j);
  }

  /** With stamps in order, that holds for every later request stamped within the window, whatever comes between. */
  lemma RemainingForecastInOrder(cfg: Config, run: seq<Step>, key: string, i: nat, j: nat)
    requires cfg.Normal() && SkewAtMost(run, 0) && i < j < |run|
    requires Counted(cfg, run, key, i) && run[j].Request? && run[j].key == key
    requires run[j].now <= WindowAfter(cfg, run, key, i) + cfg.window
    ensures var r, m, reply := ReplyAt(cfg, run, i).remaining, RequestsOf(run, key, i + 1, j), ReplyAt(cfg, run, j);
            && reply.verdict == (if m < r then Served else OverLimit)
            && reply.remaining == (if m < r then r - m - 1 else 0)
  {
    RemainingForecast(cfg, run, key, i, j);
  }

  // ----- Retry-After -----

  /** Between steps i and j the key makes no request: its entry is kept or purged. */
  lemma {:induction false} IdleKey(cfg: Config, run: seq<Step>, key: string, i: nat, j: nat)
    requires i <= j <= |run|
    requires RequestsOf(run, key, i, j) == 0
    ensures Slot(TableAt(cfg, run, j), key) in {None, Slot(TableAt(cfg, run, i), key)}
  {
    if i < j {
      IdleKey(cfg, run, key, i, j - 1);
    }
  }

  /**
    After a refusal with Retry-After = s, the key's next request, if stamped at least s seconds
    later, opens a new window and is served, unless the key was purged and the table is full.
    The wait ends after the end of the refusing window, by one second at most.
   */
  lemma RetryAfterSuffices(cfg: Config, run: seq<Step>, key: string, i: nat, j: nat)
    requires cfg.Normal() && i < j < |run|
    requires run[i].Request? && run[i].key == key && ReplyAt(cfg, run, i).verdict == OverLimit
    requires run[j].Request? && run[j].key == key && RequestsOf(run, key, i + 1, j) == 0
    ensures ReplyAt(cfg, run, i).retryAfter.Some?
    ensures var wait := ReplyAt(cfg, run, i).retryAfter.value * SECOND;
            var end := WindowAfter(cfg, run, key, i) + cfg.window;
            && end < run[i].now + wait <= end + SECOND
            && (run[i].now + wait <= run[j].now ==>
                  if NoRoom(cfg, TableAt(cfg, run, j), key) then ReplyAt(cfg, run, j).verdict == TableFull
                  else
                    && ReplyAt(cfg, run, j) == WithHeaders(cfg, Served, cfg.requestsPerWindow - 1, None)
                    && TableAt(cfg, run, j + 1)[key] == Entry(1, run[j].now))
  {
    IdleKey(cfg, run, key, i + 1, j);
    var rest := cfg.window - (run[i].now - WindowAfter(cfg, run, key, i));
    assert rest == (rest / SECOND) * SECOND + rest % SECOND;
  }

  /** A refused key gains nothing by asking within the window: it is refused until the window ends. */
  lemma RefusedUntilWindowEnds(cfg: Config, run: seq<Step>, key: string, i: nat, j: nat)
    requires cfg.Normal() && i < j < |run|
    requires run[i].Request? && run[i].key == key && ReplyAt(cfg, run, i).verdict == OverLimit
    requires run[j].Request? && run[j].key == key
    requires WindowHolds(cfg, run, key, WindowAfter(cfg, run, key, i), i + 1, j + 1)
    ensures ReplyAt(cfg, run, j).verdict == OverLimit
  {
    RemainingForecast(cfg, run, key, i, j);
  }

  /** A request turned away for lack of room changes nothing. */
  lemma TurnedAwayChangesNothing(cfg: Config, run: seq<Step>, i: nat)
    requires cfg.Normal() && i < |run| && run[i].Request?
    ensures ReplyAt(cfg, run, i).verdict == TableFull <==>
            run[i].key !in TableAt(cfg, run, i) && |TableAt(cfg, run, i)| == cfg.maxEntries
    ensures ReplyAt(cfg, run, i).verdict == TableFull <==> TableAt(cfg, run, i + 1) == TableAt(cfg, run, i)
  {
    CapHolds(cfg, run, i);
    var t, t', key := TableAt(cfg, run, i), TableAt(cfg, run, i + 1), run[i].key;
    if !NoRoom(cfg, t, key) {
      assert key in t';
    }
  }

  // ----- Retry-After of a cap refusal -----

  /** The keys whose window was opened more than two windows ago. */
  function Stale(cfg: Config, t: Table, now: int): set<string> {
    set k | k in t && now - t[k].windowAt > cfg.window * 2
  }

  /** The keys that step l purges, if it is a cleanup. */
  function PurgedAt(cfg: Config, run: seq<Step>, l: nat): set<string>
    requires l < |run|
  {
    if run[l].Request? then {} else Stale(cfg, TableAt(cfg, run, l), run[l].now)
  }

  /** Step l, a request, makes its key a tracked one. */
  predicate TracksNewKey(cfg: Config, run: seq<Step>, l: nat)
    requires l < |run|
  {
    run[l].Request? && run[l].key !in TableAt(cfg, run, l) && Counted(cfg, run, run[l].key, l)
  }

  function PurgedCount(cfg: Config, run: seq<Step>, l: nat): nat
    requires l < |run|
  {
    |PurgedAt(cfg, run, l)|
  }

  /** The keys purged by steps i up to j. */
  function Purged(cfg: Config, run: seq<Step>, i: nat, j: nat): nat
    requires i <= j <= |run|
    decreases j
  {
    if i == j then 0 else Purged(cfg, run, i, j - 1) + PurgedCount(cfg, run, j - 1)
  }

  /** The keys newly tracked by steps i up to j. */
  function NewlyTracked(cfg: Config, run: seq<Step>, i: nat, j: nat): nat
    requires i <= j <= |run|
    decreases j
  {
    if i == j then 0 else NewlyTracked(cfg, run, i, j - 1) + if TracksNewKey(cfg, run, j - 1) then 1 else 0
  }

  lemma CleanupSize(cfg: Config, t: Table, now: int)
    ensures |AfterCleanup(cfg, t, now)| == |t| - |Stale(cfg, t, now)|
  {
    var kept, gone := AfterCleanup(cfg, t, now).Keys, Stale(cfg, t, now);
    assert t.Keys == kept + gone && kept !! gone;
    assert |AfterCleanup(cfg, t, now)| == |kept| && |t| == |t.Keys|;
  }

  lemma RequestSize(cfg: Config, t: Table, key: string, now: int)
    ensures |AfterRequest(cfg, t, key, now)| == |t| + if key in t || NoRoom(cfg, t, key) then 0 else 1
  {
    var t' := AfterRequest(cfg, t, key, now);
    assert t'.Keys == if NoRoom(cfg, t, key) then t.Keys else t.Keys + {key};
    assert |t'| == |t'.Keys| && |t| == |t.Keys|;
  }

  lemma StepSize(cfg: Config, run: seq<Step>, j: nat, size: nat)
    requires 0 < j <= |run| && size == |TableAt(cfg, run, j - 1)|
    ensures |TableAt(cfg, run, j)|
         == size + (if TracksNewKey(cfg, run, j - 1) then 1 else 0) - PurgedCount(cfg, run, j - 1)
  {
    match run[j - 1]
    case Request(key, now) => RequestSize(cfg, TableAt(cfg, run, j - 1), key, now);
    case Cleanup(now) => CleanupSize(cfg, TableAt(cfg, run, j - 1), now);
  }

  /** Keys are conserved: the table changes in size by those newly tracked less those purged. */
  lemma {:induction false} KeysConserved(cfg: Config, run: seq<Step>, i: nat, j: nat, size: nat)
    requires i <= j <= |run| && size == |TableAt(cfg, run, i)|
    ensures |TableAt(cfg, run, j)| == size + NewlyTracked(cfg, run, i, j) - Purged(cfg, run, i, j)
  {
    if i < j {
      KeysConserved(cfg, run, i, j - 1, size);
      StepSize(cfg, run, j, size + NewlyTracked(cfg, run, i, j - 1) - Purged(cfg, run, i, j - 1));
    }
  }

  /**
    After a cap refusal the key's next request is served iff more keys were purged than newly tracked in
    between; how long it waited, and the Retry-After it was told, play no part.
   */
  lemma CapRetryExactly(cfg: Config, run: seq<Step>, key: string, i: nat, j: nat)
    requires cfg.Normal() && i < j < |run|
    requires run[i].Request? && run[i].key == key && ReplyAt(cfg, run, i).verdict == TableFull
    requires run[j].Request? && run[j].key == key && RequestsOf(run, key, i + 1, j) == 0
    ensures ReplyAt(cfg, run, i).retryAfter == Some(60)
    ensures ReplyAt(cfg, run, j).verdict
         == if NewlyTracked(cfg, run, i, j) < Purged(cfg, run, i, j) then Served else TableFull
  {
    IdleKey(cfg, run, key, i + 1, j);
    CapHolds(cfg, run, i);
    CapHolds(cfg, run, j);
    KeysConserved(cfg, run, i, j, |TableAt(cfg, run, i)|);
  }

  /** Until a cleanup a key turned away stays turned away, at every request. */
  lemma TurnedAwayUntilCleanup(cfg: Config, run: seq<Step>, i: nat, j: nat)
    requires i < j < |run| && forall l :: i <= l < j ==> run[l].Request?
    requires run[i].Request? && ReplyAt(cfg, run, i).verdict == TableFull
    requires run[j].Request? && run[j].key == run[i].key
    ensures ReplyAt(cfg, run, j) == ReplyAt(cfg, run, i)
  {
    FullUntilCleanup(cfg, run, i, j);
    var t, t' := TableAt(cfg, run, i), TableAt(cfg, run, j);
    assert |t| == |t.Keys| && |t'| == |t'.Keys|;
  }

  /** A full table tracks the same keys until a cleanup. */
  lemma {:induction false} FullUntilCleanup(cfg: Config, run: seq<Step>, i: nat, j: nat)
    requires i <= j <= |run| && forall l :: i <= l < j ==> run[l].Request?
    requires |TableAt(cfg, run, i)| >= cfg.maxEntries
    ensures TableAt(cfg, run, j).Keys == TableAt(cfg, run, i).Keys
  {
    if i < j {
      FullUntilCleanup(cfg, run, i, j - 1);
      var t, t' := TableAt(cfg, run, i), TableAt(cfg, run, j - 1);
      assert |t| == |t.Keys| && |t'| == |t'.Keys|;
    }
  }

  // ----- A run with cap refusals -----

  /** A key of its own for every number. */
  function KeyNo(i: nat): (key: string)
    ensures |key| == i
  {
    seq(i, _ => 'k')
  }

  /** The first c keys, one request each. */
  function Crowd(c: nat, t: int): seq<Step> {
    seq(c, i requires 0 <= i < c => Request(KeyNo(i), t))
  }

  lemma {:induction false} CrowdTracked(cfg: Config, c: nat, t: int, more: seq<Step>, i: nat)
    requires cfg.Normal() && i <= c <= cfg.maxEntries
    ensures |TableAt(cfg, Crowd(c, t) + more, i)| == i
    ensures forall k :: k in TableAt(cfg, Crowd(c, t) + more, i) ==> |k| < i
  {
    if i > 0 {
      CrowdTracked(cfg, c, t, more, i - 1);
      var run := Crowd(c, t) + more;
      var before, after := TableAt(cfg, run, i - 1), TableAt(cfg, run, i);
      assert run[i - 1] == Request(KeyNo(i - 1), t);
      assert KeyNo(i - 1) !in before;
      assert after.Keys == before.Keys + {KeyNo(i - 1)};
      assert |after| == |after.Keys| && |before| == |before.Keys|;
    }
  }

  /**
    For every configuration, a key that is turned away, told to retry after 60 seconds, and turned away
    again at any chosen later stamp, in a run with stamps in order.
   */
  lemma CapRefusalRepeats(cfg: Config, t: int, later: int) returns (run: seq<Step>, i: nat)
    requires cfg.Normal() && t + 60 * SECOND <= later
    ensures SkewAtMost(run, 0) && i + 2 == |run|
    ensures run[i..] == [Request(KeyNo(cfg.maxEntries), t), Request(KeyNo(cfg.maxEntries), later)]
    ensures ReplyAt(cfg, run, i).verdict == TableFull && ReplyAt(cfg, run, i).retryAfter == Some(60)
    ensures ReplyAt(cfg, run, i + 1).verdict == TableFull
  {
    i := cfg.maxEntries;
    var more := [Request(KeyNo(i), t), Request(KeyNo(i), later)];
    run := Crowd(i, t) + more;
    CrowdTracked(cfg, i, t, more, i);
    assert run[i] == more[0] && run[i + 1] == more[1];
    assert KeyNo(i) !in TableAt(cfg, run, i);
    TurnedAwayUntilCleanup(cfg, run, i, i + 1);
  }
}
