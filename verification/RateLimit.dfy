/**
  The fixed-window rate limiter.

  A table maps each key to the number of requests seen in its current window and
  the stamp at which that window was opened.  Two kinds of step change the table,
  each under one hold of the lock: a request and a background cleanup.  Stamps are
  read before the lock is taken, so a run is a sequence of steps in lock order whose
  stamps need not be in order.  Stamps and durations are integer nanoseconds.
 */
module RateLimit {
  import opened Basics

  const MINUTE := 60 * SECOND

  /** The configuration, without the key extraction function. */
  datatype Config = Config(requestsPerWindow: int, window: int, cleanupInterval: int, maxEntries: int) {
    predicate Normal() {
      requestsPerWindow > 0 && window > 0 && cleanupInterval > 0 && maxEntries > 0
    }
  }

  /** The published defaults: 100 requests per minute, cleanup every five minutes, 100,000 keys. */
  const DEFAULT := Config(100, 60_000_000_000, 300_000_000_000, 100_000)

  /** Replaces every non-positive setting by its default, and nothing else. */
  function Normalised(cfg: Config): (r: Config)
    ensures r.Normal()
    ensures r.requestsPerWindow == Setting(cfg.requestsPerWindow, DEFAULT.requestsPerWindow)
    ensures r.window == Setting(cfg.window, DEFAULT.window)
    ensures r.cleanupInterval == Setting(cfg.cleanupInterval, DEFAULT.cleanupInterval)
    ensures r.maxEntries == Setting(cfg.maxEntries, DEFAULT.maxEntries)
  {
    Config(
      if cfg.requestsPerWindow <= 0 then 100 else cfg.requestsPerWindow,
      if cfg.window <= 0 then MINUTE else cfg.window,
      if cfg.cleanupInterval <= 0 then 5 * MINUTE else cfg.cleanupInterval,
      if cfg.maxEntries <= 0 then 100_000 else cfg.maxEntries)
  }

  function Setting(given: int, default: int): (r: int)
    ensures given > 0 ==> r == given
    ensures given <= 0 ==> r == default
  {
    if given > 0 then given else default
  }

  datatype Entry = Entry(count: int, windowAt: int)

  type Table = map<string, Entry>

  /** Served goes on to the handler; the other two verdicts answer 429. */
  datatype Verdict = Served | OverLimit | TableFull

  /** A verdict with the X-RateLimit-* headers and, on refusals, Retry-After in seconds. */
  datatype Response = Response(verdict: Verdict, limit: int, remaining: int, reset: int, retryAfter: Option<int>)

  function WithHeaders(cfg: Config, verdict: Verdict, remaining: int, retryAfter: Option<int>): Response {
    Response(verdict, cfg.requestsPerWindow, remaining, cfg.window / SECOND, retryAfter)
  }

  // ----- One key -----

  function Slot(t: Table, key: string): Option<Entry> {
    if key in t then Some(t[key]) else None
  }

  /** No open window: never seen, or the window is over. */
  predicate Lapsed(cfg: Config, slot: Option<Entry>, now: int) {
    slot.None? || now - slot.value.windowAt > cfg.window
  }

  /** A key's entry after a request of its own. */
  function Touch(cfg: Config, slot: Option<Entry>, now: int): Entry {
    if Lapsed(cfg, slot, now) then Entry(1, now) else Entry(slot.value.count + 1, slot.value.windowAt)
  }

  /** The answer to a request, given its key's entry and room in the table. */
  function Answer(cfg: Config, slot: Option<Entry>, now: int): Response {
    var e := Touch(cfg, slot, now);
    var left := cfg.requestsPerWindow - e.count;
    if left >= 0 then
      WithHeaders(cfg, Served, left, None)
    else
      WithHeaders(cfg, OverLimit, 0, Some((cfg.window - (now - e.windowAt)) / SECOND + 1))
  }

  // ----- The table -----

  predicate NoRoom(cfg: Config, t: Table, key: string) {
    key !in t && |t| >= cfg.maxEntries
  }

  function Reply(cfg: Config, t: Table, key: string, now: int): Response {
    if NoRoom(cfg, t, key) then WithHeaders(cfg, TableFull, 0, Some(60)) else Answer(cfg, Slot(t, key), now)
  }

  function AfterRequest(cfg: Config, t: Table, key: string, now: int): Table {
    if NoRoom(cfg, t, key) then t else t[key := Touch(cfg, Slot(t, key), now)]
  }

  function AfterCleanup(cfg: Config, t: Table, now: int): Table {
    map k | k in t && now - t[k].windowAt <= cfg.window * 2 :: t[k]
  }

  // ----- Runs, in lock order -----

  datatype Step = Request(key: string, now: int) | Cleanup(now: int)

  function After(cfg: Config, t: Table, s: Step): Table {
    match s
    case Request(key, now) => AfterRequest(cfg, t, key, now)
    case Cleanup(now) => AfterCleanup(cfg, t, now)
  }

  /** The table after the first i steps. */
  function TableAt(cfg: Config, run: seq<Step>, i: nat): Table
    requires i <= |run|
  {
    if i == 0 then map[] else After(cfg, TableAt(cfg, run, i - 1), run[i - 1])
  }

  /** The response given at step i. */
  function ReplyAt(cfg: Config, run: seq<Step>, i: nat): Response
    requires i < |run| && run[i].Request?
  {
    Reply(cfg, TableAt(cfg, run, i), run[i].key, run[i].now)
  }

  /** Step i is a request of the key that was not turned away for lack of room. */
  predicate Counted(cfg: Config, run: seq<Step>, key: string, i: nat)
    requires i < |run|
  {
    run[i].Request? && run[i].key == key && ReplyAt(cfg, run, i).verdict != TableFull
  }

  /** No step carries a stamp more than s older than an earlier step's. */
  ghost predicate SkewAtMost(run: seq<Step>, s: int) {
    forall i, j :: 0 <= i < j < |run| ==> run[i].now - s <= run[j].now
  }

  /** What was decided so far does not depend on what comes later. */
  lemma {:induction false} TableAtPrefix(cfg: Config, run: seq<Step>, more: seq<Step>, i: nat)
    requires i <= |run|
    ensures TableAt(cfg, run + more, i) == TableAt(cfg, run, i)
  {
    if i > 0 {
      TableAtPrefix(cfg, run, more, i - 1);
    }
  }

  /** One more step. */
  lemma TableAtSnoc(cfg: Config, run: seq<Step>, s: Step)
    ensures TableAt(cfg, run + [s], |run|) == TableAt(cfg, run, |run|)
    ensures TableAt(cfg, run + [s], |run| + 1) == After(cfg, TableAt(cfg, run, |run|), s)
  {
    TableAtPrefix(cfg, run, [s], |run|);
  }

  // ----- The object -----

  /** The limiter; run records, for specification only, the steps taken since it was made. */
  class RateLimiter {
    const cfg: Config
    var entries: Table
    ghost var run: seq<Step>

    ghost predicate Valid()
      reads this
    {
      cfg.Normal() && entries == TableAt(cfg, run, |run|)
    }

    constructor (cfg: Config)
      ensures Valid() && this.cfg == Normalised(cfg) && entries == map[] && run == []
    {
      this.cfg := Normalised(cfg);
      entries := map[];
      run := [];
    }

    /** Deletes, in any order, the entries whose window was opened more than two windows ago. */
    method Cleanup(now: int)
      requires Valid()
      modifies this
      ensures Valid() && run == old(run) + [Step.Cleanup(now)]
      ensures entries == AfterCleanup(cfg, old(entries), now)
    {
      var todo := entries.Keys;
      while todo != {}
        invariant todo <= old(entries).Keys
        invariant run == old(run)
        invariant var was := old(entries);
                  entries == map k | k in was && (k in todo || now - was[k].windowAt <= cfg.window * 2) :: was[k]
        decreases todo
      {
        var key :| key in todo;
        if now - entries[key].windowAt > cfg.window * 2 {
          entries := entries - {key};
        }
        todo := todo - {key};
      }
      TableAtSnoc(cfg, run, Step.Cleanup(now));
      run := run + [Step.Cleanup(now)];
    }

    /** The check and update made under the lock, and the headers computed after it. */
    method Handle(key: string, now: int) returns (r: Response)
      requires Valid()
      modifies this
      ensures Valid() && run == old(run) + [Request(key, now)]
      ensures entries == AfterRequest(cfg, old(entries), key, now)
      ensures r == Reply(cfg, old(entries), key, now) == ReplyAt(cfg, run, |run| - 1)
    {
      TableAtSnoc(cfg, run, Request(key, now));
      run := run + [Request(key, now)];
      var tracked := key in entries;
      if !tracked || now - entries[key].windowAt > cfg.window {
        if !tracked && |entries| >= cfg.maxEntries {
          r := WithHeaders(cfg, TableFull, 0, Some(60));
          return;
        }
        entries := entries[key := Entry(1, now)];
        r := WithHeaders(cfg, Served, cfg.requestsPerWindow - 1, None);
        return;
      }
      var count, windowStart := entries[key].count + 1, entries[key].windowAt;
      entries := entries[key := Entry(count, windowStart)];
      var allowed := count <= cfg.requestsPerWindow;
      var remaining := cfg.requestsPerWindow - count;
      if remaining < 0 {
        remaining := 0;
      }
      if !allowed {
        var retryAfter := cfg.window - (now - windowStart);
        if retryAfter < 0 {
          retryAfter := 0;
        }
        r := WithHeaders(cfg, OverLimit, remaining, Some(retryAfter / SECOND + 1));
        return;
      }
      r := WithHeaders(cfg, Served, remaining, None);
    }
  }
}
