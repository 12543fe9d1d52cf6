/**
  What the shared table, its cap and its cleanup amount to.

  Under a clock skew of at most one window, cleanup cannot be observed, and each key
  is served as by a counter of its own that sees no other key.
 */
module RateLimitRefinement {
  import opened Basics
  import opened RateLimit

  // ----- The reference limiter -----

  /**
    The table of a limiter that never cleans and has no cap.  It is not shown the
    requests that the real limiter turns away for lack of room.
   */
  function ReferenceAt(cfg: Config, run: seq<Step>, i: nat): Table
    requires i <= |run|
  {
    if i == 0 then map[] else
      var t := ReferenceAt(cfg, run, i - 1);
      var s := run[i - 1];
      if s.Request? && Counted(cfg, run, s.key, i - 1) then t[s.key := Touch(cfg, Slot(t, s.key), s.now)] else t
  }

  /** Every request that finds room is answered as by the reference limiter. */
  ghost predicate CleanupInvisible(cfg: Config, run: seq<Step>) {
    forall i :: 0 <= i < |run| && run[i].Request? && ReplyAt(cfg, run, i).verdict != TableFull ==>
      ReplyAt(cfg, run, i) == Answer(cfg, Slot(ReferenceAt(cfg, run, i), run[i].key), run[i].now)
  }

  /** Some step before i is stamped more than two windows after the given window start. */
  ghost predicate Purgeable(cfg: Config, run: seq<Step>, i: nat, windowAt: int)
    requires i <= |run|
  {
    exists j :: 0 <= j < i && run[j].now - windowAt > cfg.window * 2
  }

  /** The two tables agree where both track a key; where only the reference does, the entry was purgeable. */
  ghost predicate Agrees(cfg: Config, run: seq<Step>, i: nat, key: string)
    requires i <= |run|
  {
    var actual, ideal := TableAt(cfg, run, i), ReferenceAt(cfg, run, i);
    if key in actual then key in ideal && actual[key] == ideal[key]
    else key in ideal ==> Purgeable(cfg, run, i, ideal[key].windowAt)
  }

  lemma {:induction false} AgreesAt(cfg: Config, run: seq<Step>, i: nat, key: string)
    requires cfg.Normal() && SkewAtMost(run, cfg.window)
    requires i <= |run|
    ensures Agrees(cfg, run, i, key)
  {
    if i > 0 {
      AgreesAt(cfg, run, i - 1, key);
      var s := run[i - 1];
      var ideal, ideal' := ReferenceAt(cfg, run, i - 1), ReferenceAt(cfg, run, i);
      if key in ideal && key in ideal' && ideal[key] == ideal'[key] && Purgeable(cfg, run, i - 1, ideal[key].windowAt) {
        assert Purgeable(cfg, run, i, ideal[key].windowAt);
      }
      if s.Request? && s.key == key && Counted(cfg, run, key, i - 1) {
        SameAnswer(cfg, run, i - 1);
      } else if s.Cleanup? && key in TableAt(cfg, run, i - 1) && key !in TableAt(cfg, run, i) {
        assert run[i - 1].now - ideal'[key].windowAt > cfg.window * 2;
      }
    }
  }

  /** A forgotten entry is one whose window any later request finds over. */
  lemma SameAnswer(cfg: Config, run: seq<Step>, i: nat)
    requires cfg.Normal() && SkewAtMost(run, cfg.window)
    requires i < |run| && run[i].Request?
    requires Agrees(cfg, run, i, run[i].key)
    ensures Touch(cfg, Slot(TableAt(cfg, run, i), run[i].key), run[i].now)
         == Touch(cfg, Slot(ReferenceAt(cfg, run, i), run[i].key), run[i].now)
    ensures Answer(cfg, Slot(TableAt(cfg, run, i), run[i].key), run[i].now)
         == Answer(cfg, Slot(ReferenceAt(cfg, run, i), run[i].key), run[i].now)
  {
    var key, ideal := run[i].key, ReferenceAt(cfg, run, i);
    if key !in TableAt(cfg, run, i) && key in ideal {
      var j :| 0 <= j < i && run[j].now - ideal[key].windowAt > cfg.window * 2;
      assert run[j].now - cfg.window <= run[i].now;
    }
  }

  lemma CleanupInvisibleWithinWindow(cfg: Config, run: seq<Step>)
    requires cfg.Normal() && SkewAtMost(run, cfg.window)
    ensures CleanupInvisible(cfg, run)
  {
    forall i | 0 <= i < |run| && run[i].Request? && ReplyAt(cfg, run, i).verdict != TableFull
      ensures ReplyAt(cfg, run, i) == Answer(cfg, Slot(ReferenceAt(cfg, run, i), run[i].key), run[i].now)
    {
      AgreesAt(cfg, run, i, run[i].key);
      SameAnswer(cfg, run, i);
    }
  }

  /** A request, a cleanup just over two windows later, and a request stamped one window after the first. */
  function EarlyPurge(cfg: Config): seq<Step> {
    [Request("k", 0), Cleanup(cfg.window * 2 + 1), Request("k", cfg.window)]
  }

  lemma EarlyPurgeIsVisible(cfg: Config)
    requires cfg.Normal()
    ensures SkewAtMost(EarlyPurge(cfg), cfg.window + 1)
    ensures !CleanupInvisible(cfg, EarlyPurge(cfg))
  {
    var run := EarlyPurge(cfg);
    assert TableAt(cfg, run, 0) == map[];
    assert TableAt(cfg, run, 1) == map["k" := Entry(1, 0)];
    assert TableAt(cfg, run, 2) == map[];
    assert ReplyAt(cfg, run, 2).remaining == cfg.requestsPerWindow - 1;
    assert ReferenceAt(cfg, run, 0) == map[];
    assert ReferenceAt(cfg, run, 1)["k"] == Entry(1, 0);
    assert ReferenceAt(cfg, run, 2)["k"] == Entry(1, 0);
    assert Answer(cfg, Slot(ReferenceAt(cfg, run, 2), "k"), cfg.window) != ReplyAt(cfg, run, 2);
  }

  /** The skew that the factor 2 in the cleanup tolerates is one window, and no more. */
  lemma ToleratedSkewIsOneWindow(cfg: Config, s: nat)
    requires cfg.Normal()
    ensures (forall run :: SkewAtMost(run, s) ==> CleanupInvisible(cfg, run)) <==> s <= cfg.window
  {
    if s <= cfg.window {
      forall run | SkewAtMost(run, s)
        ensures CleanupInvisible(cfg, run)
      {
        assert SkewAtMost(run, cfg.window);
        CleanupInvisibleWithinWindow(cfg, run);
      }
    } else {
      EarlyPurgeIsVisible(cfg);
      assert SkewAtMost(EarlyPurge(cfg), s);
    }
  }

  // ----- One counter per key -----

  /** The entry of a stand-alone counter that has seen just these stamps. */
  function Counter(cfg: Config, stamps: seq<int>): Option<Entry> {
    if stamps == [] then None
    else
      var n := |stamps| - 1;
      Some(Touch(cfg, Counter(cfg, stamps[..n]), stamps[n]))
  }

  /** Its answers to them, in order. */
  function CounterReplies(cfg: Config, stamps: seq<int>): (r: seq<Response>)
    ensures |r| == |stamps|
  {
    if stamps == [] then []
    else
      var n := |stamps| - 1;
      CounterReplies(cfg, stamps[..n]) + [Answer(cfg, Counter(cfg, stamps[..n]), stamps[n])]
  }

  /** The stamps of one key's requests among the first i steps, without those turned away for lack of room. */
  function Stamps(cfg: Config, run: seq<Step>, key: string, i: nat): seq<int>
    requires i <= |run|
  {
    if i == 0 then []
    else if Counted(cfg, run, key, i - 1) then Stamps(cfg, run, key, i - 1) + [run[i - 1].now]
    else Stamps(cfg, run, key, i - 1)
  }

  /** The responses to those requests. */
  function Replies(cfg: Config, run: seq<Step>, key: string, i: nat): seq<Response>
    requires i <= |run|
  {
    if i == 0 then []
    else if Counted(cfg, run, key, i - 1) then Replies(cfg, run, key, i - 1) + [ReplyAt(cfg, run, i - 1)]
    else Replies(cfg, run, key, i - 1)
  }

  /** Taking the last stamp off a sequence that ends in it. */
  lemma CounterSnoc(cfg: Config, stamps: seq<int>, t: int)
    ensures Counter(cfg, stamps + [t]) == Some(Touch(cfg, Counter(cfg, stamps), t))
    ensures CounterReplies(cfg, stamps + [t]) == CounterReplies(cfg, stamps) + [Answer(cfg, Counter(cfg, stamps), t)]
  {
    assert (stamps + [t])[..|stamps|] == stamps;
  }

  lemma {:induction false} ReferenceIsCounters(cfg: Config, run: seq<Step>, key: string, i: nat)
    requires i <= |run|
    ensures Slot(ReferenceAt(cfg, run, i), key) == Counter(cfg, Stamps(cfg, run, key, i))
  {
    if i > 0 {
      ReferenceIsCounters(cfg, run, key, i - 1);
      if Counted(cfg, run, key, i - 1) {
        CounterSnoc(cfg, Stamps(cfg, run, key, i - 1), run[i - 1].now);
      }
    }
  }

  /** One request is answered as by its key's own counter. */
  lemma AnsweredByOwnCounter(cfg: Config, run: seq<Step>, key: string, i: nat)
    requires cfg.Normal() && SkewAtMost(run, cfg.window)
    requires i < |run| && Counted(cfg, run, key, i)
    ensures ReplyAt(cfg, run, i) == Answer(cfg, Counter(cfg, Stamps(cfg, run, key, i)), run[i].now)
  {
    CleanupInvisibleWithinWindow(cfg, run);
    ReferenceIsCounters(cfg, run, key, i);
  }

  /** The shared limiter refines a family of independent counters, one per key. */
  lemma {:induction false} KeyIndependence(cfg: Config, run: seq<Step>, key: string, i: nat)
    requires cfg.Normal() && SkewAtMost(run, cfg.window)
    requires i <= |run|
    ensures Replies(cfg, run, key, i) == CounterReplies(cfg, Stamps(cfg, run, key, i))
  {
    if i > 0 {
      KeyIndependence(cfg, run, key, i - 1);
      if Counted(cfg, run, key, i - 1) {
        AnsweredByOwnCounter(cfg, run, key, i - 1);
        CounterSnoc(cfg, Stamps(cfg, run, key, i - 1), run[i - 1].now);
      }
    }
  }
}
