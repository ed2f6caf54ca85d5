/**
 processScrapedEvents: preload the caches, then walk the records in batches
 of 20, counting successes, skips and errors, flushing every 50 successes
 and after every batch.

 `Step` is the body of the inner loop, `Fold` runs it over a sequence,
 `RunFrom` is the batch loop and `Run` a whole call. The method
 `ProcessScrapedEvents` is the loop itself, proved equal to `Run`.
 */
module Ingest {
  import opened Json
  import opened EventStore

  const BATCH_SIZE := 20
  const FLUSH_THRESHOLD := 50

  /** The counters of one call. `flushes` counts entityManager.flush() calls. */
  datatype Counters = Counters(
    totalProcessed: nat,
    success: nat,
    skip: nat,
    error: nat,
    flushCounter: nat,
    flushes: nat)

  const NoCounts := Counters(0, 0, 0, 0, 0, 0)

  datatype State = State(world: World, counters: Counters)

  /** The records of one state that a step has counted. */
  function Counted(c: Counters): nat {
    c.success + c.skip + c.error
  }

  /** The periodic flush: once 50 saves are pending, flush and start over. */
  function Settle(c: Counters): (r: Counters)
    ensures c.flushCounter >= FLUSH_THRESHOLD ==> r.flushCounter == 0 && r.flushes == c.flushes + 1
    ensures c.flushCounter < FLUSH_THRESHOLD ==> r == c
    ensures r.(flushCounter := 0, flushes := 0) == c.(flushCounter := 0, flushes := 0)
  {
    if c.flushCounter >= FLUSH_THRESHOLD then c.(flushCounter := 0, flushes := c.flushes + 1) else c
  }

  /** True when a record is skipped before processEvent: it has no URL, or
      its URL is already processed. */
  predicate EarlySkip(w: World, e: Node) {
    GetEventUrl(e).None? || GetEventUrl(e).value in w.svc.processedUrls
  }

  /** What the loop body makes of one record: a skip, an error (an exception
      caught by the loop), or a save, with the world after it and the URL
      recorded as processed. */
  datatype Verdict = Skipped | Errored | Succeeded(world: World)

  function Judge(w: World, e: Node, env: Env): (v: Verdict)
    ensures v.Skipped? <==> EarlySkip(w, e)
    ensures v.Errored? <==> !EarlySkip(w, e) && ProcessEvent(w, e, env).Failed?
    ensures v.Succeeded? ==>
      && ProcessEvent(w, e, env).Saved?
      && v.world == ProcessEvent(w, e, env).world.(svc := ProcessEvent(w, e, env).world.svc.(
           processedUrls := w.svc.processedUrls + {GetEventUrl(e).value}))
  {
    match GetEventUrl(e)
    case None => Skipped
    case Some(url) =>
      if url in w.svc.processedUrls then Skipped
      else
        match ProcessEvent(w, e, env)
        // processEvent repeats both checks above, so it does not return null here
        case NotSaved => assert false; Skipped
        case Failed => Errored
        case Saved(w', _) => Succeeded(w'.(svc := w'.svc.(processedUrls := w'.svc.processedUrls + {url})))
  }

  /** The counters after one verdict. A skip leaves the progress counter
      alone (`continue`); an error and a save advance it; a save may trigger
      the periodic flush. */
  function Tally(c: Counters, v: Verdict): (r: Counters)
    ensures Counted(r) == Counted(c) + 1
    ensures v.Skipped? <==> r == c.(skip := c.skip + 1)
    ensures r.success == c.success + (if v.Succeeded? then 1 else 0)
    ensures r.error == c.error + (if v.Errored? then 1 else 0)
    ensures r.totalProcessed == c.totalProcessed + (if v.Skipped? then 0 else 1)
  {
    match v
    case Skipped => c.(skip := c.skip + 1)
    case Errored => c.(error := c.error + 1, totalProcessed := c.totalProcessed + 1)
    case Succeeded(_) =>
      var c' := Settle(c.(success := c.success + 1, flushCounter := c.flushCounter + 1));
      c'.(totalProcessed := c'.totalProcessed + 1)
  }

  /** A per-record judgement: the verdict of the loop body on a world and a
      record. The batch loop and its counters are proved for any judgement;
      `JudgeIn(env)` is the one processScrapedEvents uses. */
  type Judging = (World, Node) -> Verdict

  function JudgeIn(env: Env): Judging {
    (w: World, e: Node) => Judge(w, e, env)
  }

  /** The body of the inner loop for one record, under any judgement. */
  function StepBy(s: State, e: Node, judge: Judging): (r: State)
    ensures Counted(r.counters) == Counted(s.counters) + 1
    ensures r.counters.success == s.counters.success ==> r.world == s.world
    ensures r.counters.totalProcessed + r.counters.skip == s.counters.totalProcessed + s.counters.skip + 1
    ensures r.counters.totalProcessed - s.counters.totalProcessed
         == (r.counters.success - s.counters.success) + (r.counters.error - s.counters.error)
  {
    var v := judge(s.world, e);
    State(if v.Succeeded? then v.world else s.world, Tally(s.counters, v))
  }

  /** The body of the inner loop for one record: a record without a URL or
      with a processed one is a skip that touches nothing else. */
  function Step(s: State, e: Node, env: Env): (r: State)
    ensures Counted(r.counters) == Counted(s.counters) + 1
    ensures EarlySkip(s.world, e) ==> r == s.(counters := s.counters.(skip := s.counters.skip + 1))
    ensures r.counters.success == s.counters.success ==> r.world == s.world
    ensures r.counters.totalProcessed + r.counters.skip == s.counters.totalProcessed + s.counters.skip + 1
  {
    StepBy(s, e, JudgeIn(env))
  }

  /** The steps over `events`, in order. */
  function FoldBy(s: State, events: seq<Node>, judge: Judging): State {
    if |events| == 0 then s
    else StepBy(FoldBy(s, events[..|events| - 1], judge), events[|events| - 1], judge)
  }

  function Fold(s: State, events: seq<Node>, env: Env): State {
    FoldBy(s, events, JudgeIn(env))
  }

  /** A fold over a non-empty sequence is a step after the fold of its front. */
  lemma FoldLast(s: State, events: seq<Node>, env: Env)
    requires |events| > 0
    ensures Fold(s, events, env) == Step(Fold(s, events[..|events| - 1], env), events[|events| - 1], env)
  {
  }

  function Min(a: int, b: int): int {
    if a < b then a else b
  }

  /** `flushes` raised by k. */
  function AddFlushes(s: State, k: nat): State {
    s.(counters := s.counters.(flushes := s.counters.flushes + k))
  }

  /** The batch loop from index i: records [i, min(i + 20, n)), then a flush,
      then the next batch. */
  function RunFrom(s: State, events: seq<Node>, i: nat, judge: Judging): State
    decreases |events| - i
  {
    if i < |events| then
      var end := Min(i + BATCH_SIZE, |events|);
      RunFrom(AddFlushes(FoldBy(s, events[i..end], judge), 1), events, i + BATCH_SIZE, judge)
    else s
  }

  /** One call: preload, then the batch loop from index 0 with fresh counters. */
  function Run(w: World, events: seq<Node>, env: Env): State {
    RunFrom(State(Preload(w), NoCounts), events, 0, JudgeIn(env))
  }

  /** The number of batches from index i. */
  function BatchesFrom(n: nat, i: nat): nat
    decreases n - i
  {
    if i < n then 1 + BatchesFrom(n, i + BATCH_SIZE) else 0
  }

  /** The batches [i, min(i + 20, n)) from index i, in order. */
  function Batches(events: seq<Node>, i: nat): seq<seq<Node>>
    decreases |events| - i
  {
    if i < |events| then [events[i..Min(i + BATCH_SIZE, |events|)]] + Batches(events, i + BATCH_SIZE)
    else []
  }

  function Concat(bs: seq<seq<Node>>): seq<Node> {
    if |bs| == 0 then [] else bs[0] + Concat(bs[1..])
  }

  /** The batches cover every record once, in order; each holds 1 to 20
      records and every one but the last holds exactly 20. */
  lemma {:induction false} BatchesCover(events: seq<Node>, i: nat)
    requires i <= |events|
    ensures Concat(Batches(events, i)) == events[i..]
    ensures |Batches(events, i)| == BatchesFrom(|events|, i)
    ensures forall k :: 0 <= k < |Batches(events, i)| ==> 1 <= |Batches(events, i)[k]| <= BATCH_SIZE
    ensures forall k :: 0 <= k < |Batches(events, i)| - 1 ==> |Batches(events, i)[k]| == BATCH_SIZE
    decreases |events| - i
  {
    if i < |events| {
      var end := Min(i + BATCH_SIZE, |events|);
      var rest := Batches(events, i + BATCH_SIZE);
      if i + BATCH_SIZE <= |events| {
        BatchesCover(events, i + BATCH_SIZE);
        assert events[i..] == events[i..end] + events[end..];
      } else {
        assert rest == [];
        assert events[i..] == events[i..end];
      }
      assert Batches(events, i)[1..] == rest;
    }
  }

  /** Folding over a concatenation is folding over each part in turn. */
  lemma {:induction false} FoldAppend(s: State, a: seq<Node>, b: seq<Node>, judge: Judging)
    ensures FoldBy(s, a + b, judge) == FoldBy(FoldBy(s, a, judge), b, judge)
  {
    if |b| > 0 {
      FoldAppend(s, a, b[..|b| - 1], judge);
      assert (a + b)[..|a + b| - 1] == a + b[..|b| - 1];
    } else {
      assert a + b == a;
    }
  }

  /** The counters after a verdict do not depend on the flushes so far. */
  lemma TallyIgnoresFlushes(c: Counters, v: Verdict, k: nat)
    ensures Tally(c.(flushes := c.flushes + k), v) == Tally(c, v).(flushes := Tally(c, v).flushes + k)
  {
  }

  /** A step never reads the flush count. */
  lemma StepIgnoresFlushes(s: State, e: Node, judge: Judging, k: nat)
    ensures StepBy(AddFlushes(s, k), e, judge) == AddFlushes(StepBy(s, e, judge), k)
  {
    assert AddFlushes(s, k).world == s.world;
    TallyIgnoresFlushes(s.counters, judge(s.world, e), k);
  }

  lemma {:induction false} FoldIgnoresFlushes(s: State, events: seq<Node>, judge: Judging, k: nat)
    ensures FoldBy(AddFlushes(s, k), events, judge) == AddFlushes(FoldBy(s, events, judge), k)
  {
    if |events| > 0 {
      FoldIgnoresFlushes(s, events[..|events| - 1], judge, k);
      StepIgnoresFlushes(FoldBy(s, events[..|events| - 1], judge), events[|events| - 1], judge, k);
    }
  }

  /** Batching is transparent: the batch loop is the plain fold over every
      record, plus one flush per batch. */
  lemma {:induction false} RunFromIsFold(s: State, events: seq<Node>, i: nat, judge: Judging)
    requires i <= |events|
    ensures RunFrom(s, events, i, judge) == AddFlushes(FoldBy(s, events[i..], judge), BatchesFrom(|events|, i))
    decreases |events| - i
  {
    if i < |events| {
      var end := Min(i + BATCH_SIZE, |events|);
      var t := AddFlushes(FoldBy(s, events[i..end], judge), 1);
      assert events[i..] == events[i..end] + events[end..];
      FoldAppend(s, events[i..end], events[end..], judge);
      FoldIgnoresFlushes(FoldBy(s, events[i..end], judge), events[end..], judge, 1);
      if i + BATCH_SIZE <= |events| {
        RunFromIsFold(t, events, i + BATCH_SIZE, judge);
      } else {
        assert events[end..] == [];
      }
    } else {
      assert events[i..] == [];
    }
  }

  lemma RunIsFold(w: World, events: seq<Node>, env: Env)
    ensures Run(w, events, env)
         == AddFlushes(Fold(State(Preload(w), NoCounts), events, env), BatchesFrom(|events|, 0))
  {
    RunFromIsFold(State(Preload(w), NoCounts), events, 0, JudgeIn(env));
    assert events[0..] == events;
  }

  /** The counter invariant of a fold started from fresh counters. */
  predicate CountersAgree(c: Counters) {
    && c.flushCounter == c.success % FLUSH_THRESHOLD
    && c.flushes == c.success / FLUSH_THRESHOLD
    && c.totalProcessed == c.success + c.error
  }

  /** One more success moves `n % 50` and `n / 50` the way the pending
      counter and the periodic flush move. */
  lemma SuccessArithmetic(n: nat)
    ensures var wraps := n % FLUSH_THRESHOLD + 1 >= FLUSH_THRESHOLD;
      && (n + 1) % FLUSH_THRESHOLD == (if wraps then 0 else n % FLUSH_THRESHOLD + 1)
      && (n + 1) / FLUSH_THRESHOLD == n / FLUSH_THRESHOLD + (if wraps then 1 else 0)
  {
    var q, r := n / FLUSH_THRESHOLD, n % FLUSH_THRESHOLD;
    assert n == FLUSH_THRESHOLD * q + r;
    if r + 1 >= FLUSH_THRESHOLD {
      assert n + 1 == FLUSH_THRESHOLD * (q + 1);
    } else {
      assert n + 1 == FLUSH_THRESHOLD * q + (r + 1);
    }
  }

  lemma TallyKeepsCounters(c: Counters, v: Verdict)
    requires CountersAgree(c)
    ensures CountersAgree(Tally(c, v))
  {
    if v.Succeeded? {
      SuccessArithmetic(c.success);
    }
  }

  /** Over a fold from fresh counters every record is counted exactly once as
      a success, a skip or an error; the pending-flush counter is the number
      of successes modulo 50, so it stays below 50; one flush happens per 50
      successes; and the progress counter misses exactly the early skips. */
  lemma {:induction false} FoldCounters(s: State, events: seq<Node>, judge: Judging)
    requires CountersAgree(s.counters)
    ensures var c := FoldBy(s, events, judge).counters;
      Counted(c) == Counted(s.counters) + |events| && CountersAgree(c)
  {
    if |events| > 0 {
      var prev := FoldBy(s, events[..|events| - 1], judge);
      FoldCounters(s, events[..|events| - 1], judge);
      TallyKeepsCounters(prev.counters, judge(prev.world, events[|events| - 1]));
    }
  }

  /** Counter totals of a whole call over n records: success + skip + error
      is n, totalProcessed leaves out the skips, flushCounter ends below 50,
      and the flushes are one per batch plus one per 50 successes. */
  predicate RunTotals(c: Counters, n: nat) {
    && c.success + c.skip + c.error == n
    && c.totalProcessed == c.success + c.error
    && c.flushCounter == c.success % FLUSH_THRESHOLD
    && c.flushes == BatchesFrom(n, 0) + c.success / FLUSH_THRESHOLD
  }

  lemma FlushedTotals(f: Counters, n: nat)
    requires Counted(f) == n && CountersAgree(f)
    ensures RunTotals(f.(flushes := f.flushes + BatchesFrom(n, 0)), n)
  {
  }

  lemma FreshCounters(c: Counters)
    requires c == NoCounts
    ensures CountersAgree(c) && Counted(c) == 0
  {
  }

  lemma RunFromCounters(s: State, events: seq<Node>, judge: Judging)
    requires CountersAgree(s.counters) && Counted(s.counters) == 0
    ensures RunTotals(RunFrom(s, events, 0, judge).counters, |events|)
  {
    RunFromIsFold(s, events, 0, judge);
    assert events[0..] == events;
    FoldCounters(s, events, judge);
    FlushedTotals(FoldBy(s, events, judge).counters, |events|);
  }

  lemma RunCounters(w: World, events: seq<Node>, env: Env)
    ensures RunTotals(Run(w, events, env).counters, |events|)
  {
    var s := State(Preload(w), NoCounts);
    var judge := JudgeIn(env);
    assert Run(w, events, env) == RunFrom(s, events, 0, judge);
    FreshCounters(s.counters);
    RunFromCounters(s, events, judge);
  }

  lemma FoldSnoc(s: State, events: seq<Node>, i: nat, j: nat, judge: Judging)
    requires i <= j < |events|
    ensures FoldBy(s, events[i..j + 1], judge) == StepBy(FoldBy(s, events[i..j], judge), events[j], judge)
  {
    var t := events[i..j + 1];
    assert t[..|t| - 1] == events[i..j];
    assert t[|t| - 1] == events[j];
  }

  /** The two nested loops of processScrapedEvents, under any judgement:
      batches of 20 from index 0, a flush after each. */
  method RunBatches(s0: State, events: seq<Node>, judge: Judging) returns (s: State)
    ensures s == RunFrom(s0, events, 0, judge)
  {
    s := s0;
    var i := 0;
    while i < |events|
      invariant RunFrom(s, events, i, judge) == RunFrom(s0, events, 0, judge)
      decreases |events| - i
    {
      var end := Min(i + BATCH_SIZE, |events|);
      ghost var start := s;
      var j := i;
      while j < end
        invariant i <= j <= end
        invariant s == FoldBy(start, events[i..j], judge)
      {
        FoldSnoc(start, events, i, j, judge);
        s := StepBy(s, events[j], judge);
        j := j + 1;
      }
      assert RunFrom(start, events, i, judge) == RunFrom(AddFlushes(s, 1), events, i + BATCH_SIZE, judge);
      s := AddFlushes(s, 1);
      i := i + BATCH_SIZE;
    }
  }

  /** processScrapedEvents: preload, then the batch loop with processEvent as
      the judgement. */
  method ProcessScrapedEvents(w: World, events: seq<Node>, env: Env) returns (world: World, counters: Counters)
    ensures State(world, counters) == Run(w, events, env)
    ensures RunTotals(counters, |events|)
    ensures counters.flushCounter < FLUSH_THRESHOLD
  {
    var s := RunBatches(State(Preload(w), NoCounts), events, JudgeIn(env));
    world, counters := s.world, s.counters;
    RunCounters(w, events, env);
  }
}
