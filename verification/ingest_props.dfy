/**
 What a call of processScrapedEvents guarantees about the store and the
 service: one event per URL, name tables free of duplicates and described by
 their caches, and a second call over the same records that saves nothing.
 */
module IngestProps {
  import opened Wrappers
  import opened Json
  import opened RefCache
  import opened EventStore
  import opened Ingest

  /** Every stored event URL is in the processed set. */
  predicate UrlsSeen(w: World) {
    UrlsOf(w.store.events) <= w.svc.processedUrls
  }

  /** The invariant a call keeps. */
  predicate Healthy(w: World) {
    && CachesValid(w)
    && CachesCover(w)
    && TablesUnique(w.store)
    && LinksBounded(w.store)
    && UrlsSeen(w)
  }

  /** The rows from `base` on were saved by this call: each URL is in the
      processed set, was not in `seen0`, and no two share a URL. */
  predicate NewRowsFresh(st: Store, base: nat, seen0: set<string>, processed: set<string>) {
    && base <= |st.events|
    && seen0 <= processed
    && (forall i :: base <= i < |st.events| ==> st.events[i].url in processed && st.events[i].url !in seen0)
    && (forall i, j :: base <= i < j < |st.events| ==> st.events[i].url != st.events[j].url)
  }

  /** The world after a saved record: the saved world with the URL recorded. */
  lemma StepSaved(s: State, e: Node, env: Env)
    requires !EarlySkip(s.world, e) && ProcessEvent(s.world, e, env).Saved?
    ensures var w := ProcessEvent(s.world, e, env).world;
      && Step(s, e, env).world == w.(svc := w.svc.(processedUrls := w.svc.processedUrls + {GetEventUrl(e).value}))
      && Step(s, e, env).counters.success == s.counters.success + 1
  {
  }

  /** One record keeps the freshness of the rows saved so far, and saves at
      most one row, exactly when it counts a success. */
  lemma StepKeepsFresh(s: State, e: Node, env: Env, base: nat, seen0: set<string>)
    requires NewRowsFresh(s.world.store, base, seen0, s.world.svc.processedUrls)
    ensures var r := Step(s, e, env);
      && NewRowsFresh(r.world.store, base, seen0, r.world.svc.processedUrls)
      && s.world.store.events <= r.world.store.events
      && |r.world.store.events| - |s.world.store.events| == r.counters.success - s.counters.success
  {
    var r := Step(s, e, env);
    if r.counters.success != s.counters.success {
      var w := ProcessEvent(s.world, e, env).world;
      SavedShape(s.world, e, env);
      StepSaved(s, e, env);
      var url := GetEventUrl(e).value;
      var st := r.world.store;
      var n := |s.world.store.events|;
      assert st.events[n].url == url;
      forall i | base <= i < |st.events|
        ensures st.events[i].url in r.world.svc.processedUrls && st.events[i].url !in seen0
      {
        if i < n {
          assert st.events[i] == s.world.store.events[i];
        }
      }
      forall i, j | base <= i < j < |st.events| ensures st.events[i].url != st.events[j].url {
        assert st.events[i] == s.world.store.events[i];
        if j < n {
          assert st.events[j] == s.world.store.events[j];
        } else {
          assert st.events[i].url in s.world.svc.processedUrls;
        }
      }
    }
  }

  lemma {:induction false} FoldKeepsFresh(s: State, events: seq<Node>, env: Env, base: nat, seen0: set<string>)
    requires NewRowsFresh(s.world.store, base, seen0, s.world.svc.processedUrls)
    ensures var r := Fold(s, events, env);
      && NewRowsFresh(r.world.store, base, seen0, r.world.svc.processedUrls)
      && s.world.store.events <= r.world.store.events
      && |r.world.store.events| - |s.world.store.events| == r.counters.success - s.counters.success
  {
    if |events| > 0 {
      var prev := Fold(s, events[..|events| - 1], env);
      FoldKeepsFresh(s, events[..|events| - 1], env, base, seen0);
      StepKeepsFresh(prev, events[|events| - 1], env, base, seen0);
    }
  }

  /** One event per URL. A call keeps every stored row, saves exactly one row
      per success, and the saved rows carry pairwise distinct URLs, none of
      them stored before the call or processed by an earlier call; each ends
      in the processed set. */
  lemma OneEventPerUrl(w: World, events: seq<Node>, env: Env)
    ensures var r := Run(w, events, env);
      var st := r.world.store;
      var base := |w.store.events|;
      && w.store.events <= st.events
      && |st.events| == base + r.counters.success
      && (forall i :: base <= i < |st.events| ==>
            && st.events[i].url in r.world.svc.processedUrls
            && st.events[i].url !in w.svc.processedUrls
            && st.events[i].url !in UrlsOf(w.store.events))
      && (forall i, j :: base <= i < j < |st.events| ==> st.events[i].url != st.events[j].url)
  {
    var s := State(Preload(w), NoCounts);
    RunIsFold(w, events, env);
    var seen0 := s.world.svc.processedUrls;
    assert NewRowsFresh(s.world.store, |w.store.events|, seen0, seen0);
    FoldKeepsFresh(s, events, env, |w.store.events|, seen0);
  }

  /** A service with empty caches is valid for any store. */
  lemma FreshServiceValid(st: Store)
    ensures CachesValid(World(Service(map[], map[], map[], {}), st))
  {
  }

  /** One record keeps the invariant. */
  lemma StepKeepsHealthy(s: State, e: Node, env: Env)
    requires Healthy(s.world)
    ensures Healthy(Step(s, e, env).world)
  {
    var r := Step(s, e, env);
    if r.counters.success != s.counters.success {
      var w := ProcessEvent(s.world, e, env).world;
      SavedShape(s.world, e, env);
      SavedInvariants(s.world, e, env);
      StepSaved(s, e, env);
      var st := r.world.store;
      var n := |s.world.store.events|;
      forall i | 0 <= i < |st.events| ensures st.events[i].url in r.world.svc.processedUrls {
        if i < n {
          assert st.events[i] == s.world.store.events[i];
          assert st.events[i].url in UrlsOf(s.world.store.events);
        }
      }
    }
  }

  lemma {:induction false} FoldKeepsHealthy(s: State, events: seq<Node>, env: Env)
    requires Healthy(s.world)
    ensures Healthy(Fold(s, events, env).world)
  {
    if |events| > 0 {
      FoldKeepsHealthy(s, events[..|events| - 1], env);
      StepKeepsHealthy(Fold(s, events[..|events| - 1], env), events[|events| - 1], env);
    }
  }

  /** Preloading a consistent store gives a healthy world. */
  lemma PreloadHealthy(w: World)
    requires CachesValid(w) && TablesUnique(w.store) && LinksBounded(w.store)
    ensures Healthy(Preload(w))
  {
  }

  /** One row per name: a call on a store whose name tables hold no
      duplicates and whose links name existing events keeps all of that, and
      leaves every cache naming the right rows and holding every row name. */
  lemma RunKeepsHealthy(w: World, events: seq<Node>, env: Env)
    requires CachesValid(w) && TablesUnique(w.store) && LinksBounded(w.store)
    ensures Healthy(Run(w, events, env).world)
  {
    RunIsFold(w, events, env);
    PreloadHealthy(w);
    FoldKeepsHealthy(State(Preload(w), NoCounts), events, env);
  }

  /** A date of the record makes createEventFromNode throw. */
  predicate Faults(e: Node, toLocal: int -> Option<int>) {
    StampFaults(e, "start_date", toLocal) || StampFaults(e, "end_date", toLocal)
  }

  /** A record a later call will not save: no URL, a processed URL, or a
      date that throws. */
  predicate Handled(e: Node, seen: set<string>, toLocal: int -> Option<int>) {
    GetEventUrl(e).None? || GetEventUrl(e).value in seen || Faults(e, toLocal)
  }

  lemma StepHandles(s: State, e: Node, env: Env)
    ensures s.world.svc.processedUrls <= Step(s, e, env).world.svc.processedUrls
    ensures Handled(e, Step(s, e, env).world.svc.processedUrls, env.toLocal)
  {
    if !EarlySkip(s.world, e) && ProcessEvent(s.world, e, env).Saved? {
      StepSaved(s, e, env);
    }
  }

  /** After a call every record of it is handled. */
  lemma {:induction false} FoldHandles(s: State, events: seq<Node>, env: Env)
    ensures var p := Fold(s, events, env).world.svc.processedUrls;
      && s.world.svc.processedUrls <= p
      && forall k :: 0 <= k < |events| ==> Handled(events[k], p, env.toLocal)
  {
    if |events| > 0 {
      var init := events[..|events| - 1];
      var prev := Fold(s, init, env);
      FoldHandles(s, init, env);
      StepHandles(prev, events[|events| - 1], env);
      forall k | 0 <= k < |events| - 1
        ensures Handled(events[k], Fold(s, events, env).world.svc.processedUrls, env.toLocal)
      {
        assert events[k] == init[k];
      }
    }
  }

  /** Over handled records a fold changes no world and saves nothing; when no
      date throws, every record is a skip. */
  lemma {:induction false} FoldOverHandled(s: State, events: seq<Node>, env: Env)
    requires forall k :: 0 <= k < |events| ==> Handled(events[k], s.world.svc.processedUrls, env.toLocal)
    ensures Fold(s, events, env).world == s.world
    ensures Fold(s, events, env).counters.success == s.counters.success
    ensures (forall k :: 0 <= k < |events| ==> !Faults(events[k], env.toLocal)) ==>
      Fold(s, events, env).counters == s.counters.(skip := s.counters.skip + |events|)
  {
    if |events| > 0 {
      var init := events[..|events| - 1];
      forall k | 0 <= k < |init| ensures Handled(init[k], s.world.svc.processedUrls, env.toLocal) {
        assert init[k] == events[k];
      }
      FoldOverHandled(s, init, env);
      if forall k :: 0 <= k < |events| ==> !Faults(events[k], env.toLocal) {
        forall k | 0 <= k < |init| ensures !Faults(init[k], env.toLocal) {
          assert init[k] == events[k];
        }
      }
    }
  }

  /** After a call every stored URL is processed, and every record of the
      call is handled. */
  lemma RunHandles(w: World, events: seq<Node>, env: Env)
    ensures var r := Run(w, events, env).world;
      && UrlsSeen(r)
      && forall k :: 0 <= k < |events| ==> Handled(events[k], r.svc.processedUrls, env.toLocal)
  {
    var s := State(Preload(w), NoCounts);
    RunIsFold(w, events, env);
    var r := Fold(s, events, env).world;
    assert Run(w, events, env).world == r;
    FoldHandles(s, events, env);
    OneEventPerUrl(w, events, env);
    forall i | 0 <= i < |r.store.events| ensures r.store.events[i].url in r.svc.processedUrls {
      if i < |w.store.events| {
        assert r.store.events[i] == w.store.events[i];
        assert w.store.events[i].url in UrlsOf(w.store.events);
      }
    }
  }

  /** A call over records the world has already handled saves nothing and
      changes neither the store nor the processed set; when no date throws,
      every record is a skip. */
  lemma RunOverHandled(w: World, events: seq<Node>, env: Env)
    requires UrlsSeen(w)
    requires forall k :: 0 <= k < |events| ==> Handled(events[k], w.svc.processedUrls, env.toLocal)
    ensures var r := Run(w, events, env);
      && r.counters.success == 0
      && r.world.store == w.store
      && r.world.svc.processedUrls == w.svc.processedUrls
      && ((forall k :: 0 <= k < |events| ==> !Faults(events[k], env.toLocal)) ==>
            r.counters.skip == |events| && r.counters.error == 0)
  {
    var s := State(Preload(w), NoCounts);
    assert s.world.svc.processedUrls == w.svc.processedUrls;
    RunIsFold(w, events, env);
    FoldOverHandled(s, events, env);
  }

  /** Idempotence. A second call over the same records, with the same
      epoch conversion, saves nothing: the store and the processed set stay
      as the first call left them. When no date throws, every record is
      counted as a skip. */
  lemma SecondRunSavesNothing(w: World, events: seq<Node>, env1: Env, env2: Env)
    requires env2.toLocal == env1.toLocal
    ensures var r1 := Run(w, events, env1).world;
      var r2 := Run(r1, events, env2);
      && r2.counters.success == 0
      && r2.world.store == r1.store
      && r2.world.svc.processedUrls == r1.svc.processedUrls
      && ((forall k :: 0 <= k < |events| ==> !Faults(events[k], env1.toLocal)) ==>
            r2.counters.skip == |events| && r2.counters.error == 0)
  {
    RunHandles(w, events, env1);
    RunOverHandled(Run(w, events, env1).world, events, env2);
  }

  /** Two records with the same URL: once the first is saved, the second is
      skipped without touching anything. */
  lemma SameUrlSkippedAfterSave(s: State, e1: Node, e2: Node, env: Env)
    requires GetEventUrl(e1).Some? && GetEventUrl(e2) == GetEventUrl(e1)
    requires Step(s, e1, env).counters.success == s.counters.success + 1
    ensures var t := Step(s, e1, env);
      Step(t, e2, env) == t.(counters := t.counters.(skip := t.counters.skip + 1))
  {
    StepSaved(s, e1, env);
  }
}
