/** The scheduler object: its log of runs, and the tick as the loop it is. The
    object remembers its ticks, and its log is what this history leaves, so that
    the theorems of `SchedulerHistory` hold of the object. */
module ResearchScheduler {
  import opened Wrappers
  import opened LexOrder
  import T = SchedulerTick
  import opened SchedulerRuns
  import DryRun = SchedulerDryRun
  import H = SchedulerHistory

  datatype Run = Run(dry: bool, decisions: seq<T.Decision>)

  /** The related ids of all real runs so far. */
  function ProcessedBy(runs: seq<Run>): set<string> {
    set r, d | r in runs && !r.dry && d in r.decisions && d.related.Some? :: d.related.value
  }

  /** The related ids of all real runs in the order they were acted on. */
  function RelatedInLog(runs: seq<Run>): seq<string> {
    if runs == [] then []
    else
      var last := runs[|runs| - 1];
      RelatedInLog(runs[..|runs| - 1]) + if last.dry then [] else RelatedIds(last.decisions)
  }

  /** The log that a history of ticks leaves. */
  function Log(h: seq<H.TickInput>): (runs: seq<Run>)
    requires H.AreValid(h)
    ensures |runs| == |h|
  {
    if h == [] then []
    else
      var init, t := h[..|h| - 1], h[|h| - 1];
      assert H.IsValidTick(t);
      Log(init) + [Run(t.dry, T.Recorded(H.Decisions(t, H.Processed(init))))]
  }

  lemma RecordedRelated(decisions: seq<T.Decision>)
    ensures RelatedIds(T.Recorded(decisions)) == RelatedIds(decisions)
    ensures T.Related(T.Recorded(decisions)) == T.Related(decisions)
  {
    if decisions == [] {
      assert T.Related(decisions) == {} && T.Related(T.Recorded(decisions)) == {};
      assert RelatedIds(T.Recorded(decisions)) == RelatedIds([]);
    }
  }

  lemma ProcessedAppend(runs: seq<Run>, run: Run)
    ensures ProcessedBy(runs + [run]) == ProcessedBy(runs) + if run.dry then {} else T.Related(run.decisions)
  {
  }

  /** The log says of a history what its ticks did. */
  lemma {:induction false} LogSays(h: seq<H.TickInput>)
    requires H.AreValid(h)
    ensures RelatedInLog(Log(h)) == H.ActedOn(h) && ProcessedBy(Log(h)) == H.Processed(h)
  {
    if h != [] {
      var init, t := h[..|h| - 1], h[|h| - 1];
      assert H.IsValidTick(t);
      LogSays(init);
      var run := Run(t.dry, T.Recorded(H.Decisions(t, H.Processed(init))));
      RecordedRelated(H.Decisions(t, H.Processed(init)));
      ProcessedAppend(Log(init), run);
      hide ProcessedBy, H.Decisions, T.Recorded, RelatedIds, T.Related;
      assert Log(h)[..|h| - 1] == Log(init);
    }
  }

  lemma LogAppend(h: seq<H.TickInput>, t: H.TickInput)
    requires H.AreValid(h) && H.IsValidTick(t)
    ensures H.AreValid(h + [t])
    ensures var p := T.Tick(t.world, t.policy, ProcessedBy(Log(h)), t.dry, t.listing, t.ids);
            && Log(h + [t]) == Log(h) + [Run(t.dry, T.Recorded(p.decisions))]
            && (t.dry ==> ProcessedBy(Log(h + [t])) == ProcessedBy(Log(h)))
  {
    hide T.Tick, T.Recorded, T.Related, ProcessedBy, RelatedInLog, H.IsValidTick;
    LogSays(h);
    var more, run := h + [t], Run(t.dry, T.Recorded(H.Decisions(t, H.Processed(h))));
    assert more[..|h|] == h && more[|h|] == t;
    ProcessedAppend(Log(h), run);
    assert H.AreValid(more);
    assert Log(more) == Log(h) + [run];
  }

  class Scheduler {
    var runs: seq<Run>
    /** Every tick so far. */
    ghost var history: seq<H.TickInput>

    /** The log is what these ticks leave, so everything proved of every history of
        ticks holds of the object. */
    ghost predicate Valid()
      reads this
    {
      H.AreValid(history) && runs == Log(history)
    }

    constructor ()
      ensures Valid() && runs == [] && history == []
    {
      runs, history := [], [];
    }

    /** Whatever was ticked, dry or real, no related id is in the log twice. */
    lemma ActsAtMostOnce()
      requires Valid() && H.AreDistinct(history)
      ensures NoDup(RelatedInLog(runs)) && Elements(RelatedInLog(runs)) == ProcessedBy(runs)
    {
      LogSays(history);
      H.ActedOnAtMostOnce(history);
    }

    method ProcessedRelatedIds() returns (processed: set<string>)
      ensures processed == ProcessedBy(runs)
    {
      processed := {};
      for i := 0 to |runs|
        invariant processed == ProcessedBy(runs[..i])
      {
        var run := runs[i];
        assert runs[..i + 1] == runs[..i] + [run];
        if !run.dry {
          var found := set d | d in run.decisions && d.related.Some? :: d.related.value;
          assert ProcessedBy(runs[..i + 1]) == ProcessedBy(runs[..i]) + found;
          processed := processed + found;
        } else {
          assert ProcessedBy(runs[..i + 1]) == ProcessedBy(runs[..i]);
        }
      }
      assert runs[..|runs|] == runs;
    }

    /** children.get(...) + 1 over the listing. */
    method CountChildren(w: T.World, listing: seq<string>) returns (children: map<string, nat>)
      requires T.IsListing(w, listing)
      ensures children == T.ChildCounts(w.branches)
    {
      hide CountsSeen;
      T.ListingCovers(w, listing);
      children := map[];
      NothingSeen(w);
      for i := 0 to |listing|
        invariant CountsSeen(w, listing[..i], children)
      {
        var b := listing[i];
        assert b in listing;
        SeeOneMore(w, listing, i, children);
        if w.branches[b].parent.Some? {
          var p := w.branches[b].parent.value;
          children := children[p := T.Count(children, p) + 1];
        }
      }
      assert listing[..|listing|] == listing;
      AllSeen(w, listing, children);
    }

    ghost function SeenChildren(w: T.World, seen: seq<string>, p: string): set<string> {
      set c | c in seen && c in w.branches && w.branches[c].parent == Some(p)
    }

    ghost predicate CountsSeen(w: T.World, seen: seq<string>, children: map<string, nat>) {
      forall p :: T.Count(children, p) == |SeenChildren(w, seen, p)|
        && (p in children <==> SeenChildren(w, seen, p) != {})
    }

    lemma NothingSeen(w: T.World)
      ensures CountsSeen(w, [], map[])
    {
      assert forall p :: SeenChildren(w, [], p) == {};
    }

    lemma SeenGrows(w: T.World, seen: seq<string>, b: string, p: string)
      requires b !in seen && b in w.branches
      ensures var more := SeenChildren(w, seen + [b], p);
              if w.branches[b].parent == Some(p)
              then more == SeenChildren(w, seen, p) + {b} && |more| == |SeenChildren(w, seen, p)| + 1
              else more == SeenChildren(w, seen, p)
    {
      if w.branches[b].parent == Some(p) {
        assert SeenChildren(w, seen + [b], p) == SeenChildren(w, seen, p) + {b};
      } else {
        assert SeenChildren(w, seen + [b], p) == SeenChildren(w, seen, p);
      }
    }

    lemma SeeOneMore(w: T.World, listing: seq<string>, i: nat, children: map<string, nat>)
      requires i < |listing| && NoDup(listing) && listing[i] in w.branches && CountsSeen(w, listing[..i], children)
      ensures var parent := w.branches[listing[i]].parent;
              CountsSeen(w, listing[..i + 1],
                if parent.Some? then children[parent.value := T.Count(children, parent.value) + 1] else children)
    {
      var b := listing[i];
      assert listing[..i + 1] == listing[..i] + [b];
      assert b !in listing[..i];
      var parent := w.branches[b].parent;
      var more := if parent.Some? then children[parent.value := T.Count(children, parent.value) + 1] else children;
      forall p
        ensures T.Count(more, p) == |SeenChildren(w, listing[..i + 1], p)|
        ensures p in more <==> SeenChildren(w, listing[..i + 1], p) != {}
      {
        SeenGrows(w, listing[..i], b, p);
        hide SeenChildren;
        assert T.Count(children, p) == |SeenChildren(w, listing[..i], p)|;
      }
    }

    lemma AllSeen(w: T.World, listing: seq<string>, children: map<string, nat>)
      requires (forall b :: b in listing <==> b in w.branches) && CountsSeen(w, listing, children)
      ensures children == T.ChildCounts(w.branches)
    {
      var counts := T.ChildCounts(w.branches);
      forall p
        ensures SeenChildren(w, listing, p) == T.ChildrenOf(w.branches, p)
        ensures p in counts <==> p in children
      {
        assert SeenChildren(w, listing, p) == T.ChildrenOf(w.branches, p);
        ParentIsCounted(w, p);
      }
      assert counts.Keys == children.Keys;
    }

    lemma ParentIsCounted(w: T.World, p: string)
      ensures p in T.ChildCounts(w.branches) <==> T.ChildrenOf(w.branches, p) != {}
    {
      var parents := set c | c in w.branches && w.branches[c].parent.Some? :: w.branches[c].parent.value;
      assert T.ChildCounts(w.branches).Keys == parents;
      if p in parents {
        var c :| c in w.branches && w.branches[c].parent.Some? && w.branches[c].parent.value == p;
        assert c in T.ChildrenOf(w.branches, p);
      }
      if T.ChildrenOf(w.branches, p) != {} {
        var c :| c in T.ChildrenOf(w.branches, p);
        assert w.branches[c].parent.value in parents;
      }
    }

    method VisitListing(
      w: T.World, policy: T.Policy, processed: set<string>, dry: bool, listing: seq<string>, ids: seq<string>,
      start: T.Progress)
      returns (p: T.Progress)
      requires (forall b :: b in listing ==> b in w.branches) && start.drawn + |listing| <= |ids|
      ensures p == T.VisitBranches(w, policy, processed, dry, ids, listing, start)
    {
      hide T.Act, T.Decide;
      p := start;
      var i := 0;
      while i < |listing|
        invariant 0 <= i <= |listing| && p.drawn <= start.drawn + i
        invariant forall b :: b in listing[i..] ==> b in w.branches
        invariant T.VisitBranches(w, policy, processed, dry, ids, listing[i..], p)
               == T.VisitBranches(w, policy, processed, dry, ids, listing, start)
      {
        var b := listing[i];
        assert b in listing;
        assert listing[i..] == [b] + listing[i + 1..];
        T.VisitDraws(w, policy, processed, dry, ids, b, p);
        var d := T.Decide(w.branches[b], T.SessionOf(w, b), policy, processed, T.CanSpawn(p, policy, Some(b)));
        if d.Some? {
          p := T.Act(p, d.value, Some(b), dry, ids);
        }
        i := i + 1;
      }
    }

    method VisitDigests(
      w: T.World, policy: T.Policy, processed: set<string>, dry: bool, ids: seq<string>, p: T.Progress)
      returns (q: T.Progress)
      requires p.drawn < |ids|
      ensures q == T.ObstaclePhase(w, policy, processed, dry, ids, p)
    {
      if !policy.onObstacle {
        return p;
      }
      var i := 0;
      while i < |w.digests|
        invariant 0 <= i <= |w.digests|
        invariant T.CanSpawn(p, policy, None) ==>
                  T.FirstDigest(w.digests[i..], processed) == T.FirstDigest(w.digests, processed)
      {
        var d := w.digests[i];
        assert w.digests[i..] == [d] + w.digests[i + 1..];
        if T.HasObstacle(d) && T.DigestMarker(d) !in processed && T.CanSpawn(p, policy, None) {
          return T.Act(p, T.Decision(T.Generate, Some(d.source), None, Some(T.DigestMarker(d))), None, dry, ids);
        }
        i := i + 1;
      }
      return p;
    }

    method VisitChallenges(
      w: T.World, policy: T.Policy, processed: set<string>, dry: bool, ids: seq<string>, p: T.Progress)
      returns (q: T.Progress)
      requires p.drawn < |ids|
      ensures q == T.ChallengePhase(w, policy, processed, dry, ids, p)
    {
      if !policy.onChallenge {
        return p;
      }
      var i := 0;
      while i < |w.challenges|
        invariant 0 <= i <= |w.challenges|
        invariant T.CanSpawn(p, policy, None) ==>
                    T.FirstChallenge(w.challenges[i..], w.versions, processed)
                      == T.FirstChallenge(w.challenges, w.versions, processed)
      {
        var c := w.challenges[i];
        assert w.challenges[i..] == [c] + w.challenges[i + 1..];
        if c.isOpen && c.id !in processed && T.CanSpawn(p, policy, None) && c.knowledge in w.versions {
          var parent := w.versions[c.knowledge];
          return T.Act(p, T.Decision(T.Fork, Some(parent), None, Some(c.id)), Some(parent), dry, ids);
        }
        i := i + 1;
      }
      return p;
    }

    /** One tick. The log grows by the recorded run; the branches change only in a
        real run, by exactly the recorded decisions. */
    method Tick(
      w: T.World, policy: T.Policy, dry: bool, listing: seq<string>, ids: seq<string>)
      returns (run: Run, after: T.World)
      requires Valid() && T.IsListing(w, listing) && T.AreNew(w, ids, |listing|)
      modifies this
      ensures Valid() && history == old(history) + [H.TickInput(w, policy, dry, listing, ids)]
      ensures dry ==> ProcessedBy(runs) == ProcessedBy(old(runs)) && after == w
      ensures var p := T.Tick(w, policy, ProcessedBy(old(runs)), dry, listing, ids);
              run == Run(dry, T.Recorded(p.decisions)) && after == T.After(w, p)
      ensures runs == old(runs) + [run]
    {
      ghost var t := H.TickInput(w, policy, dry, listing, ids);
      LogAppend(history, t);
      if dry {
        DryRun.DryTickChangesNothing(w, policy, ProcessedBy(runs), listing, ids);
      }
      hide T.IsListing, T.AreNew, T.Act, T.Decide, T.ObstaclePhase, T.ChallengePhase, ProcessedBy;
      hide H.AreValid, Log;
      var processed := ProcessedRelatedIds();
      T.ListingCovers(w, listing);
      IdsSuffice(w, ids, |listing|);
      var children := CountChildren(w, listing);
      var p := T.Progress(w.branches, |T.LiveBranches(w.branches)|, children, [], 0);
      p := VisitListing(w, policy, processed, dry, listing, ids, p);
      ObstacleDraws(w, policy, processed, dry, ids, p);
      p := VisitDigests(w, policy, processed, dry, ids, p);
      p := VisitChallenges(w, policy, processed, dry, ids, p);
      run := Run(dry, T.Recorded(p.decisions));
      runs, history := runs + [run], history + [t];
      after := T.After(w, p);
    }

    lemma IdsSuffice(w: T.World, ids: seq<string>, n: nat)
      requires T.AreNew(w, ids, n)
      ensures |ids| >= n + 2
    {
    }

    lemma ObstacleDraws(
      w: T.World, policy: T.Policy, processed: set<string>, dry: bool, ids: seq<string>, p: T.Progress)
      requires p.drawn < |ids|
      ensures T.ObstaclePhase(w, policy, processed, dry, ids, p).drawn <= p.drawn + 1
    {
    }
  }
}
