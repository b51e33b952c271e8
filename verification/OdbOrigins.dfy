/**
Which objects directory an odb was loaded from (git/repository.c,
repository_odb_cache_attach). The runs of OdbProtocol are traced with the path and the
graph state of every opening, and with those that each odb was loaded for. In every run a
repository that is handed out holds an odb of its own path and of the graph state that was
read when it was opened, reused or not.
 */
module OdbOrigins {
  import opened Bytes
  import opened OdbCache
  import opened OdbProtocol

  /** The objects path of a repository, and the graph state read when it was opened. */
  datatype Opening = Opening(path: string, state: GraphState)

  /** What an odb was loaded for; freeing loads one with no graph state read. */
  datatype Origin = Origin(path: string, state: Option<GraphState>)

  /** A state with its history: one opening for each repository ever opened. */
  datatype Traced = Traced(s: State, openings: seq<Opening>, origins: map<Odb, Origin>)

  // ---------- traced steps ----------

  ghost predicate TracedOpen(x: Traced, x': Traced, t: nat, path: string, state: GraphState) {
    && Open(x.s, x'.s, t, path, state)
    && x'.openings == x.openings + [Opening(path, state)] && x'.origins == x.origins
  }

  /** libgit2 loads the odb of the repository, from the objects directory of the repository. */
  ghost predicate TracedLoad(x: Traced, x': Traced, t: nat, o: Odb) {
    && LoadCandidate(x.s, x'.s, t, o) && x.s.threads[t].repo < |x.openings|
    && var mine := x.openings[x.s.threads[t].repo];
       x'.openings == x.openings && x'.origins == x.origins[o := Origin(mine.path, Some(mine.state))]
  }

  ghost predicate TracedBeginFree(x: Traced, x': Traced, t: nat, r: nat, o: Odb, loads: bool) {
    && BeginFree(x.s, x'.s, t, r, o, loads) && r < |x.openings|
    && x'.openings == x.openings
    && x'.origins == if x.s.repos[r].odb.None? && loads then x.origins[o := Origin(x.openings[r].path, None)]
                     else x.origins
  }

  ghost predicate Quiet(s: State, s': State, t: nat) {
    || (exists accepted :: FirstSection(s, s', t, accepted))
    || GiveUp(s, s', t)
    || (exists accepted :: SecondSection(s, s', t, accepted))
    || DropLocal(s, s', t)
    || FreeRepository(s, s', t)
    || ReleaseSection(s, s', t)
  }

  ghost predicate TracedStep(x: Traced, x': Traced) {
    || (exists t, path, state :: TracedOpen(x, x', t, path, state))
    || (exists t, o :: TracedLoad(x, x', t, o))
    || (exists t, r, o, loads :: TracedBeginFree(x, x', t, r, o, loads))
    || (&& x'.openings == x.openings && x'.origins == x.origins
        && ((exists t :: Quiet(x.s, x'.s, t)) || CleanSection(x.s, x'.s) || (exists i :: DrainOne(x.s, x'.s, i))))
  }

  // ---------- the invariant ----------

  ghost predicate LoadedFor(x: Traced, o: Odb, path: string, state: GraphState) {
    o in x.origins && x.origins[o] == Origin(path, Some(state))
  }

  ghost predicate SlotsTrue(x: Traced) {
    forall i :: 0 <= i < |x.s.cache.slots| && x.s.cache.slots[i].odb.Some? ==>
      var slot := x.s.cache.slots[i]; LoadedFor(x, slot.odb.value, slot.path, slot.state)
  }

  /** A handed out repository holds what it was opened for; one that is being freed at least its path. */
  ghost predicate ReposTrue(x: Traced) {
    && |x.openings| == |x.s.repos|
    && (forall r :: 0 <= r < |x.s.repos| && RepoOdb(x.s.repos[r]).Some? ==>
          var o := RepoOdb(x.s.repos[r]).value;
          && o in x.origins && x.origins[o].path == x.openings[r].path
          && (!x.s.repos[r].busy ==> x.origins[o].state == Some(x.openings[r].state)))
  }

  ghost predicate ThreadTrue(x: Traced, t: Thread) {
    && (t.Opened? || t.Missed? || t.Loaded? ==>
          t.repo < |x.openings| && x.openings[t.repo] == Opening(t.path, t.state))
    && (t.Loaded? ==> LoadedFor(x, t.candidate, t.path, t.state))
  }

  ghost predicate ThreadsTrue(x: Traced) {
    forall i :: 0 <= i < |x.s.threads| ==> ThreadTrue(x, x.s.threads[i])
  }

  ghost predicate True(x: Traced) {
    Inv(x.s) && SlotsTrue(x) && ReposTrue(x) && ThreadsTrue(x)
  }

  // ---------- preservation ----------

  lemma OpenTells(x: Traced, x': Traced, t: nat, path: string, state: GraphState)
    requires True(x) && TracedOpen(x, x', t, path, state)
    ensures SlotsTrue(x') && ReposTrue(x') && ThreadsTrue(x')
  {
    hide Inv;
  }

  lemma LoadTells(x: Traced, x': Traced, t: nat, o: Odb)
    requires True(x) && TracedLoad(x, x', t, o)
    ensures SlotsTrue(x') && ReposTrue(x') && ThreadsTrue(x')
  {
    FreshIsUnreachable(x.s, o);
    hide Inv;
  }

  lemma BeginFreeTells(x: Traced, x': Traced, t: nat, r: nat, o: Odb, loads: bool)
    requires True(x) && TracedBeginFree(x, x', t, r, o, loads)
    ensures SlotsTrue(x') && ReposTrue(x') && ThreadsTrue(x')
  {
    if x.s.repos[r].odb.None? && loads { FreshIsUnreachable(x.s, o); }
    hide Inv;
  }

  lemma FreshIsUnreachable(s: State, o: Odb)
    requires Inv(s) && Refs(s.refs, o) == 0
    ensures forall i :: 0 <= i < |s.cache.slots| ==> s.cache.slots[i].odb != Some(o)
    ensures forall r :: 0 <= r < |s.repos| ==> RepoOdb(s.repos[r]) != Some(o)
    ensures forall t :: 0 <= t < |s.threads| ==> Local(s.threads[t]) != Some(o)
  {
    hide Inv;
    if InReach(s, o) { ReachableIsCounted(s, o); }
  }

  lemma FirstSectionTells(x: Traced, x': Traced, t: nat, accepted: bool)
    requires True(x) && FirstSection(x.s, x'.s, t, accepted)
    requires x'.openings == x.openings && x'.origins == x.origins
    ensures SlotsTrue(x') && ReposTrue(x') && ThreadsTrue(x')
  {
    hide Inv, FindReusable;
  }

  lemma SecondSectionTells(x: Traced, x': Traced, t: nat, accepted: bool)
    requires True(x) && SecondSection(x.s, x'.s, t, accepted)
    requires x'.openings == x.openings && x'.origins == x.origins
    ensures SlotsTrue(x') && ReposTrue(x') && ThreadsTrue(x')
  {
    hide FindReusable, FindReplacement, ReferencesExact, HoldersExact;
    assert ThreadOk(x.s, x.s.threads[t]);
    assert ThreadTrue(x, x.s.threads[t]);
    hide Inv;
  }

  lemma GiveUpTells(x: Traced, x': Traced, t: nat)
    requires True(x) && (GiveUp(x.s, x'.s, t) || DropLocal(x.s, x'.s, t))
    requires x'.openings == x.openings && x'.origins == x.origins
    ensures SlotsTrue(x') && ReposTrue(x') && ThreadsTrue(x')
  {
    hide Inv;
  }

  lemma FreeTells(x: Traced, x': Traced, t: nat)
    requires True(x) && FreeRepository(x.s, x'.s, t)
    requires x'.openings == x.openings && x'.origins == x.origins
    ensures SlotsTrue(x') && ReposTrue(x') && ThreadsTrue(x')
  {
    hide Inv;
  }

  lemma ReleaseTells(x: Traced, x': Traced, t: nat)
    requires True(x) && ReleaseSection(x.s, x'.s, t)
    requires x'.openings == x.openings && x'.origins == x.origins
    ensures SlotsTrue(x') && ReposTrue(x') && ThreadsTrue(x')
  {
    hide Inv, FindOdb;
  }

  lemma CleanTells(x: Traced, x': Traced)
    requires True(x) && (CleanSection(x.s, x'.s) || exists i :: DrainOne(x.s, x'.s, i))
    requires x'.openings == x.openings && x'.origins == x.origins
    ensures SlotsTrue(x') && ReposTrue(x') && ThreadsTrue(x')
  {
    hide Inv;
  }

  lemma QuietTells(x: Traced, x': Traced, t: nat)
    requires True(x) && Quiet(x.s, x'.s, t) && x'.openings == x.openings && x'.origins == x.origins
    ensures SlotsTrue(x') && ReposTrue(x') && ThreadsTrue(x')
  {
    hide True, SlotsTrue, ReposTrue, ThreadsTrue, FirstSection, GiveUp, SecondSection, DropLocal, FreeRepository,
      ReleaseSection;
    if accepted :| FirstSection(x.s, x'.s, t, accepted) { FirstSectionTells(x, x', t, accepted); }
    if accepted :| SecondSection(x.s, x'.s, t, accepted) { SecondSectionTells(x, x', t, accepted); }
    if GiveUp(x.s, x'.s, t) || DropLocal(x.s, x'.s, t) { GiveUpTells(x, x', t); }
    if FreeRepository(x.s, x'.s, t) { FreeTells(x, x', t); }
    if ReleaseSection(x.s, x'.s, t) { ReleaseTells(x, x', t); }
  }

  /** A traced step is a step, and the invariant survives it. */
  lemma TracedStepKeeps(x: Traced, x': Traced)
    requires True(x) && TracedStep(x, x')
    ensures Step(x.s, x'.s) && True(x')
  {
    TracedStepIsStep(x, x');
    hide SlotsTrue, ReposTrue, ThreadsTrue, TracedOpen, TracedLoad, TracedBeginFree, Quiet, CleanSection, DrainOne, Inv,
      Step;
    StepKeepsInvariant(x.s, x'.s);
    if t, path, state :| TracedOpen(x, x', t, path, state) {
      OpenTells(x, x', t, path, state);
    } else if t, o :| TracedLoad(x, x', t, o) {
      LoadTells(x, x', t, o);
    } else if t, r, o, loads :| TracedBeginFree(x, x', t, r, o, loads) {
      BeginFreeTells(x, x', t, r, o, loads);
    } else if t :| Quiet(x.s, x'.s, t) {
      QuietTells(x, x', t);
    } else {
      CleanTells(x, x');
    }
  }

  lemma TracedStepIsStep(x: Traced, x': Traced)
    requires TracedStep(x, x')
    ensures Step(x.s, x'.s)
  {
    hide Open, FirstSection, GiveUp, LoadCandidate, SecondSection, DropLocal, BeginFree, FreeRepository,
      ReleaseSection, CleanSection, DrainOne;
    if t, path, state :| TracedOpen(x, x', t, path, state) {
      assert ThreadStep(x.s, x'.s, t);
    } else if t, o :| TracedLoad(x, x', t, o) {
      assert ThreadStep(x.s, x'.s, t);
    } else if t, r, o, loads :| TracedBeginFree(x, x', t, r, o, loads) {
      assert ThreadStep(x.s, x'.s, t);
    } else if t :| Quiet(x.s, x'.s, t) {
      assert ThreadStep(x.s, x'.s, t);
    }
  }

  /** Every step can be traced, so tracing leaves no run out. */
  lemma StepIsTraced(x: Traced, s': State) returns (x': Traced)
    requires True(x) && Step(x.s, s')
    ensures x'.s == s' && TracedStep(x, x')
  {
    hide Inv, SlotsTrue, FirstSection, GiveUp, SecondSection, DropLocal, FreeRepository, ReleaseSection,
      CleanSection, DrainOne, Open;
    x' := x.(s := s');
    if CleanSection(x.s, s') {
    } else if i :| DrainOne(x.s, s', i) {
    } else {
      var t: nat :| ThreadStep(x.s, s', t);
      if path, state :| Open(x.s, s', t, path, state) {
        x' := Traced(s', x.openings + [Opening(path, state)], x.origins);
        assert TracedOpen(x, x', t, path, state);
      } else if o: Odb :| LoadCandidate(x.s, s', t, o) {
        assert ThreadTrue(x, x.s.threads[t]);
        var mine := x.openings[x.s.threads[t].repo];
        x' := Traced(s', x.openings, x.origins[o := Origin(mine.path, Some(mine.state))]);
        assert TracedLoad(x, x', t, o);
      } else if r: nat, o: Odb, loads :| BeginFree(x.s, s', t, r, o, loads) {
        if x.s.repos[r].odb.None? && loads {
          x' := Traced(s', x.openings, x.origins[o := Origin(x.openings[r].path, None)]);
        }
        assert TracedBeginFree(x, x', t, r, o, loads);
      } else {
        assert Quiet(x.s, s', t);
      }
    }
  }

  // ---------- whole runs ----------

  ghost predicate TracedRun(xs: seq<Traced>) {
    && xs != [] && Initial(xs[0].s) && xs[0].openings == [] && xs[0].origins == map[]
    && forall i :: 0 <= i < |xs| - 1 ==> TracedStep(xs[i], xs[i + 1])
  }

  /**
  After every run: each slot holds an odb that was loaded for the path and graph state
  recorded in the slot; each repository holds an odb loaded from its own path; and once it
  is handed out, one for the graph state read when it was opened.
   */
  lemma {:induction false} RepositoriesHoldTheirOwn(xs: seq<Traced>)
    requires TracedRun(xs)
    ensures var x := xs[|xs| - 1];
            && (forall i, o :: 0 <= i < |x.s.cache.slots| && x.s.cache.slots[i].odb == Some(o) ==>
                  && o in x.origins
                  && x.origins[o] == Origin(x.s.cache.slots[i].path, Some(x.s.cache.slots[i].state)))
            && |x.openings| == |x.s.repos|
            && (forall r, o :: 0 <= r < |x.s.repos| && RepoOdb(x.s.repos[r]) == Some(o) ==>
                  && o in x.origins && x.origins[o].path == x.openings[r].path
                  && (!x.s.repos[r].busy ==> x.origins[o].state == Some(x.openings[r].state)))
  {
    hide Inv;
    TracedRunKeeps(xs);
  }

  lemma {:induction false} TracedRunKeeps(xs: seq<Traced>)
    requires TracedRun(xs)
    ensures True(xs[|xs| - 1])
  {
    hide Inv, TracedStep, RepoOdb;
    if |xs| == 1 {
      InitialInv(xs[0].s);
    } else {
      var front := xs[..|xs| - 1];
      forall i | 0 <= i < |front| - 1 ensures TracedStep(front[i], front[i + 1]) {
        assert TracedStep(xs[i], xs[i + 1]);
      }
      TracedRunKeeps(front);
      assert TracedStep(xs[|xs| - 2], xs[|xs| - 2 + 1]);
      TracedStepKeeps(xs[|xs| - 2], xs[|xs| - 1]);
    }
  }

  /** Every run has a trace. */
  lemma {:induction false} RunIsTraced(states: seq<State>) returns (xs: seq<Traced>)
    requires Run(states)
    ensures TracedRun(xs) && |xs| == |states| && forall i :: 0 <= i < |xs| ==> xs[i].s == states[i]
  {
    hide Step, TracedStep, Initial, True;
    if |states| == 1 {
      xs := [Traced(states[0], [], map[])];
    } else {
      var front := states[..|states| - 1];
      forall i | 0 <= i < |front| - 1 ensures Step(front[i], front[i + 1]) {
        assert Step(states[i], states[i + 1]);
      }
      var before := RunIsTraced(front);
      TracedRunKeeps(before);
      assert Step(states[|states| - 2], states[|states| - 2 + 1]);
      var last := StepIsTraced(before[|before| - 1], states[|states| - 1]);
      xs := before + [last];
      forall i | 0 <= i < |xs| - 1 ensures TracedStep(xs[i], xs[i + 1]) {
        if i < |before| - 1 { assert TracedStep(before[i], before[i + 1]); }
      }
    }
  }
}
