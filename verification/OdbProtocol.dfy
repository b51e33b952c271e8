/**
Concurrent runs of repository opening, freeing and cache cleaning (git/repository.c).
Each atomic step is one critical section or one libgit2 call made outside the lock; odbs
carry libgit2's reference count. The invariant says who holds every reference, so that no
odb that a slot, a repository or a thread still points to can have been freed.
 */
module OdbProtocol {
  import opened Bytes
  import opened OdbCache

  /** An opened repository; `busy` while one thread is attaching or freeing it. */
  datatype Repository = Gone | Live(odb: Option<Odb>, busy: bool)

  /** Where a thread stands, with its local variables. */
  datatype Thread =
    | Outside
    | Opened(repo: nat, path: string, state: GraphState)    // before the first critical section
    | Missed(repo: nat, path: string, state: GraphState)    // between the critical sections
    | Loaded(repo: nat, path: string, state: GraphState, candidate: Odb)
    | Freeing(repo: nat, held: Option<Odb>)                 // git_repository_odb done
    | Releasing(odb: Odb)                                   // git_repository_free done
    | Dropping(odb: Odb)                                    // one git_odb_free left to do

  datatype State = State(cache: Cache, repos: seq<Repository>, threads: seq<Thread>,
                         drain: seq<Option<Odb>>, refs: map<Odb, nat>)

  // ---------- counting references ----------

  function Count(s: seq<Option<Odb>>, o: Odb): nat {
    if s == [] then 0 else Count(s[..|s| - 1], o) + if s[|s| - 1] == Some(o) then 1 else 0
  }

  lemma {:induction false} CountUpdate(s: seq<Option<Odb>>, i: nat, v: Option<Odb>, o: Odb)
    requires i < |s|
    ensures Count(s[i := v], o) ==
            Count(s, o) - (if s[i] == Some(o) then 1 else 0) + (if v == Some(o) then 1 else 0)
  {
    var n := |s| - 1;
    if i == n {
      assert s[i := v][..n] == s[..n];
    } else {
      assert s[i := v][..n] == s[..n][i := v];
      CountUpdate(s[..n], i, v, o);
    }
  }

  lemma {:induction false} CountAppend(s: seq<Option<Odb>>, t: seq<Option<Odb>>, o: Odb)
    ensures Count(s + t, o) == Count(s, o) + Count(t, o)
  {
    if t == [] {
      assert s + t == s;
    } else {
      var n := |t| - 1;
      assert (s + t)[..|s| + n] == s + t[..n];
      CountAppend(s, t[..n], o);
    }
  }

  lemma {:induction false} CountOne(s: seq<Option<Odb>>, i: nat, o: Odb)
    requires i < |s| && s[i] == Some(o)
    ensures Count(s, o) >= 1
  {
    if i < |s| - 1 { CountOne(s[..|s| - 1], i, o); }
  }

  lemma {:induction false} CountTwo(s: seq<Option<Odb>>, i: nat, j: nat, o: Odb)
    requires i < j < |s| && s[i] == Some(o) && s[j] == Some(o)
    ensures Count(s, o) >= 2
  {
    if j < |s| - 1 { CountTwo(s[..|s| - 1], i, j, o); } else { CountOne(s[..|s| - 1], i, o); }
  }

  lemma {:induction false} CountNone(s: seq<Option<Odb>>, o: Odb)
    requires forall i :: 0 <= i < |s| ==> s[i] != Some(o)
    ensures Count(s, o) == 0
  {
    if s != [] { CountNone(s[..|s| - 1], o); }
  }

  // ---------- who points to what ----------

  function SlotOdbs(c: Cache): seq<Option<Odb>> {
    seq(|c.slots|, i requires 0 <= i < |c.slots| => c.slots[i].odb)
  }

  function RepoOdb(r: Repository): Option<Odb> {
    if r.Live? then r.odb else None
  }

  function RepoOdbs(repos: seq<Repository>): seq<Option<Odb>> {
    seq(|repos|, i requires 0 <= i < |repos| => RepoOdb(repos[i]))
  }

  /** The reference a thread keeps in a local variable. */
  function Local(t: Thread): Option<Odb> {
    match t
    case Loaded(_, _, _, candidate) => Some(candidate)
    case Freeing(_, held) => held
    case Releasing(odb) => Some(odb)
    case Dropping(odb) => Some(odb)
    case _ => None
  }

  function Locals(threads: seq<Thread>): seq<Option<Odb>> {
    seq(|threads|, i requires 0 <= i < |threads| => Local(threads[i]))
  }

  /** A thread that has freed its repository and still has to give the slot back. */
  function ReleasingOdb(t: Thread): Option<Odb> {
    if t.Releasing? then Some(t.odb) else None
  }

  function ReleasingOdbs(threads: seq<Thread>): seq<Option<Odb>> {
    seq(|threads|, i requires 0 <= i < |threads| => ReleasingOdb(threads[i]))
  }

  function Refs(refs: map<Odb, nat>, o: Odb): nat {
    if o in refs then refs[o] else 0
  }

  function Pointers(s: State, o: Odb): nat {
    Count(SlotOdbs(s.cache), o) + Count(RepoOdbs(s.repos), o) + Count(Locals(s.threads), o) + Count(s.drain, o)
  }

  /** Repositories that use an odb, plus threads that still have to release it. */
  function Holders(s: State, o: Odb): nat {
    Count(RepoOdbs(s.repos), o) + Count(ReleasingOdbs(s.threads), o)
  }

  /** The repository a thread is working on and no other thread may touch. */
  function Owned(t: Thread): Option<nat> {
    match t
    case Opened(r, _, _) => Some(r)
    case Missed(r, _, _) => Some(r)
    case Loaded(r, _, _, _) => Some(r)
    case Freeing(r, _) => Some(r)
    case _ => None
  }

  // ---------- the invariant ----------

  ghost predicate ReferencesExact(s: State) {
    forall o :: Refs(s.refs, o) == Pointers(s, o)
  }

  ghost predicate SlotsDistinct(c: Cache) {
    forall i, j :: 0 <= i < j < |c.slots| && c.slots[i].odb.Some? ==> c.slots[i].odb != c.slots[j].odb
  }

  /** An in-use slot has exactly one holder and an idle one has none; no odb has two. */
  ghost predicate HoldersExact(s: State) {
    && (forall o :: Holders(s, o) <= 1)
    && (forall i :: 0 <= i < |s.cache.slots| && s.cache.slots[i].odb.Some? ==>
          Holders(s, s.cache.slots[i].odb.value) == if s.cache.slots[i].inUse then 1 else 0)
  }

  ghost predicate Uncached(c: Cache, o: Odb) {
    forall i :: 0 <= i < |c.slots| ==> c.slots[i].odb != Some(o)
  }

  ghost predicate ThreadOk(s: State, t: Thread) {
    && (Owned(t).Some? ==> Owned(t).value < |s.repos| && s.repos[Owned(t).value].Live? && s.repos[Owned(t).value].busy)
    && (t.Opened? || t.Missed? ==> s.repos[t.repo].odb.None?)
    && (t.Loaded? ==> s.repos[t.repo].odb == Some(t.candidate) && Uncached(s.cache, t.candidate))
    && (t.Freeing? ==> s.repos[t.repo].odb == t.held)
  }

  ghost predicate ThreadsOk(s: State) {
    && (forall i :: 0 <= i < |s.threads| ==> ThreadOk(s, s.threads[i]))
    && (forall i, j :: 0 <= i < j < |s.threads| && Owned(s.threads[i]).Some? ==>
          Owned(s.threads[i]) != Owned(s.threads[j]))
  }

  ghost predicate Inv(s: State) {
    ReferencesExact(s) && SlotsDistinct(s.cache) && HoldersExact(s) && ThreadsOk(s)
  }

  // ---------- steps ----------

  /** git_odb_free: one reference less. */
  function Drop(refs: map<Odb, nat>, o: Odb): map<Odb, nat> {
    if Refs(refs, o) > 0 then refs[o := Refs(refs, o) - 1] else refs
  }

  /** One reference more. */
  function Take(refs: map<Odb, nat>, o: Odb): map<Odb, nat> {
    refs[o := Refs(refs, o) + 1]
  }

  /** kc3_git_repository_open and its siblings: a new repository without an odb yet. */
  ghost predicate Open(s: State, s': State, t: nat, path: string, state: GraphState) {
    && t < |s.threads| && s.threads[t].Outside?
    && s' == s.(repos := s.repos + [Live(None, true)],
                threads := s.threads[t := Opened(|s.repos|, path, state)])
  }

  /** Attaching ends: the repository is handed to the user. */
  function Hand(repos: seq<Repository>, r: nat, odb: Option<Odb>): seq<Repository>
    requires r < |repos|
  {
    repos[r := Live(odb, false)]
  }

  /** First critical section, or no critical section at all when the path cannot be used. */
  ghost predicate FirstSection(s: State, s': State, t: nat, accepted: bool) {
    && t < |s.threads| && s.threads[t].Opened?
    && var me := s.threads[t];
       var i := FindReusable(s.cache.slots, me.path, me.state);
       && me.repo < |s.repos|
       && if i.None? then s' == s.(threads := s.threads[t := Missed(me.repo, me.path, me.state)])
          else var o := s.cache.slots[i.value].odb;
               if accepted then
                 s' == s.(cache := Reserve(s.cache, i.value, true), repos := Hand(s.repos, me.repo, o),
                          threads := s.threads[t := Outside], refs := Take(s.refs, o.value))
               else
                 s' == s.(cache := Reserve(s.cache, i.value, false), repos := Hand(s.repos, me.repo, None),
                          threads := s.threads[t := Outside])
  }

  ghost predicate GiveUp(s: State, s': State, t: nat) {
    && t < |s.threads| && (s.threads[t].Opened? || s.threads[t].Missed?)
    && s.threads[t].repo < |s.repos|
    && s' == s.(repos := Hand(s.repos, s.threads[t].repo, None), threads := s.threads[t := Outside])
  }

  /** git_repository_odb on the new repository: a new odb, one reference each. */
  ghost predicate LoadCandidate(s: State, s': State, t: nat, o: Odb) {
    && t < |s.threads| && s.threads[t].Missed? && Refs(s.refs, o) == 0
    && var me := s.threads[t];
       && me.repo < |s.repos|
       && s' == s.(repos := s.repos[me.repo := Live(Some(o), true)],
                   threads := s.threads[t := Loaded(me.repo, me.path, me.state, o)],
                   refs := Take(Take(s.refs, o), o))
  }

  /** Second critical section. */
  ghost predicate SecondSection(s: State, s': State, t: nat, accepted: bool) {
    && t < |s.threads| && s.threads[t].Loaded?
    && var me := s.threads[t];
       var reuse := FindReusable(s.cache.slots, me.path, me.state);
       var store := FindReplacement(s.cache.slots, me.path);
       && me.repo < |s.repos|
       && if reuse.Some? then
            var o := s.cache.slots[reuse.value].odb;
            if accepted then
              s' == s.(cache := Reserve(s.cache, reuse.value, true), repos := Hand(s.repos, me.repo, o),
                       threads := s.threads[t := Dropping(me.candidate)],
                       refs := Drop(Take(s.refs, o.value), me.candidate))
            else
              s' == s.(cache := Reserve(s.cache, reuse.value, false),
                       repos := Hand(s.repos, me.repo, Some(me.candidate)),
                       threads := s.threads[t := Dropping(me.candidate)])
          else if store.Some? then
            var evicted := s.cache.slots[store.value].odb;
            s' == s.(cache := Store(s.cache, store.value, me.path, me.state, me.candidate),
                     repos := Hand(s.repos, me.repo, Some(me.candidate)),
                     threads := s.threads[t := if evicted.Some? then Dropping(evicted.value) else Outside])
          else
            s' == s.(repos := Hand(s.repos, me.repo, Some(me.candidate)),
                     threads := s.threads[t := Dropping(me.candidate)])
  }

  /** git_odb_free outside the lock. */
  ghost predicate DropLocal(s: State, s': State, t: nat) {
    && t < |s.threads| && s.threads[t].Dropping?
    && s' == s.(threads := s.threads[t := Outside], refs := Drop(s.refs, s.threads[t].odb))
  }

  /** kc3_git_repository_free: git_repository_odb takes a reference, loading an odb if needed. */
  ghost predicate BeginFree(s: State, s': State, t: nat, r: nat, o: Odb, loads: bool) {
    && t < |s.threads| && s.threads[t].Outside? && r < |s.repos| && s.repos[r].Live? && !s.repos[r].busy
    && if s.repos[r].odb.Some? then
         s' == s.(repos := s.repos[r := Live(s.repos[r].odb, true)],
                  threads := s.threads[t := Freeing(r, s.repos[r].odb)],
                  refs := Take(s.refs, s.repos[r].odb.value))
       else if loads then
         Refs(s.refs, o) == 0
         && s' == s.(repos := s.repos[r := Live(Some(o), true)],
                     threads := s.threads[t := Freeing(r, Some(o))],
                     refs := Take(Take(s.refs, o), o))
       else
         s' == s.(repos := s.repos[r := Live(None, true)], threads := s.threads[t := Freeing(r, None)])
  }

  /** git_repository_free drops the repository's own reference. */
  ghost predicate FreeRepository(s: State, s': State, t: nat) {
    && t < |s.threads| && s.threads[t].Freeing?
    && var me := s.threads[t];
       && me.repo < |s.repos|
       && s' == s.(repos := s.repos[me.repo := Gone],
                   threads := s.threads[t := if me.held.Some? then Releasing(me.held.value) else Outside],
                   refs := if me.held.Some? then Drop(s.refs, me.held.value) else s.refs)
  }

  ghost predicate ReleaseSection(s: State, s': State, t: nat) {
    && t < |s.threads| && s.threads[t].Releasing?
    && s' == s.(cache := Release(s.cache, s.threads[t].odb), threads := s.threads[t := Dropping(s.threads[t].odb)])
  }

  /** repository_odb_cache_clean: the slots are emptied at once, their odbs freed one by one. */
  ghost predicate CleanSection(s: State, s': State) {
    s' == s.(cache := Clean(s.cache), drain := s.drain + SlotOdbs(s.cache))
  }

  ghost predicate DrainOne(s: State, s': State, i: nat) {
    && i < |s.drain| && s.drain[i].Some?
    && s' == s.(drain := s.drain[i := None], refs := Drop(s.refs, s.drain[i].value))
  }

  ghost predicate ThreadStep(s: State, s': State, t: nat) {
    || (exists path, state :: Open(s, s', t, path, state))
    || (exists accepted :: FirstSection(s, s', t, accepted))
    || GiveUp(s, s', t)
    || (exists o :: LoadCandidate(s, s', t, o))
    || (exists accepted :: SecondSection(s, s', t, accepted))
    || DropLocal(s, s', t)
    || (exists r, o, loads :: BeginFree(s, s', t, r, o, loads))
    || FreeRepository(s, s', t)
    || ReleaseSection(s, s', t)
  }

  ghost predicate Step(s: State, s': State) {
    || (exists t :: ThreadStep(s, s', t))
    || CleanSection(s, s')
    || (exists i :: DrainOne(s, s', i))
  }

  // ---------- preservation ----------

  /** How the four pointer tables and the counts change together. */
  lemma SetThread(threads: seq<Thread>, t: nat, x: Thread, o: Odb)
    requires t < |threads|
    ensures Count(Locals(threads[t := x]), o) ==
            Count(Locals(threads), o) - (if Local(threads[t]) == Some(o) then 1 else 0)
            + (if Local(x) == Some(o) then 1 else 0)
    ensures Count(ReleasingOdbs(threads[t := x]), o) ==
            Count(ReleasingOdbs(threads), o) - (if ReleasingOdb(threads[t]) == Some(o) then 1 else 0)
            + (if ReleasingOdb(x) == Some(o) then 1 else 0)
  {
    assert Locals(threads[t := x]) == Locals(threads)[t := Local(x)];
    assert ReleasingOdbs(threads[t := x]) == ReleasingOdbs(threads)[t := ReleasingOdb(x)];
    CountUpdate(Locals(threads), t, Local(x), o);
    CountUpdate(ReleasingOdbs(threads), t, ReleasingOdb(x), o);
  }

  lemma SetRepo(repos: seq<Repository>, r: nat, x: Repository, o: Odb)
    requires r < |repos|
    ensures Count(RepoOdbs(repos[r := x]), o) ==
            Count(RepoOdbs(repos), o) - (if RepoOdb(repos[r]) == Some(o) then 1 else 0)
            + (if RepoOdb(x) == Some(o) then 1 else 0)
  {
    assert RepoOdbs(repos[r := x]) == RepoOdbs(repos)[r := RepoOdb(x)];
    CountUpdate(RepoOdbs(repos), r, RepoOdb(x), o);
  }

  lemma SetSlot(c: Cache, i: nat, x: Slot, clock: u64, o: Odb)
    requires i < |c.slots|
    ensures Count(SlotOdbs(Cache(c.slots[i := x], clock)), o) ==
            Count(SlotOdbs(c), o) - (if c.slots[i].odb == Some(o) then 1 else 0)
            + (if x.odb == Some(o) then 1 else 0)
  {
    assert SlotOdbs(Cache(c.slots[i := x], clock)) == SlotOdbs(c)[i := x.odb];
    CountUpdate(SlotOdbs(c), i, x.odb, o);
  }

  /** Each thread keeps what it knows when only one thread and one repository change. */
  lemma OthersOk(s: State, s': State, t: nat, r: nat)
    requires ThreadsOk(s) && t < |s.threads| && |s'.threads| == |s.threads|
    requires forall i :: 0 <= i < |s.threads| && i != t ==> s'.threads[i] == s.threads[i]
    requires |s.repos| <= |s'.repos| && forall i :: 0 <= i < |s.repos| && i != r ==> s'.repos[i] == s.repos[i]
    requires Owned(s.threads[t]) == Some(r) || r >= |s.repos| || (s.repos[r].Live? ==> !s.repos[r].busy)
    requires forall i :: 0 <= i < |s.threads| && i != t && s.threads[i].Loaded? ==>
               Uncached(s'.cache, s.threads[i].candidate)
    requires ThreadOk(s', s'.threads[t])
    requires Owned(s'.threads[t]).None? || Owned(s'.threads[t]) == Some(r)
    ensures ThreadsOk(s')
  {
    forall i | 0 <= i < |s'.threads| && i != t
      ensures ThreadOk(s', s'.threads[i]) && (Owned(s'.threads[i]).Some? ==> Owned(s'.threads[i]).value != r)
    {
      assert ThreadOk(s, s.threads[i]);
      assert ThreadOk(s, s.threads[t]);
    }
  }

  lemma SameUncached(s: State, s': State)
    requires ThreadsOk(s)
    requires forall i :: 0 <= i < |s.cache.slots| ==>
               i < |s'.cache.slots| && s'.cache.slots[i].odb == s.cache.slots[i].odb
    requires |s'.cache.slots| == |s.cache.slots|
    ensures forall i :: 0 <= i < |s.threads| && s.threads[i].Loaded? ==> Uncached(s'.cache, s.threads[i].candidate)
  {
    forall i | 0 <= i < |s.threads| && s.threads[i].Loaded? ensures Uncached(s'.cache, s.threads[i].candidate) {
      assert ThreadOk(s, s.threads[i]);
    }
  }

  /** An odb with no references is nowhere to be found. */
  lemma FreshIsNowhere(s: State, o: Odb)
    requires Inv(s) && Refs(s.refs, o) == 0
    ensures Uncached(s.cache, o) && Holders(s, o) == 0
  {
    hide Count;
    assert Pointers(s, o) == 0;
    forall i | 0 <= i < |s.cache.slots| ensures s.cache.slots[i].odb != Some(o) {
      if s.cache.slots[i].odb == Some(o) { CountOne(SlotOdbs(s.cache), i, o); }
    }
    forall i | 0 <= i < |s.threads| ensures ReleasingOdbs(s.threads)[i] != Some(o) {
      if ReleasingOdbs(s.threads)[i] == Some(o) { CountOne(Locals(s.threads), i, o); }
    }
    CountNone(ReleasingOdbs(s.threads), o);
  }

  lemma OpenKeeps(s: State, s': State, t: nat, path: string, state: GraphState)
    requires Inv(s) && Open(s, s', t, path, state)
    ensures Inv(s')
  {
    hide Count;
    assert RepoOdbs(s'.repos) == RepoOdbs(s.repos) + [None];
    forall o: Odb ensures Pointers(s', o) == Pointers(s, o) && Holders(s', o) == Holders(s, o) {
      SetThread(s.threads, t, s'.threads[t], o);
      CountAppend(RepoOdbs(s.repos), [None], o);
      CountNone([None], o);
    }
    SameUncached(s, s');
    OthersOk(s, s', t, |s.repos|);
  }

  lemma FirstSectionKeeps(s: State, s': State, t: nat, accepted: bool)
    requires Inv(s) && FirstSection(s, s', t, accepted)
    ensures Inv(s')
  {
    hide Count, FindReusable;
    var me := s.threads[t];
    assert ThreadOk(s, me);
    var i := FindReusable(s.cache.slots, me.path, me.state);
    forall o: Odb
      ensures Refs(s'.refs, o) == Pointers(s', o)
      ensures Holders(s', o) == Holders(s, o)
                                + if i.Some? && accepted && s.cache.slots[i.value].odb == Some(o) then 1 else 0
    {
      assert Refs(s.refs, o) == Pointers(s, o);
      SetThread(s.threads, t, s'.threads[t], o);
      SetRepo(s.repos, me.repo, s'.repos[me.repo], o);
      if i.Some? { SetSlot(s.cache, i.value, s'.cache.slots[i.value], s'.cache.clock, o); }
    }
    SameUncached(s, s');
    OthersOk(s, s', t, me.repo);
  }

  lemma GiveUpKeeps(s: State, s': State, t: nat)
    requires Inv(s) && GiveUp(s, s', t)
    ensures Inv(s')
  {
    hide Count;
    var me := s.threads[t];
    assert ThreadOk(s, me);
    forall o: Odb ensures Pointers(s', o) == Pointers(s, o) && Holders(s', o) == Holders(s, o) {
      SetThread(s.threads, t, Outside, o);
      SetRepo(s.repos, me.repo, s'.repos[me.repo], o);
    }
    SameUncached(s, s');
    OthersOk(s, s', t, me.repo);
  }

  lemma LoadCandidateKeeps(s: State, s': State, t: nat, brandNew: Odb)
    requires Inv(s) && LoadCandidate(s, s', t, brandNew)
    ensures Inv(s')
  {
    hide Count;
    var me := s.threads[t];
    assert ThreadOk(s, me);
    FreshIsNowhere(s, brandNew);
    forall o: Odb
      ensures Refs(s'.refs, o) == Pointers(s', o)
      ensures Holders(s', o) == Holders(s, o) + if o == brandNew then 1 else 0
    {
      assert Refs(s.refs, o) == Pointers(s, o);
      SetThread(s.threads, t, s'.threads[t], o);
      SetRepo(s.repos, me.repo, s'.repos[me.repo], o);
    }
    SameUncached(s, s');
    OthersOk(s, s', t, me.repo);
  }

  lemma DropLocalKeeps(s: State, s': State, t: nat)
    requires Inv(s) && DropLocal(s, s', t)
    ensures Inv(s')
  {
    hide Count;
    CountOne(Locals(s.threads), t, s.threads[t].odb);
    forall o: Odb
      ensures Refs(s'.refs, o) == Pointers(s', o) && Holders(s', o) == Holders(s, o)
    {
      assert Refs(s.refs, o) == Pointers(s, o);
      SetThread(s.threads, t, Outside, o);
    }
    SameUncached(s, s');
    OthersOk(s, s', t, |s.repos|);
  }

  lemma BeginFreeKeeps(s: State, s': State, t: nat, r: nat, brandNew: Odb, loads: bool)
    requires Inv(s) && BeginFree(s, s', t, r, brandNew, loads)
    ensures Inv(s')
  {
    hide Count;
    var opens := s.repos[r].odb.None? && loads;
    if opens { FreshIsNowhere(s, brandNew); }
    forall o: Odb
      ensures Refs(s'.refs, o) == Pointers(s', o)
      ensures Holders(s', o) == Holders(s, o) + if opens && o == brandNew then 1 else 0
    {
      assert Refs(s.refs, o) == Pointers(s, o);
      SetThread(s.threads, t, s'.threads[t], o);
      SetRepo(s.repos, r, s'.repos[r], o);
    }
    SameUncached(s, s');
    OthersOk(s, s', t, r);
  }

  lemma FreeRepositoryKeeps(s: State, s': State, t: nat)
    requires Inv(s) && FreeRepository(s, s', t)
    ensures Inv(s')
  {
    hide Count;
    var me := s.threads[t];
    assert ThreadOk(s, me);
    if me.held.Some? { CountOne(RepoOdbs(s.repos), me.repo, me.held.value); }
    forall o: Odb
      ensures Refs(s'.refs, o) == Pointers(s', o) && Holders(s', o) == Holders(s, o)
    {
      assert Refs(s.refs, o) == Pointers(s, o);
      SetThread(s.threads, t, s'.threads[t], o);
      SetRepo(s.repos, me.repo, Gone, o);
    }
    SameUncached(s, s');
    OthersOk(s, s', t, me.repo);
  }

  lemma ReleaseSectionKeeps(s: State, s': State, t: nat)
    requires Inv(s) && ReleaseSection(s, s', t)
    ensures Inv(s')
  {
    hide Count, FindOdb;
    var mine := s.threads[t].odb;
    var i := FindOdb(s.cache.slots, mine);
    CountOne(ReleasingOdbs(s.threads), t, mine);
    forall o: Odb
      ensures Refs(s'.refs, o) == Pointers(s', o)
      ensures Holders(s', o) == Holders(s, o) - if o == mine then 1 else 0
    {
      assert Refs(s.refs, o) == Pointers(s, o);
      SetThread(s.threads, t, s'.threads[t], o);
      if i.Some? { SetSlot(s.cache, i.value, s'.cache.slots[i.value], s'.cache.clock, o); }
    }
    SameUncached(s, s');
    OthersOk(s, s', t, |s.repos|);
  }

  lemma CleanSectionKeeps(s: State, s': State)
    requires Inv(s) && CleanSection(s, s')
    ensures Inv(s')
  {
    hide Count;
    forall o: Odb
      ensures Refs(s'.refs, o) == Pointers(s', o) && Holders(s', o) == Holders(s, o)
    {
      assert Refs(s.refs, o) == Pointers(s, o);
      CountAppend(s.drain, SlotOdbs(s.cache), o);
      CountNone(SlotOdbs(s'.cache), o);
    }
    forall i | 0 <= i < |s'.threads| ensures ThreadOk(s', s'.threads[i]) {
      assert ThreadOk(s, s.threads[i]);
    }
  }

  lemma DrainOneKeeps(s: State, s': State, i: nat)
    requires Inv(s) && DrainOne(s, s', i)
    ensures Inv(s')
  {
    hide Count;
    CountOne(s.drain, i, s.drain[i].value);
    forall o: Odb
      ensures Refs(s'.refs, o) == Pointers(s', o) && Holders(s', o) == Holders(s, o)
    {
      assert Refs(s.refs, o) == Pointers(s, o);
      CountUpdate(s.drain, i, None, o);
    }
    forall i | 0 <= i < |s'.threads| ensures ThreadOk(s', s'.threads[i]) {
      assert ThreadOk(s, s.threads[i]);
    }
  }

  /** Candidates of different threads are different odbs: each repository is a holder. */
  lemma CandidatesDiffer(s: State, t: nat, i: nat)
    requires Inv(s) && t < |s.threads| && i < |s.threads| && t != i
    requires s.threads[t].Loaded? && s.threads[i].Loaded?
    ensures s.threads[t].candidate != s.threads[i].candidate
  {
    hide Count;
    assert ThreadOk(s, s.threads[t]) && ThreadOk(s, s.threads[i]);
    var o := s.threads[t].candidate;
    var a, b := s.threads[t].repo, s.threads[i].repo;
    assert Owned(s.threads[t]) != Owned(s.threads[i]);
    assert Holders(s, o) <= 1;
    if s.threads[i].candidate == o {
      assert RepoOdbs(s.repos)[a] == Some(o) && RepoOdbs(s.repos)[b] == Some(o);
      if a < b { CountTwo(RepoOdbs(s.repos), a, b, o); } else { CountTwo(RepoOdbs(s.repos), b, a, o); }
    }
  }

  lemma SecondSectionKeeps(s: State, s': State, t: nat, accepted: bool)
    requires Inv(s) && SecondSection(s, s', t, accepted)
    ensures Inv(s')
  {
    hide Count, FindReusable, FindReplacement;
    var me := s.threads[t];
    assert ThreadOk(s, me);
    var reuse := FindReusable(s.cache.slots, me.path, me.state);
    var store := FindReplacement(s.cache.slots, me.path);
    if reuse.Some? {
      SecondSectionReuses(s, s', t, accepted, reuse.value);
    } else if store.Some? {
      SecondSectionStores(s, s', t, store.value);
    } else {
      forall o
        ensures Refs(s'.refs, o) == Pointers(s', o) && Holders(s', o) == Holders(s, o)
      {
        SetThread(s.threads, t, s'.threads[t], o);
        SetRepo(s.repos, me.repo, s'.repos[me.repo], o);
      }
      SameUncached(s, s');
      OthersOk(s, s', t, me.repo);
    }
  }

  lemma SecondSectionReuses(s: State, s': State, t: nat, accepted: bool, i: nat)
    requires Inv(s) && SecondSection(s, s', t, accepted)
    requires FindReusable(s.cache.slots, s.threads[t].path, s.threads[t].state) == Some(i)
    ensures Inv(s')
  {
    hide Count, FindReusable, FindReplacement;
    var me := s.threads[t];
    assert ThreadOk(s, me);
    assert s.cache.slots[i].odb != Some(me.candidate);
    CountOne(RepoOdbs(s.repos), me.repo, me.candidate);
    forall o: Odb
      ensures Refs(s'.refs, o) == Pointers(s', o)
      ensures Holders(s', o) == Holders(s, o)
                                + (if accepted && s.cache.slots[i].odb == Some(o) then 1 else 0)
                                - (if accepted && me.candidate == o then 1 else 0)
    {
      assert Refs(s.refs, o) == Pointers(s, o);
      SetThread(s.threads, t, s'.threads[t], o);
      SetRepo(s.repos, me.repo, s'.repos[me.repo], o);
      SetSlot(s.cache, i, s'.cache.slots[i], s'.cache.clock, o);
    }
    SameUncached(s, s');
    OthersOk(s, s', t, me.repo);
  }

  lemma StoreCounts(s: State, s': State, t: nat, i: nat, o: Odb)
    requires SecondSection(s, s', t, true) && i < |s.cache.slots|
    requires FindReusable(s.cache.slots, s.threads[t].path, s.threads[t].state).None?
    requires FindReplacement(s.cache.slots, s.threads[t].path) == Some(i)
    requires ThreadOk(s, s.threads[t])
    ensures Pointers(s', o) == Pointers(s, o) && Holders(s', o) == Holders(s, o) && s'.refs == s.refs
  {
    hide Count, FindReusable, FindReplacement;
    var me := s.threads[t];
    SetThread(s.threads, t, s'.threads[t], o);
    SetRepo(s.repos, me.repo, s'.repos[me.repo], o);
    SetSlot(s.cache, i, s'.cache.slots[i], s'.cache.clock, o);
  }

  lemma SecondSectionStores(s: State, s': State, t: nat, i: nat)
    requires Inv(s) && SecondSection(s, s', t, true) && i < |s.cache.slots|
    requires FindReusable(s.cache.slots, s.threads[t].path, s.threads[t].state).None?
    requires FindReplacement(s.cache.slots, s.threads[t].path) == Some(i)
    ensures Inv(s')
  {
    var me := s.threads[t];
    ReplacementIsSafe(s.cache.slots, me.path);
    hide Count, FindReusable, FindReplacement;
    assert ThreadOk(s, me);
    assert RepoOdbs(s.repos)[me.repo] == Some(me.candidate);
    CountOne(RepoOdbs(s.repos), me.repo, me.candidate);
    forall o: Odb
      ensures Refs(s'.refs, o) == Pointers(s', o) && Holders(s', o) == Holders(s, o)
    {
      assert Refs(s.refs, o) == Pointers(s, o);
      StoreCounts(s, s', t, i, o);
    }
    assert Holders(s, me.candidate) == 1;
    StoreKeepsThreads(s, s', t, i);
    hide ThreadsOk, ThreadOk;
  }

  lemma StoreKeepsThreads(s: State, s': State, t: nat, i: nat)
    requires Inv(s) && SecondSection(s, s', t, true) && i < |s.cache.slots|
    requires FindReusable(s.cache.slots, s.threads[t].path, s.threads[t].state).None?
    requires FindReplacement(s.cache.slots, s.threads[t].path) == Some(i)
    ensures ThreadsOk(s')
  {
    hide Count, FindReusable, FindReplacement, Pointers, Holders;
    var me := s.threads[t];
    assert ThreadOk(s, me);
    forall j | 0 <= j < |s.threads| && j != t && s.threads[j].Loaded?
      ensures Uncached(s'.cache, s.threads[j].candidate)
    {
      CandidatesDiffer(s, t, j);
      assert ThreadOk(s, s.threads[j]);
    }
    OthersOk(s, s', t, me.repo);
  }

  lemma StepKeepsInvariant(s: State, s': State)
    requires Inv(s) && Step(s, s')
    ensures Inv(s')
  {
    hide Inv, Open, FirstSection, GiveUp, LoadCandidate, SecondSection, DropLocal, BeginFree, FreeRepository,
         ReleaseSection, CleanSection, DrainOne;
    if CleanSection(s, s') {
      CleanSectionKeeps(s, s');
    } else if i :| DrainOne(s, s', i) {
      DrainOneKeeps(s, s', i);
    } else {
      var t :| ThreadStep(s, s', t);
      if path, state :| Open(s, s', t, path, state) { OpenKeeps(s, s', t, path, state); }
      if accepted :| FirstSection(s, s', t, accepted) { FirstSectionKeeps(s, s', t, accepted); }
      if GiveUp(s, s', t) { GiveUpKeeps(s, s', t); }
      if o :| LoadCandidate(s, s', t, o) { LoadCandidateKeeps(s, s', t, o); }
      if accepted :| SecondSection(s, s', t, accepted) { SecondSectionKeeps(s, s', t, accepted); }
      if DropLocal(s, s', t) { DropLocalKeeps(s, s', t); }
      if r, o, loads :| BeginFree(s, s', t, r, o, loads) { BeginFreeKeeps(s, s', t, r, o, loads); }
      if FreeRepository(s, s', t) { FreeRepositoryKeeps(s, s', t); }
      if ReleaseSection(s, s', t) { ReleaseSectionKeeps(s, s', t); }
    }
  }

  // ---------- whole runs ----------

  ghost predicate Initial(s: State) {
    && s.cache == Clean(s.cache) && s.repos == [] && s.drain == [] && s.refs == map[]
    && forall i :: 0 <= i < |s.threads| ==> s.threads[i].Outside?
  }

  ghost predicate Run(states: seq<State>) {
    && states != [] && Initial(states[0])
    && forall i :: 0 <= i < |states| - 1 ==> Step(states[i], states[i + 1])
  }

  /** Somebody can still reach the odb. */
  ghost predicate InReach(s: State, o: Odb) {
    || !Uncached(s.cache, o)
    || (exists r :: 0 <= r < |s.repos| && RepoOdb(s.repos[r]) == Some(o))
    || (exists t :: 0 <= t < |s.threads| && Local(s.threads[t]) == Some(o))
  }

  lemma InitialInv(s: State)
    requires Initial(s)
    ensures Inv(s)
  {
    forall o: Odb ensures Pointers(s, o) == 0 && Holders(s, o) == 0 {
      CountNone(SlotOdbs(s.cache), o);
      CountNone(Locals(s.threads), o);
      CountNone(ReleasingOdbs(s.threads), o);
    }
  }

  lemma ReachableIsCounted(s: State, o: Odb)
    requires Inv(s) && InReach(s, o)
    ensures Refs(s.refs, o) > 0
  {
    hide Count;
    if i :| 0 <= i < |s.cache.slots| && s.cache.slots[i].odb == Some(o) {
      CountOne(SlotOdbs(s.cache), i, o);
    } else if r :| 0 <= r < |s.repos| && RepoOdb(s.repos[r]) == Some(o) {
      CountOne(RepoOdbs(s.repos), r, o);
    } else {
      var t :| 0 <= t < |s.threads| && Local(s.threads[t]) == Some(o);
      CountOne(Locals(s.threads), t, o);
    }
    assert Refs(s.refs, o) == Pointers(s, o);
  }

  /**
  In every interleaving: slots hold distinct odbs, an in-use slot has exactly one holder,
  the reference counts are exact, and no odb that anything still points to has been freed.
   */
  lemma {:induction false} RunsAreSafe(states: seq<State>)
    requires Run(states)
    ensures var s := states[|states| - 1];
            && SlotsDistinct(s.cache) && HoldersExact(s) && ReferencesExact(s)
            && forall o :: InReach(s, o) ==> Refs(s.refs, o) > 0
  {
    RunKeepsInvariant(states);
    var s := states[|states| - 1];
    hide InReach;
    forall o | InReach(s, o) ensures Refs(s.refs, o) > 0 {
      ReachableIsCounted(s, o);
    }
  }

  lemma {:induction false} RunKeepsInvariant(states: seq<State>)
    requires Run(states)
    ensures Inv(states[|states| - 1])
  {
    hide Inv, Step;
    if |states| == 1 {
      InitialInv(states[0]);
    } else {
      var front := states[..|states| - 1];
      forall i | 0 <= i < |front| - 1 ensures Step(front[i], front[i + 1]) {
        assert Step(states[i], states[i + 1]);
      }
      RunKeepsInvariant(front);
      assert Step(states[|states| - 2], states[|states| - 2 + 1]);
      StepKeepsInvariant(states[|states| - 2], states[|states| - 1]);
    }
  }
}
