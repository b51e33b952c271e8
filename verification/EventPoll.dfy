/**
The epoll side of event_poll/event_poll.c: entries for watched descriptors on one linked
list, and those with a timeout also on a second list sorted by deadline. The nodes carry
both links and are spliced in place.
 */
module EventPoll {
  import opened Bytes
  import opened Deadline

  class Entry {
    const fd: int
    var udata: Option<int>
    var deadline: Timespec
    var hasTimeout: bool
    var next: Entry?
    var timerNext: Entry?

    constructor (fd: int, next: Entry?)
      ensures this.fd == fd && this.next == next && !hasTimeout && timerNext == null && udata == None
    {
      this.fd, this.next := fd, next;
      udata, deadline, hasTimeout, timerNext := None, Timespec(0, 0), false, null;
    }
  }

  function WatchOf(e: Entry): Watch
    reads e`udata, e`hasTimeout, e`deadline
  {
    Watch(e.udata, if e.hasTimeout then Some(e.deadline) else None)
  }

  /** Node i of a list, or the null that ends it. */
  function Nth(nodes: seq<Entry>, i: nat): Entry? {
    if i < |nodes| then nodes[i] else null
  }

  ghost predicate NoRepeat(nodes: seq<Entry>) {
    forall i, j :: 0 <= i < j < |nodes| ==> nodes[i] != nodes[j]
  }

  /** No later node has an earlier deadline. */
  ghost predicate SortedByDeadline(nodes: seq<Entry>)
    reads nodes`deadline
  {
    forall i, j :: 0 <= i < j < |nodes| ==> Compare(nodes[j].deadline, nodes[i].deadline) >= 0
  }

  ghost predicate DistinctFds(nodes: seq<Entry>) {
    forall i, j :: 0 <= i < |nodes| && 0 <= j < |nodes| && nodes[i].fd == nodes[j].fd ==> i == j
  }

  /** A watched descriptor as the user sees it: its data, and its deadline while armed. */
  datatype Watch = Watch(udata: Option<int>, deadline: Option<Timespec>)
  type View = map<int, Watch>

  ghost predicate Armed(view: View, fd: int) {
    fd in view && view[fd].deadline.Some?
  }

  /** An armed descriptor whose deadline no armed descriptor is before. */
  ghost predicate EarliestArmed(view: View, fd: int) {
    && Armed(view, fd)
    && forall other :: Armed(view, other) ==> Compare(view[other].deadline.value, view[fd].deadline.value) >= 0
  }

  // ---------- events on the view ----------

  datatype Kind = ReadEvent | EofEvent | TimerEvent
  datatype Event = Event(fd: int, kind: Kind, udata: Option<int>)

  /** The view after a descriptor's timer, if any, is taken off. */
  function Disarmed(view: View, fd: int): View {
    if fd in view then view[fd := Watch(view[fd].udata, None)] else view
  }

  ghost predicate SomeExpired(view: View, now: Timespec) {
    exists fd :: Armed(view, fd) && Expired(view[fd].deadline.value, now)
  }

  /** What the poller is asked to do; each is one critical section. */
  datatype Op =
    | AddCall(fd: int, timeout: Option<Timespec>, udata: Option<int>, now: Timespec, accepted: bool)
    | DropTimer(fd: int)
    | DropRead(fd: int)
    | Timers(now: Timespec)
    | Ready(fd: int, hangup: bool)

  /** What an operation delivers and leaves, on the view alone. */
  ghost predicate Step(before: View, op: Op, event: Option<Event>, after: View) {
    match op
    case AddCall(fd, timeout, udata, now, accepted) =>
      && event.None?
      && after == if accepted
                  then before[fd := Watch(udata, if timeout.None? then None
                                                 else Some(DeadlineAfter(now, timeout.value)))]
                  else before - {fd}
    case DropTimer(fd) => event.None? && after == Disarmed(before, fd)
    case DropRead(fd) => event.None? && after == before - {fd}
    case Timers(now) =>
      if SomeExpired(before, now) then
        && event.Some?
        && EarliestArmed(before, event.value.fd)
        && event.value == Event(event.value.fd, TimerEvent, before[event.value.fd].udata)
        && after == Disarmed(before, event.value.fd)
      else
        event.None? && after == before
    case Ready(fd, hangup) =>
      && event == (if fd in before
                   then Some(Event(fd, if hangup then EofEvent else ReadEvent, before[fd].udata))
                   else None)
      && after == Disarmed(before, fd)
  }

  ghost function Fds(nodes: seq<Entry>): set<int> {
    set e | e in nodes :: e.fd
  }

  lemma DistinctFd(nodes: seq<Entry>, a: Entry, b: Entry)
    requires DistinctFds(nodes) && a in nodes && b in nodes && a.fd == b.fd
    ensures a == b
  {
    var i :| 0 <= i < |nodes| && nodes[i] == a;
    var j :| 0 <= j < |nodes| && nodes[j] == b;
    assert i == j;
  }

  class Poll {
    ghost var view: View
    var entries: Entry?
    var timers: Entry?
    ghost var entryList: seq<Entry>
    ghost var timerList: seq<Entry>
    ghost var nodes: set<Entry>   // every entry made so far

    ghost predicate Owned()
      reads this`nodes, this`entryList, this`timerList
    {
      && (forall e :: e in entryList ==> e in nodes)
      && (forall e :: e in timerList ==> e in nodes)
    }

    ghost predicate EntriesLinked()
      reads this`entries, this`entryList, entryList`next
    {
      && entries == Nth(entryList, 0)
      && (forall i :: 0 <= i < |entryList| ==> entryList[i].next == Nth(entryList, i + 1))
      && NoRepeat(entryList)
    }

    ghost predicate TimersLinked()
      reads this`timers, this`timerList, timerList`timerNext
    {
      && timers == Nth(timerList, 0)
      && (forall i :: 0 <= i < |timerList| ==> timerList[i].timerNext == Nth(timerList, i + 1))
      && NoRepeat(timerList)
    }

    /** The timer list holds exactly the entries that have a timeout. */
    ghost predicate TimersExact()
      reads this`entryList, this`timerList, entryList`hasTimeout
    {
      && (forall e :: e in timerList ==> e in entryList && e.hasTimeout)
      && (forall e :: e in entryList && e.hasTimeout ==> e in timerList)
    }

    /** The entries are exactly the watched descriptors, with their data and deadlines. */
    ghost predicate Shows()
      reads this`view, this`entryList, entryList`udata, entryList`hasTimeout, entryList`deadline
    {
      && view.Keys == Fds(entryList)
      && forall e :: e in entryList ==> view[e.fd] == WatchOf(e)
    }

    ghost predicate Valid()
      reads this, entryList, timerList
    {
      && Owned() && EntriesLinked() && TimersLinked() && TimersExact()
      && DistinctFds(entryList) && SortedByDeadline(timerList) && Shows()
    }

    /** kc3_event_poll_new. */
    constructor ()
      ensures Valid() && view == map[] && entryList == []
    {
      entries, timers, entryList, timerList, nodes := null, null, [], [], {};
      view := map[];
    }

    /** entry_find. */
    method EntryFind(fd: int) returns (e: Entry?)
      requires EntriesLinked()
      ensures e != null ==> e in entryList && e.fd == fd
      ensures e == null ==> forall x :: x in entryList ==> x.fd != fd
    {
      e := entries;
      ghost var i := 0;
      while e != null
        invariant 0 <= i <= |entryList| && e == Nth(entryList, i)
        invariant forall j :: 0 <= j < i ==> entryList[j].fd != fd
        decreases |entryList| - i
      {
        if e.fd == fd { return; }
        e := e.next;
        i := i + 1;
      }
    }

    /** The search loop of timer_insert: the first timer that is not earlier, and the one before it. */
    method FindTimerPlace(deadline: Timespec) returns (prev: Entry?, cur: Entry?, ghost at: nat)
      requires TimersLinked()
      ensures at <= |timerList| && cur == Nth(timerList, at) && prev == if at == 0 then null else timerList[at - 1]
      ensures forall i :: 0 <= i < at ==> Compare(timerList[i].deadline, deadline) < 0
      ensures at < |timerList| ==> Compare(timerList[at].deadline, deadline) >= 0
    {
      hide Compare;
      at := 0;
      prev, cur := null, timers;
      while cur != null && Compare(cur.deadline, deadline) < 0
        invariant 0 <= at <= |timerList| && cur == Nth(timerList, at)
        invariant prev == if at == 0 then null else timerList[at - 1]
        invariant forall i :: 0 <= i < at ==> Compare(timerList[i].deadline, deadline) < 0
        decreases |timerList| - at
      {
        prev := cur;
        cur := cur.timerNext;
        at := at + 1;
      }
    }

    /** The links of timer_insert. */
    method LinkTimer(prev: Entry?, cur: Entry?, entry: Entry, ghost at: nat)
      requires Owned() && TimersLinked() && entry !in timerList && entry in nodes && at <= |timerList|
      requires cur == Nth(timerList, at) && prev == if at == 0 then null else timerList[at - 1]
      modifies this`timers, this`timerList, nodes`timerNext
      ensures TimersLinked() && timerList == Insert(old(timerList), at, entry)
    {
      TimersNoRepeat();
      InsertNoRepeat(timerList, at, entry);
      hide NoRepeat;
      entry.timerNext := cur;
      if prev == null {
        timers := entry;
      } else {
        prev.timerNext := entry;
      }
      timerList := Insert(timerList, at, entry);
    }

    /** timer_insert: in front of the first timer that is not earlier. */
    method TimerInsert(entry: Entry) returns (ghost at: nat)
      requires Owned() && TimersLinked() && entry !in timerList && entry in nodes
      modifies this`timers, this`timerList, nodes`timerNext
      ensures TimersLinked() && at <= |old(timerList)| && timerList == Insert(old(timerList), at, entry)
      ensures forall i :: 0 <= i < at ==> Compare(old(timerList)[i].deadline, entry.deadline) < 0
      ensures at < |old(timerList)| ==> Compare(old(timerList)[at].deadline, entry.deadline) >= 0
    {
      hide Compare, NoRepeat, TimersLinked, Nth, Insert, Owned;
      var prev, cur;
      prev, cur, at := FindTimerPlace(entry.deadline);
      LinkTimer(prev, cur, entry, at);
    }

    /** The search loop of timer_remove. */
    method FindTimer(entry: Entry) returns (prev: Entry?, ghost at: nat)
      requires TimersLinked() && entry in timerList
      ensures at < |timerList| && timerList[at] == entry && prev == if at == 0 then null else timerList[at - 1]
    {
      at := 0;
      prev := null;
      var cur := timers;
      while cur != entry
        invariant 0 <= at < |timerList| && cur == timerList[at] && entry !in timerList[..at]
        invariant prev == if at == 0 then null else timerList[at - 1]
        decreases |timerList| - at
      {
        NotYet(timerList, at, entry);
        prev := cur;
        cur := cur.timerNext;
        at := at + 1;
      }
    }

    /** timer_remove. */
    method TimerRemove(entry: Entry) returns (ghost at: nat)
      requires Owned() && TimersLinked() && entry in timerList
      modifies this`timers, this`timerList, nodes`timerNext
      ensures TimersLinked() && at < |old(timerList)| && old(timerList)[at] == entry
      ensures timerList == Remove(old(timerList), at) && entry !in timerList
    {
      var prev;
      prev, at := FindTimer(entry);
      RemoveNoRepeat(timerList, at);
      hide NoRepeat;
      if prev == null {
        timers := entry.timerNext;
      } else {
        prev.timerNext := entry.timerNext;
      }
      entry.timerNext := null;
      timerList := Remove(timerList, at);
    }

    /** entry_new. */
    method EntryNew(fd: int) returns (entry: Entry)
      requires EntriesLinked()
      modifies this`entries, this`entryList, this`nodes
      ensures nodes == old(nodes) + {entry}
      ensures EntriesLinked() && fresh(entry) && entryList == [entry] + old(entryList)
      ensures entry.fd == fd && !entry.hasTimeout && entry.timerNext == null && entry.udata == None
    {
      entry := new Entry(fd, entries);
      entries := entry;
      entryList := [entry] + entryList;
      nodes := nodes + {entry};
    }

    /** The search loop of entry_free. */
    method FindPlace(entry: Entry) returns (prev: Entry?, ghost at: nat)
      requires EntriesLinked() && entry in entryList
      ensures at < |entryList| && entryList[at] == entry && prev == if at == 0 then null else entryList[at - 1]
    {
      at := 0;
      prev := null;
      var cur := entries;
      while cur != entry
        invariant 0 <= at < |entryList| && cur == entryList[at] && entry !in entryList[..at]
        invariant prev == if at == 0 then null else entryList[at - 1]
        decreases |entryList| - at
      {
        NotYet(entryList, at, entry);
        prev := cur;
        cur := cur.next;
        at := at + 1;
      }
    }

    /** The unlinking part of entry_free. */
    method EntryUnlink(entry: Entry) returns (ghost at: nat)
      requires Owned() && EntriesLinked() && entry in entryList
      modifies this`entries, this`entryList, nodes`next
      ensures EntriesLinked() && at < |old(entryList)| && old(entryList)[at] == entry
      ensures entryList == Remove(old(entryList), at) && entry !in entryList
    {
      var prev;
      prev, at := FindPlace(entry);
      RemoveNoRepeat(entryList, at);
      hide NoRepeat;
      if prev == null {
        entries := entry.next;
      } else {
        prev.next := entry.next;
      }
      entryList := Remove(entryList, at);
    }

    // ---------- one entry at a time ----------

    /** The watch of one entry changes in the view as it does in the entry. */
    lemma ShowsOne(old_: View, e: Entry)
      requires DistinctFds(entryList) && e in entryList
      requires view == old_[e.fd := WatchOf(e)] && old_.Keys == Fds(entryList)
      requires forall x :: x in entryList && x != e ==> old_[x.fd] == WatchOf(x)
      ensures Shows()
    {
      forall x | x in entryList && x != e ensures x.fd != e.fd {
        if x.fd == e.fd { DistinctFd(entryList, x, e); }
      }
    }

    /** Stop an entry's timer: timer_remove and has_timeout cleared. */
    method Disarm(e: Entry)
      requires Valid() && e in entryList && e.hasTimeout
      modifies this`timers, this`timerList, this`view, nodes`timerNext, e`hasTimeout
      ensures Valid() && !e.hasTimeout && view == old(view)[e.fd := Watch(e.udata, None)]
    {
      hide Compare, EntriesLinked, TimersLinked, SortedByDeadline, DistinctFds, Remove;
      ghost var list := timerList;
      assert TimersLinked();
      TimersNoRepeat();
      ghost var at := TimerRemove(e);
      RemoveSorted(list, at);
      RemoveMembers(list, at);
      e.hasTimeout := false;
      view := view[e.fd := Watch(e.udata, None)];
      ShowsOne(old(view), e);
    }

    lemma TimersNoRepeat()
      requires TimersLinked()
      ensures NoRepeat(timerList)
    {
    }

    /** Set an entry's deadline and put it on the timer list. */
    method Arm(e: Entry, deadline: Timespec)
      requires Valid() && e in entryList && !e.hasTimeout
      modifies this`timers, this`timerList, this`view, nodes`timerNext, e`hasTimeout, e`deadline
      ensures Valid() && view == old(view)[e.fd := Watch(e.udata, Some(deadline))]
    {
      hide Compare, EntriesLinked, TimersLinked, SortedByDeadline, DistinctFds, Insert, NoRepeat, Nth, Fds;
      ghost var list := timerList;
      e.deadline := deadline;
      e.hasTimeout := true;
      ghost var at := TimerInsert(e);
      InsertSorted(list, at, e);
      InsertMembers(list, at, e);
      assert Owned() && TimersExact();
      hide TimersExact, Owned;
      view := view[e.fd := Watch(e.udata, Some(deadline))];
      ShowsOne(old(view), e);
    }

    /** An entry without a timer leaves the list of entries. */
    method Detach(e: Entry)
      requires Valid() && e in entryList && !e.hasTimeout
      modifies this`entries, this`entryList, this`view, nodes`next
      ensures Valid() && view == old(view) - {e.fd}
    {
      hide Compare, EntriesLinked, TimersLinked, SortedByDeadline, NoRepeat, Remove;
      ghost var list := entryList;
      EntriesNoRepeat();
      ghost var at := EntryUnlink(e);
      RemoveMembers(list, at);
      RemoveDistinct(list, at);
      hide DistinctFds;
      view := view - {e.fd};
      assert view.Keys == Fds(entryList);
    }

    /** entry_free. */
    method EntryFree(e: Entry)
      requires Valid() && e in entryList
      modifies this`entries, this`timers, this`entryList, this`timerList, this`view
      modifies nodes`timerNext, nodes`next, e`hasTimeout
      ensures Valid() && view == old(view) - {e.fd}
    {
      hide EntriesLinked, TimersLinked, SortedByDeadline, TimersExact, Shows, DistinctFds;
      if e.hasTimeout {
        Disarm(e);
      }
      Detach(e);
    }

    lemma EntriesNoRepeat()
      requires EntriesLinked()
      ensures NoRepeat(entryList)
    {
    }

    /** A new entry for a descriptor that has none. */
    method EntryAdd(fd: int) returns (e: Entry)
      requires Valid() && forall x :: x in entryList ==> x.fd != fd
      modifies this`entries, this`entryList, this`view, this`nodes
      ensures nodes == old(nodes) + {e}
      ensures Valid() && fresh(e) && e.fd == fd && !e.hasTimeout && entryList == [e] + old(entryList)
      ensures view == old(view)[fd := Watch(None, None)]
    {
      hide SortedByDeadline, TimersLinked, EntriesLinked;
      e := EntryNew(fd);
      view := view[fd := Watch(None, None)];
      assert view.Keys == Fds(entryList);
    }

    /** The descriptor's user data. */
    method SetUdata(e: Entry, udata: Option<int>)
      requires Valid() && e in entryList && !e.hasTimeout
      modifies this`view, e`udata
      ensures Valid() && e.udata == udata && view == old(view)[e.fd := Watch(udata, None)]
    {
      hide EntriesLinked, TimersLinked, SortedByDeadline, DistinctFds;
      e.udata := udata;
      view := view[e.fd := Watch(udata, None)];
      ShowsOne(old(view), e);
    }

    // ---------- the calls ----------

    /**
    kc3_event_poll_add at time `now`: the descriptor is watched with the new data and
    timeout only; when the kernel refuses it, it is not watched at all. Other descriptors
    are not affected.
     */
    method Add(fd: int, timeout: Option<Timespec>, udata: Option<int>, now: Timespec, accepted: bool) returns (r: int)
      requires Valid()
      modifies this, nodes
      ensures Valid()
      ensures old(nodes) <= nodes && fresh(nodes - old(nodes))
      ensures r == if accepted then 0 else -1
      ensures Step(old(view), AddCall(fd, timeout, udata, now, accepted), None, view)
    {
      hide EntriesLinked, TimersLinked, SortedByDeadline, DistinctFds, Shows, DeadlineAfter;
      var found := EntryFind(fd);
      var e: Entry;
      if found == null {
        e := EntryAdd(fd);
      } else {
        e := found;
        if e.hasTimeout {
          Disarm(e);
        }
      }
      SetUdata(e, udata);
      if timeout.Some? {
        Arm(e, DeadlineAfter(now, timeout.value));
      }
      if !accepted {
        assert view == old(view)[fd := view[fd]];
        DropAfterSet(old(view), fd, view[fd]);
        EntryFree(e);
        return -1;
      }
      assert view == old(view)[fd := view[fd]];
      return 0;
    }

    lemma DropAfterSet(m: View, fd: int, w: Watch)
      ensures m[fd := w] - {fd} == m - {fd}
    {
    }

    /** kc3_event_poll_delete with the timer filter. */
    method DeleteTimer(fd: int)
      requires Valid()
      modifies this, nodes
      ensures Valid() && nodes == old(nodes)
      ensures Step(old(view), DropTimer(fd), None, view)
    {
      hide EntriesLinked, TimersLinked, SortedByDeadline, DistinctFds;
      var e := EntryFind(fd);
      if e != null && e.hasTimeout {
        Disarm(e);
      }
    }

    /** kc3_event_poll_delete with the read filter. */
    method DeleteRead(fd: int)
      requires Valid()
      modifies this, nodes
      ensures Valid() && nodes == old(nodes)
      ensures Step(old(view), DropRead(fd), None, view)
    {
      hide EntriesLinked, TimersLinked, SortedByDeadline, DistinctFds;
      var e := EntryFind(fd);
      if e != null {
        EntryFree(e);
      } else {
        assert view == view - {fd};
      }
    }

    /** The head of the timer list is unlinked directly. */
    method UnlinkFirst()
      requires Owned() && TimersLinked() && timers != null
      modifies this`timers, this`timerList, nodes`timerNext
      ensures TimersLinked() && |old(timerList)| > 0 && old(timerList)[0] == old(timers)
      ensures timerList == Remove(old(timerList), 0) && old(timers) !in timerList
    {
      var e := timers;
      RemoveNoRepeat(timerList, 0);
      hide NoRepeat;
      timers := e.timerNext;
      e.timerNext := null;
      timerList := Remove(timerList, 0);
    }

    /** The first timer leaves the timer list. */
    method TimerPop() returns (e: Entry)
      requires Valid() && timers != null
      modifies this`timers, this`timerList, this`view, nodes`timerNext, nodes`hasTimeout
      ensures Valid() && e == old(timers) && e in entryList && !e.hasTimeout
      ensures view == old(view)[e.fd := Watch(e.udata, None)]
    {
      hide Compare, EntriesLinked, TimersLinked, SortedByDeadline, DistinctFds, Remove;
      e := timers;
      ghost var list := timerList;
      TimersNoRepeat();
      UnlinkFirst();
      RemoveSorted(list, 0);
      RemoveMembers(list, 0);
      e.hasTimeout := false;
      view := view[e.fd := Watch(e.udata, None)];
      ShowsOne(old(view), e);
    }

    /** The head of the timer list is an armed descriptor with the smallest deadline. */
    lemma FirstIsEarliest()
      requires Valid() && timers != null
      ensures timers in entryList && EarliestArmed(view, timers.fd)
      ensures view[timers.fd] == WatchOf(timers) && timers.hasTimeout
    {
      hide Compare, EntriesLinked, DistinctFds;
      assert timerList[0] == timers;
      forall other | Armed(view, other)
        ensures Compare(view[other].deadline.value, timers.deadline) >= 0
      {
        assert other in Fds(entryList);
        var x :| x in entryList && x.fd == other;
        assert x in timerList;
        var i :| 0 <= i < |timerList| && timerList[i] == x;
        if i == 0 { CompareTransitive(timers.deadline, timers.deadline, timers.deadline); }
      }
    }

    lemma NoneArmed()
      requires Valid() && timers == null
      ensures forall fd :: !Armed(view, fd)
    {
      hide Compare, EntriesLinked, DistinctFds, SortedByDeadline;
      forall fd ensures !Armed(view, fd) {
        if fd in view {
          var x :| x in entryList && x.fd == fd;
          assert x !in timerList;
        }
      }
    }

    /**
    The first critical section of kc3_event_poll_poll at time `now`: a timer event if and
    only if some armed deadline has expired; it is for a descriptor with the smallest
    deadline, carries its data, and disarms that descriptor only.
     */
    method PollTimers(now: Timespec) returns (event: Option<Event>)
      requires Valid()
      modifies this, nodes
      ensures Valid() && nodes == old(nodes)
      ensures Step(old(view), Timers(now), event, view)
    {
      hide EntriesLinked, TimersLinked, SortedByDeadline, DistinctFds, TimersExact, Shows;
      event := None;
      if timers == null {
        NoneArmed();
      } else {
        FirstIsEarliest();
        ExpiredEarliest(view, timers.fd, now);
        if Expired(timers.deadline, now) {
          var e := TimerPop();
          event := Some(Event(e.fd, TimerEvent, e.udata));
        }
      }
    }

    /** The wait chosen before the lock is released. */
    method PollWait(supplied: Limit, now: Timespec) returns (wait: int)
      requires Valid()
      ensures (forall fd :: !Armed(view, fd)) ==> wait == ChosenWait(supplied, NoTimer, now)
      ensures forall fd :: EarliestArmed(view, fd) ==> wait == ChosenWait(supplied, Timer(view[fd].deadline.value), now)
    {
      hide EntriesLinked, TimersLinked, SortedByDeadline, DistinctFds, TimersExact, Shows;
      wait := -1;
      if supplied.Within? {
        wait := ToS32(TimeoutMs(supplied.t));
      }
      if timers != null {
        FirstIsEarliest();
        var timer := ToS32(RemainingMs(timers.deadline, now));
        if timer < 0 {
          timer := 0;
        }
        if wait < 0 || timer < wait {
          wait := timer;
        }
        forall fd | EarliestArmed(view, fd) ensures view[fd].deadline.value == timers.deadline {
          CompareBoth(view[fd].deadline.value, timers.deadline);
        }
        assert Armed(view, timers.fd);
      } else {
        NoneArmed();
      }
    }

    /**
    The second critical section of kc3_event_poll_poll, for the descriptor the kernel
    reported: an event if and only if it is still watched; its timer is disarmed.
     */
    method PollReady(fd: int, hangup: bool) returns (event: Option<Event>)
      requires Valid()
      modifies this, nodes
      ensures Valid() && nodes == old(nodes)
      ensures Step(old(view), Ready(fd, hangup), event, view)
    {
      hide EntriesLinked, TimersLinked, SortedByDeadline, DistinctFds;
      var e := EntryFind(fd);
      if e == null {
        return None;
      }
      var udata := e.udata;
      if e.hasTimeout {
        Disarm(e);
      }
      event := Some(Event(fd, if hangup then EofEvent else ReadEvent, udata));
    }
  }

  // ---------- comparisons ----------

  lemma CompareBoth(a: Timespec, b: Timespec)
    ensures Compare(a, b) >= 0 && Compare(b, a) >= 0 ==> a == b
  {
  }

  lemma ExpiredIsUpward(a: Timespec, b: Timespec, now: Timespec)
    ensures Compare(b, a) >= 0 && Expired(b, now) ==> Expired(a, now)
  {
  }

  /** If any armed deadline has expired, the smallest has. */
  lemma ExpiredEarliest(view: View, first: int, now: Timespec)
    requires EarliestArmed(view, first)
    ensures SomeExpired(view, now) <==> Expired(view[first].deadline.value, now)
  {
    if SomeExpired(view, now) {
      var fd :| Armed(view, fd) && Expired(view[fd].deadline.value, now);
      ExpiredIsUpward(view[first].deadline.value, view[fd].deadline.value, now);
    }
  }

  function Insert(nodes: seq<Entry>, at: nat, entry: Entry): (r: seq<Entry>)
    requires at <= |nodes|
    ensures |r| == |nodes| + 1 && r[at] == entry
    ensures forall i :: 0 <= i < at ==> r[i] == nodes[i]
    ensures forall i :: at < i <= |nodes| ==> r[i] == nodes[i - 1]
  {
    nodes[..at] + [entry] + nodes[at..]
  }

  lemma InsertNoRepeat(nodes: seq<Entry>, at: nat, entry: Entry)
    requires NoRepeat(nodes) && at <= |nodes| && entry !in nodes
    ensures NoRepeat(Insert(nodes, at, entry))
  {
  }

  function Remove(nodes: seq<Entry>, at: nat): (r: seq<Entry>)
    requires at < |nodes|
    ensures |r| == |nodes| - 1
    ensures forall i :: 0 <= i < at ==> r[i] == nodes[i]
    ensures forall i :: at <= i < |r| ==> r[i] == nodes[i + 1]
  {
    nodes[..at] + nodes[at + 1..]
  }

  lemma RemoveNoRepeat(nodes: seq<Entry>, at: nat)
    requires NoRepeat(nodes) && at < |nodes|
    ensures NoRepeat(Remove(nodes, at)) && nodes[at] !in Remove(nodes, at)
    ensures forall e :: e in nodes <==> e == nodes[at] || e in Remove(nodes, at)
  {
    var r := Remove(nodes, at);
    assert forall i :: 0 <= i < |nodes| && i != at ==> nodes[i] == r[if i < at then i else i - 1];
  }

  /** A node that is in the list but not in its first part, nor next, is further on. */
  lemma NotYet(nodes: seq<Entry>, at: nat, entry: Entry)
    requires at < |nodes| && entry in nodes && entry !in nodes[..at] && nodes[at] != entry
    ensures at + 1 < |nodes| && entry !in nodes[..at + 1]
  {
    assert nodes[..at + 1] == nodes[..at] + [nodes[at]];
    assert nodes[..|nodes|] == nodes;
  }

  lemma InsertMembers(nodes: seq<Entry>, at: nat, entry: Entry)
    requires at <= |nodes|
    ensures forall e :: e in Insert(nodes, at, entry) <==> e == entry || e in nodes
  {
    assert nodes == nodes[..at] + nodes[at..];
  }

  lemma RemoveMembers(nodes: seq<Entry>, at: nat)
    requires at < |nodes| && NoRepeat(nodes)
    ensures forall e :: e in Remove(nodes, at) <==> e != nodes[at] && e in nodes
  {
    RemoveNoRepeat(nodes, at);
  }

  lemma CompareTransitive(a: Timespec, b: Timespec, c: Timespec)
    ensures Compare(a, b) >= 0 && Compare(b, c) >= 0 ==> Compare(a, c) >= 0
    ensures Compare(a, b) < 0 ==> Compare(b, a) >= 0
  {
  }

  lemma InsertSorted(nodes: seq<Entry>, at: nat, entry: Entry)
    requires SortedByDeadline(nodes) && at <= |nodes|
    requires forall i :: 0 <= i < at ==> Compare(nodes[i].deadline, entry.deadline) < 0
    requires at < |nodes| ==> Compare(nodes[at].deadline, entry.deadline) >= 0
    ensures SortedByDeadline(Insert(nodes, at, entry))
  {
    hide Compare;
    var r := Insert(nodes, at, entry);
    forall i, j | 0 <= i < j < |r| ensures Compare(r[j].deadline, r[i].deadline) >= 0 {
      if j == at {
        CompareTransitive(nodes[i].deadline, entry.deadline, entry.deadline);
      } else if i == at && j > at + 1 {
        CompareTransitive(nodes[j - 1].deadline, nodes[at].deadline, entry.deadline);
      }
    }
  }

  lemma RemoveSorted(nodes: seq<Entry>, at: nat)
    requires SortedByDeadline(nodes) && at < |nodes|
    ensures SortedByDeadline(Remove(nodes, at))
  {
    hide Compare;
  }

  lemma RemoveDistinct(nodes: seq<Entry>, at: nat)
    requires DistinctFds(nodes) && at < |nodes|
    ensures DistinctFds(Remove(nodes, at))
    ensures nodes[at].fd !in Fds(Remove(nodes, at))
  {
    var r := Remove(nodes, at);
    forall e | e in r ensures e.fd != nodes[at].fd {
      var i :| 0 <= i < |r| && r[i] == e;
      assert nodes[if i < at then i else i + 1] == e;
    }
  }
}
