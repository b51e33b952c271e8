/**
Runs of the poller: what the timer events delivered so far say about the calls made.
 */
module EventRuns {
  import opened Bytes
  import opened Deadline
  import opened EventPoll

  datatype Stage = Stage(op: Op, event: Option<Event>, view: View)

  function Before(start: View, stages: seq<Stage>, i: nat): View
    requires i <= |stages|
  {
    if i == 0 then start else stages[i - 1].view
  }

  /** A run from a poller with nothing armed; the operations may come from any thread. */
  ghost predicate Run(start: View, stages: seq<Stage>) {
    && (forall fd :: !Armed(start, fd))
    && forall i :: 0 <= i < |stages| ==> Step(Before(start, stages, i), stages[i].op, stages[i].event, stages[i].view)
  }

  /** The stage arms a timer for the descriptor. */
  predicate Arms(stage: Stage, fd: int) {
    stage.op.AddCall? && stage.op.fd == fd && stage.op.accepted && stage.op.timeout.Some?
  }

  function ArmedDeadline(stage: Stage, fd: int): Timespec
    requires Arms(stage, fd)
  {
    DeadlineAfter(stage.op.now, stage.op.timeout.value)
  }

  /** The stage adds or deletes the descriptor, or delivers an event for it. */
  predicate Touches(stage: Stage, fd: int) {
    || ((stage.op.AddCall? || stage.op.DropTimer? || stage.op.DropRead?) && stage.op.fd == fd)
    || (stage.event.Some? && stage.event.value.fd == fd)
  }

  predicate TimerFires(stage: Stage, fd: int) {
    stage.event.Some? && stage.event.value.fd == fd && stage.event.value.kind == TimerEvent
  }

  /** The last stage before j that touched the descriptor. */
  function LastTouch(stages: seq<Stage>, j: nat, fd: int): (r: Option<nat>)
    requires j <= |stages|
    ensures r.Some? ==> r.value < j && Touches(stages[r.value], fd)
    ensures forall m :: (if r.Some? then r.value + 1 else 0) <= m < j ==> !Touches(stages[m], fd)
  {
    if j == 0 then None
    else if Touches(stages[j - 1], fd) then Some(j - 1)
    else LastTouch(stages, j - 1, fd)
  }

  /** One stage: arming arms, any other touch disarms, and the rest leaves the watch alone. */
  lemma StageOnWatch(before: View, stage: Stage, fd: int)
    requires Step(before, stage.op, stage.event, stage.view)
    ensures Arms(stage, fd) ==>
              fd in stage.view && stage.view[fd] == Watch(stage.op.udata, Some(ArmedDeadline(stage, fd)))
    ensures Touches(stage, fd) && !Arms(stage, fd) ==> !Armed(stage.view, fd)
    ensures !Touches(stage, fd) ==>
              (fd in stage.view <==> fd in before) && (fd in before ==> stage.view[fd] == before[fd])
  {
  }

  /**
  A descriptor is armed exactly when the last stage that touched it was an add with a
  timeout, and then with that add's deadline and data.
   */
  lemma {:induction false} ArmedIffLastTouchArms(start: View, stages: seq<Stage>, j: nat, fd: int)
    requires Run(start, stages) && j <= |stages|
    ensures var last := LastTouch(stages, j, fd);
            var view := Before(start, stages, j);
            && (Armed(view, fd) <==> last.Some? && Arms(stages[last.value], fd))
            && (Armed(view, fd) ==>
                  view[fd] == Watch(stages[last.value].op.udata, Some(ArmedDeadline(stages[last.value], fd))))
  {
    hide Step, DeadlineAfter;
    if j > 0 {
      ArmedIffLastTouchArms(start, stages, j - 1, fd);
      StageOnWatch(Before(start, stages, j - 1), stages[j - 1], fd);
    }
  }

  /** At a check a timer event is delivered exactly when an arming still in force has expired. */
  lemma CheckFiresIff(start: View, stages: seq<Stage>, j: nat)
    requires Run(start, stages) && j < |stages| && stages[j].op.Timers?
    ensures stages[j].event.Some? <==>
            exists fd :: InForce(stages, j, fd) && Expired(DeadlineInForce(stages, j, fd), stages[j].op.now)
  {
    var view := Before(start, stages, j);
    assert Step(view, stages[j].op, stages[j].event, stages[j].view);
    forall fd
      ensures Armed(view, fd) <==> InForce(stages, j, fd)
      ensures Armed(view, fd) ==> view[fd].deadline.value == DeadlineInForce(stages, j, fd)
    {
      ArmedIffLastTouchArms(start, stages, j, fd);
    }
    hide LastTouch, Expired, Compare, InForce, DeadlineInForce, Run;
    if SomeExpired(view, stages[j].op.now) {
      var fd :| Armed(view, fd) && Expired(view[fd].deadline.value, stages[j].op.now);
      assert InForce(stages, j, fd);
    }
  }

  /** The descriptor was armed and not touched since. */
  predicate InForce(stages: seq<Stage>, j: nat, fd: int)
    requires j <= |stages|
  {
    var last := LastTouch(stages, j, fd);
    last.Some? && Arms(stages[last.value], fd)
  }

  function DeadlineInForce(stages: seq<Stage>, j: nat, fd: int): Timespec
    requires j <= |stages| && InForce(stages, j, fd)
  {
    ArmedDeadline(stages[LastTouch(stages, j, fd).value], fd)
  }

  /**
  A timer event belongs to one arming: it carries that add's data, its deadline has
  expired, and no arming in force has an earlier one.
   */
  lemma TimerEventHasArming(start: View, stages: seq<Stage>, j: nat, fd: int)
    requires Run(start, stages) && j < |stages| && TimerFires(stages[j], fd)
    ensures stages[j].op.Timers? && InForce(stages, j, fd)
    ensures stages[j].event.value.udata == stages[LastTouch(stages, j, fd).value].op.udata
    ensures Expired(DeadlineInForce(stages, j, fd), stages[j].op.now)
    ensures forall other :: InForce(stages, j, other) ==>
              Compare(DeadlineInForce(stages, j, other), DeadlineInForce(stages, j, fd)) >= 0
  {
    hide LastTouch, Expired, Compare;
    var view := Before(start, stages, j);
    assert Step(view, stages[j].op, stages[j].event, stages[j].view);
    ArmedIffLastTouchArms(start, stages, j, fd);
    ExpiredEarliest(view, fd, stages[j].op.now);
    forall other | InForce(stages, j, other)
      ensures Compare(DeadlineInForce(stages, j, other), DeadlineInForce(stages, j, fd)) >= 0
    {
      ArmedIffLastTouchArms(start, stages, j, other);
      assert Armed(view, other);
    }
  }

  /**
  After a read, eof or timer event for a descriptor, and after it is deleted or its timer
  is, no timer event for it comes before it is added with a timeout again; so every
  arming fires at most once.
   */
  lemma QuietUntilArmed(start: View, stages: seq<Stage>, i: nat, j: nat, fd: int)
    requires Run(start, stages) && i < j < |stages|
    requires Touches(stages[i], fd) && !Arms(stages[i], fd) && TimerFires(stages[j], fd)
    ensures exists k :: i < k < j && Arms(stages[k], fd)
  {
    hide Expired, Compare, DeadlineInForce, Step;
    TimerEventHasArming(start, stages, j, fd);
    hide Run;
    assert Arms(stages[LastTouch(stages, j, fd).value], fd);
  }
}
