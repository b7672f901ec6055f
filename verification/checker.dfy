/**
 HDRChecker.OnTaskerTask: the one-shot HDR warning.

 The checker reacts to tasker events. Only a task-starting event, and only
 while no warning has been given yet, runs the probe. A probe error is logged
 and otherwise ignored; HDR reported on emits the warning and latches the
 `warned` flag; HDR reported off changes nothing. The probe's answer is an
 input of each step, and the log lines and the printed warning text are
 abstracted to the step's `Reaction`.
 */
module Checker {
  import opened DisplayConfig
  import HdrProbe

  /** The tasker event status; the framework's codes other than task-starting are kept opaque. */
  datatype EventStatus = Starting | OtherStatus(code: int)

  /** The checker's only state: whether the warning has been given in this session. */
  datatype HdrChecker = HdrChecker(warned: bool)

  /** The initial checker, as registered with the tasker. */
  const NewChecker := HdrChecker(false)

  /** What one event led to. */
  datatype Reaction =
    | NotStarting                 // not a task-starting event: nothing done
    | AlreadyWarned               // warning given before: probe skipped
    | ProbeFailed(error: Error)   // probe error logged
    | WarningEmitted              // HDR on: warning printed and latched
    | HdrNotEnabled               // HDR off: debug line logged

  /** The reactions that ran the probe. */
  predicate Probed(r: Reaction) {
    r.ProbeFailed? || r.WarningEmitted? || r.HdrNotEnabled?
  }

  /** An event that makes a not-yet-warned checker warn: task starting, and the probe answered HDR on without error. */
  predicate Triggers(status: EventStatus, probe: HdrProbe.ProbeReply) {
    status.Starting? && probe.err.None? && probe.enabled
  }

  datatype Step = Step(checker: HdrChecker, reaction: Reaction)

  /**
   One call of the handler. `probe` is what IsHDREnabled would answer if the
   handler ran it.
   */
  function OnTaskerTask(c: HdrChecker, status: EventStatus, probe: HdrProbe.ProbeReply): (s: Step)
    ensures c.warned ==> s.checker.warned
    ensures s.checker != c ==> s.reaction.WarningEmitted?
    ensures s.reaction.WarningEmitted? ==> s.checker.warned
    ensures s.reaction.WarningEmitted? <==> !c.warned && Triggers(status, probe)
    ensures Probed(s.reaction) <==> status.Starting? && !c.warned
    ensures probe.err.Some? ==> s.checker == c
    ensures s.reaction.ProbeFailed? ==> probe.err == Some(s.reaction.error)
    ensures status.Starting? && !c.warned && probe.err.Some? ==> s.reaction == ProbeFailed(probe.err.value)
  {
    if !status.Starting? then Step(c, NotStarting)
    else if c.warned then Step(c, AlreadyWarned)
    else match probe.err
      case Some(e) => Step(c, ProbeFailed(e))
      case None =>
        if probe.enabled then Step(c.(warned := true), WarningEmitted)
        else Step(c, HdrNotEnabled)
  }

  /** One tasker event together with the answer the probe would give at that moment. */
  datatype TaskEvent = TaskEvent(status: EventStatus, probe: HdrProbe.ProbeReply)

  datatype History = History(checker: HdrChecker, reactions: seq<Reaction>)

  /**
   Handler invocations one after another, in order: one reaction per event,
   the checker changes only by latching, and a checker that started warned
   never emits a warning.
   */
  function Run(c: HdrChecker, events: seq<TaskEvent>): (h: History)
    ensures |h.reactions| == |events|
    ensures h.checker != c ==> !c.warned && h.checker.warned
    ensures c.warned ==> forall i :: 0 <= i < |h.reactions| ==> !h.reactions[i].WarningEmitted?
    decreases |events|
  {
    if |events| == 0 then History(c, [])
    else
      var s := OnTaskerTask(c, events[0].status, events[0].probe);
      var rest := Run(s.checker, events[1..]);
      History(rest.checker, [s.reaction] + rest.reactions)
  }

  function CountWarnings(reactions: seq<Reaction>): nat {
    if |reactions| == 0 then 0
    else (if reactions[0].WarningEmitted? then 1 else 0) + CountWarnings(reactions[1..])
  }

  /** Running two stretches of events one after the other is running them together. */
  lemma {:induction false} RunComposes(c: HdrChecker, first: seq<TaskEvent>, second: seq<TaskEvent>)
    ensures Run(c, first + second).checker == Run(Run(c, first).checker, second).checker
    ensures Run(c, first + second).reactions == Run(c, first).reactions + Run(Run(c, first).checker, second).reactions
    decreases |first|
  {
    if |first| == 0 {
      assert first + second == second;
    } else {
      var s := OnTaskerTask(c, first[0].status, first[0].probe);
      assert (first + second)[0] == first[0];
      assert (first + second)[1..] == first[1..] + second;
      RunComposes(s.checker, first[1..], second);
    }
  }

  /** The checker ends up warned exactly when it started warned or some event triggered it. */
  lemma {:induction false} WarnedIffTriggered(c: HdrChecker, events: seq<TaskEvent>)
    ensures Run(c, events).checker.warned
      <==> c.warned || exists i :: 0 <= i < |events| && Triggers(events[i].status, events[i].probe)
    decreases |events|
  {
    if |events| > 0 {
      var s := OnTaskerTask(c, events[0].status, events[0].probe);
      WarnedIffTriggered(s.checker, events[1..]);
      assert forall i :: 1 <= i < |events| ==> events[i] == events[1..][i - 1];
      if exists i :: 1 <= i < |events| && Triggers(events[i].status, events[i].probe) {
        var i :| 1 <= i < |events| && Triggers(events[i].status, events[i].probe);
        assert Triggers(events[1..][i - 1].status, events[1..][i - 1].probe);
      }
    }
  }

  /**
   The warning is emitted at most once, never by a checker that has already
   warned, and exactly once when a fresh checker sees a triggering event.
   */
  lemma {:induction false} AtMostOneWarning(c: HdrChecker, events: seq<TaskEvent>)
    ensures CountWarnings(Run(c, events).reactions) <= 1
    ensures c.warned ==> CountWarnings(Run(c, events).reactions) == 0
    ensures CountWarnings(Run(c, events).reactions) == 1 <==> !c.warned && Run(c, events).checker.warned
    decreases |events|
  {
    if |events| > 0 {
      var s := OnTaskerTask(c, events[0].status, events[0].probe);
      AtMostOneWarning(s.checker, events[1..]);
      LatchHolds(s.checker, events[1..]);
    }
  }

  /** Once warned, the checker stays warned. */
  lemma {:induction false} LatchHolds(c: HdrChecker, events: seq<TaskEvent>)
    ensures c.warned ==> Run(c, events).checker.warned
    decreases |events|
  {
    if |events| > 0 {
      var s := OnTaskerTask(c, events[0].status, events[0].probe);
      LatchHolds(s.checker, events[1..]);
    }
  }

  /** `warned` never goes back: warned after any prefix of the events means warned at the end. */
  lemma LatchIsMonotone(c: HdrChecker, events: seq<TaskEvent>, k: nat)
    requires k <= |events|
    ensures Run(c, events[..k]).checker.warned ==> Run(c, events).checker.warned
  {
    assert events == events[..k] + events[k..];
    RunComposes(c, events[..k], events[k..]);
    LatchHolds(Run(c, events[..k]).checker, events[k..]);
  }

  /** A fresh checker, as registered with the tasker, warns exactly once if some event triggers it and never otherwise. */
  lemma FreshCheckerWarnsOnceIffTriggered(events: seq<TaskEvent>)
    ensures CountWarnings(Run(NewChecker, events).reactions)
      == (if exists i :: 0 <= i < |events| && Triggers(events[i].status, events[i].probe) then 1 else 0)
  {
    WarnedIffTriggered(NewChecker, events);
    AtMostOneWarning(NewChecker, events);
  }

  /** On platforms without the display-configuration interface the checker never warns. */
  lemma StubNeverWarns(c: HdrChecker, events: seq<TaskEvent>)
    requires forall i :: 0 <= i < |events| ==> events[i].probe == HdrProbe.ToReply(HdrProbe.IsHdrEnabledStub())
    ensures Run(c, events).checker == c
    ensures CountWarnings(Run(c, events).reactions) == 0
  {
    WarnedIffTriggered(c, events);
    AtMostOneWarning(c, events);
  }

  /** A system whose display-configuration procedures do not all resolve never makes the checker warn. */
  lemma UnresolvedProceduresNeverWarn(c: HdrChecker, events: seq<TaskEvent>, sys: HdrProbe.DisplaySystem)
    requires HonestOs(sys.os)
    requires !HdrProbe.AllResolve(sys.procs)
    requires forall i :: 0 <= i < |events| ==> events[i].probe == HdrProbe.ToReply(HdrProbe.IsHdrEnabled(sys).outcome)
    ensures Run(c, events).checker == c
    ensures CountWarnings(Run(c, events).reactions) == 0
  {
    HdrProbe.MissingProcedureShortCircuits(sys);
    WarnedIffTriggered(c, events);
    AtMostOneWarning(c, events);
  }
}
