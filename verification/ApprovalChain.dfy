/** The approval state machine: one step is asked at a time, its approvers in any order. */
module ApprovalChain {
  import opened Wrappers

  /** Membership ids, numbered in their sort order. */
  type Member = nat

  datatype StepType = Single | ParallelAny | ParallelAll | Quorum

  datatype StepStatus = Waiting | Active | Escalated | Approved | Rejected | Returned | Skipped

  datatype Action = Approve | Reject | Return | Override

  datatype Status = Pending | Granted | Refused | SentBack | Overridden | Cancelled

  datatype Entry = Entry(actor: Member, action: Action)

  datatype Step = Step(sequence: int, stepType: StepType, quorum: nat, status: StepStatus, eligible: seq<Member>,
                       dueAt: Option<int>, escalation: Option<seq<Member>>, actions: seq<Entry>, version: nat)

  datatype Chain = Chain(status: Status, current: int, steps: seq<Step>, version: nat)

  datatype Error = NotAMember | AlreadyDecided | StepNotFound | NotActionable | NotAnApprover | AlreadyActed

  predicate IsOpen(s: Step) {
    s.status == Active || s.status == Escalated
  }

  predicate HasActed(s: Step, m: Member) {
    exists i :: 0 <= i < |s.actions| && s.actions[i].actor == m
  }

  function IndexOfSequence(steps: seq<Step>, sequence: int): (r: Option<nat>)
    ensures r.Some? ==> r.value < |steps| && steps[r.value].sequence == sequence
    ensures r.None? ==> forall i :: 0 <= i < |steps| ==> steps[i].sequence != sequence
  {
    if steps == [] then None
    else if steps[0].sequence == sequence then Some(0)
    else
      match IndexOfSequence(steps[1..], sequence)
      case None => None
      case Some(i) => Some(i + 1)
  }

  /** The first step after `sequence` still waiting, in sequence order. */
  function NextWaiting(steps: seq<Step>, sequence: int): (r: Option<nat>)
    ensures r.None? ==> forall i :: 0 <= i < |steps| ==> !(steps[i].sequence > sequence && steps[i].status == Waiting)
    ensures r.Some? ==>
      && r.value < |steps| && steps[r.value].sequence > sequence && steps[r.value].status == Waiting
      && forall i :: 0 <= i < r.value ==> !(steps[i].sequence > sequence && steps[i].status == Waiting)
  {
    if steps == [] then None
    else if steps[0].sequence > sequence && steps[0].status == Waiting then Some(0)
    else
      match NextWaiting(steps[1..], sequence)
      case None => None
      case Some(i) => Some(i + 1)
  }

  function Approvals(actions: seq<Entry>): nat {
    if actions == [] then 0
    else (if actions[0].action == Approve then 1 else 0) + Approvals(actions[1..])
  }

  predicate StepIsSatisfied(stepType: StepType, quorum: nat, eligible: nat, approvals: nat) {
    match stepType
    case ParallelAll => approvals >= eligible
    case Quorum => approvals >= if quorum < eligible then quorum else eligible
    case _ => approvals >= 1
  }

  function SkipOutstanding(steps: seq<Step>): seq<Step> {
    seq(|steps|, i requires 0 <= i < |steps| =>
      if steps[i].status == Active || steps[i].status == Waiting || steps[i].status == Escalated
      then steps[i].(status := Skipped) else steps[i])
  }

  /** Why `act` refuses, in the order it checks. */
  function ActProblem(c: Chain, actor: Option<Member>, action: Action): Option<Error> {
    if actor.None? then Some(NotAMember)
    else if c.status != Pending then Some(AlreadyDecided)
    else
      match IndexOfSequence(c.steps, c.current)
      case None => Some(StepNotFound)
      case Some(k) =>
        if !IsOpen(c.steps[k]) then Some(NotActionable)
        else if action != Override && actor.value !in c.steps[k].eligible then Some(NotAnApprover)
        else if action != Override && HasActed(c.steps[k], actor.value) then Some(AlreadyActed)
        else None
  }

  function StepOutcome(action: Action): StepStatus {
    match action
    case Approve => Approved
    case Reject => Rejected
    case Return => Returned
    case Override => Skipped
  }

  function ChainOutcome(action: Action): Status {
    match action
    case Approve => Granted
    case Reject => Refused
    case Return => SentBack
    case Override => Overridden
  }

  function Closed(s: Step, status: StepStatus): Step {
    s.(status := status, version := s.version + 1)
  }

  /** The steps once step `k` has been approved by its last approver. */
  function ActedSteps(c: Chain, k: nat, actor: Member): seq<Step>
    requires k < |c.steps|
  {
    c.steps[k := Closed(c.steps[k].(actions := c.steps[k].actions + [Entry(actor, Approve)]), Approved)]
  }

  /** The chain after an accepted action on its step `k`. */
  function ActedAt(c: Chain, k: nat, actor: Member, action: Action): Chain
    requires k < |c.steps|
  {
    var step := c.steps[k];
    var recorded := step.(actions := step.actions + [Entry(actor, action)]);
    if action != Approve then
      Chain(ChainOutcome(action), c.current, SkipOutstanding(c.steps[k := Closed(recorded, StepOutcome(action))]), c.version + 1)
    else if !StepIsSatisfied(step.stepType, step.quorum, |step.eligible|, Approvals(step.actions) + 1) then
      c.(steps := c.steps[k := recorded])
    else
      Advanced(c.(steps := ActedSteps(c, k, actor)), step.sequence)
  }

  /** The next waiting step opens, or the chain is granted. */
  function Advanced(c: Chain, sequence: int): Chain {
    match NextWaiting(c.steps, sequence)
    case None => Chain(Granted, c.current, c.steps, c.version + 1)
    case Some(n) => Chain(c.status, c.steps[n].sequence, c.steps[n := Closed(c.steps[n], Active)], c.version + 1)
  }

  function Acted(c: Chain, actor: Option<Member>, action: Action): Chain {
    if ActProblem(c, actor, action).Some? then c
    else ActedAt(c, IndexOfSequence(c.steps, c.current).value, actor.value, action)
  }

  /** Those of the escalation's people not on the step already. */
  function Added(eligible: seq<Member>, escalation: seq<Member>): seq<Member> {
    if escalation == [] then []
    else (if escalation[0] in eligible then [] else [escalation[0]]) + Added(eligible, escalation[1..])
  }

  predicate CanEscalate(c: Chain, k: nat, now: int) {
    && k < |c.steps| && c.steps[k].status == Active && c.status == Pending
    && c.steps[k].dueAt.Some? && c.steps[k].dueAt.value <= now
    && c.steps[k].escalation.Some? && Added(c.steps[k].eligible, c.steps[k].escalation.value) != []
  }

  /** The deadline of step `k` passed: it gains approvers and loses none. */
  function EscalatedAt(c: Chain, k: nat, now: int): Chain {
    if !CanEscalate(c, k, now) then c
    else
      var s := c.steps[k];
      c.(steps := c.steps[k := s.(status := Escalated, eligible := s.eligible + Added(s.eligible, s.escalation.value),
                                  version := s.version + 1)])
  }

  function CancelledChain(c: Chain): Chain {
    if c.status != Pending then c
    else
      Chain(Cancelled, c.current,
            seq(|c.steps|, i requires 0 <= i < |c.steps| =>
              if c.steps[i].status == Active || c.steps[i].status == Waiting then c.steps[i].(status := Skipped) else c.steps[i]),
            c.version + 1)
  }

  /** What the resolver hands over for one step. */
  datatype ResolvedStep = ResolvedStep(sequence: int, stepType: StepType, quorum: nat, eligible: seq<Member>,
                                       dueAt: Option<int>, escalation: Option<seq<Member>>)

  function Open(resolved: seq<ResolvedStep>): Chain {
    Chain(Pending, if resolved == [] then 1 else resolved[0].sequence,
          seq(|resolved|, i requires 0 <= i < |resolved| =>
            var r := resolved[i];
            Step(r.sequence, r.stepType, r.quorum, if i == 0 then Active else Waiting, r.eligible, r.dueAt, r.escalation, [], 1)),
          1)
  }

  /** One chain's rows, updated in place. */
  class ApprovalInstance {
    var status: Status
    var currentStepSequence: int
    var steps: seq<Step>
    var version: nat

    function Value(): Chain
      reads this
    {
      Chain(status, currentStepSequence, steps, version)
    }

    constructor (resolved: seq<ResolvedStep>)
      ensures Value() == Open(resolved)
      ensures status == Pending && |steps| == |resolved|
      ensures forall k :: 0 <= k < |resolved| ==>
                steps[k].actions == [] && steps[k].eligible == resolved[k].eligible && (steps[k].status == Active <==> k == 0)
    {
      status := Pending;
      currentStepSequence := if resolved == [] then 1 else resolved[0].sequence;
      version := 1;
      steps := [];
      new;
      var i := 0;
      while i < |resolved|
        invariant 0 <= i <= |resolved| && steps == Open(resolved).steps[..i]
        invariant status == Pending && version == 1
        invariant currentStepSequence == Open(resolved).current
      {
        var r := resolved[i];
        var opening := if i == 0 then Active else Waiting;
        steps := steps + [Step(r.sequence, r.stepType, r.quorum, opening, r.eligible, r.dueAt, r.escalation, [], 1)];
        i := i + 1;
      }
    }

    method Act(actor: Option<Member>, action: Action) returns (refused: Option<Error>)
      modifies this
      ensures refused == ActProblem(old(Value()), actor, action)
      ensures Value() == Acted(old(Value()), actor, action)
    {
      if actor.None? {
        return Some(NotAMember);
      }
      if status != Pending {
        return Some(AlreadyDecided);
      }
      var found := IndexOfSequence(steps, currentStepSequence);
      if found.None? {
        return Some(StepNotFound);
      }
      var k := found.value;
      var step := steps[k];
      if step.status != Active && step.status != Escalated {
        return Some(NotActionable);
      }
      if action != Override && actor.value !in step.eligible {
        return Some(NotAnApprover);
      }
      var existing := step.actions;
      if action != Override && exists i :: 0 <= i < |existing| && existing[i].actor == actor.value {
        return Some(AlreadyActed);
      }
      steps := steps[k := step.(actions := existing + [Entry(actor.value, action)])];
      if action != Approve {
        CloseStep(k, StepOutcome(action));
        assert steps == old(steps)[k := Closed(step.(actions := existing + [Entry(actor.value, action)]), StepOutcome(action))];
        steps := SkipOutstanding(steps);
        CloseInstance(ChainOutcome(action));
        return None;
      }
      var approvals := Approvals(existing) + 1;
      if !StepIsSatisfied(step.stepType, step.quorum, |step.eligible|, approvals) {
        return None;
      }
      CloseStep(k, Approved);
      assert steps == ActedSteps(old(Value()), k, actor.value);
      OpenNext(step.sequence);
      return None;
    }

    /** The step after `sequence` opens, or the chain is complete. */
    method OpenNext(sequence: int)
      modifies this
      ensures Value() == Advanced(old(Value()), sequence)
    {
      var next := NextWaiting(steps, sequence);
      if next.None? {
        CloseInstance(Granted);
        return;
      }
      steps := steps[next.value := Closed(steps[next.value], Active)];
      currentStepSequence := steps[next.value].sequence;
      version := version + 1;
    }

    method CloseStep(k: nat, to: StepStatus)
      requires k < |steps|
      modifies this`steps
      ensures steps == old(steps)[k := Closed(old(steps)[k], to)]
    {
      steps := steps[k := Closed(steps[k], to)];
    }

    method CloseInstance(to: Status)
      modifies this`status, this`version
      ensures status == to && version == old(version) + 1
    {
      status := to;
      version := version + 1;
    }

    method Escalate(k: nat, now: int) returns (added: seq<Member>)
      modifies this
      ensures Value() == EscalatedAt(old(Value()), k, now)
      ensures added == if CanEscalate(old(Value()), k, now) then Added(old(steps)[k].eligible, old(steps)[k].escalation.value) else []
    {
      added := [];
      if k >= |steps| || steps[k].status != Active || status != Pending {
        return;
      }
      var step := steps[k];
      if step.dueAt.None? || step.dueAt.value > now || step.escalation.None? {
        return;
      }
      added := Added(step.eligible, step.escalation.value);
      if added == [] {
        return;
      }
      steps := steps[k := step.(status := Escalated, eligible := step.eligible + added, version := step.version + 1)];
    }

    method Cancel()
      modifies this
      ensures Value() == CancelledChain(old(Value()))
    {
      if status != Pending {
        return;
      }
      CloseInstance(Cancelled);
      var i := 0;
      while i < |steps|
        invariant 0 <= i <= |steps| == |old(steps)|
        invariant status == Cancelled && version == old(version) + 1 && currentStepSequence == old(currentStepSequence)
        invariant forall j :: i <= j < |steps| ==> steps[j] == old(steps)[j]
        invariant forall j :: 0 <= j < i ==> steps[j] == CancelledChain(old(Value())).steps[j]
      {
        if steps[i].status == Active || steps[i].status == Waiting {
          steps := steps[i := steps[i].(status := Skipped)];
        }
        i := i + 1;
      }
      assert steps == CancelledChain(old(Value())).steps;
    }
  }
}
