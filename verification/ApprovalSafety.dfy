/** What every run of `open`, `act`, `escalate` and `cancel` keeps true of a chain. */
module ApprovalSafety {
  import opened Wrappers
  import opened ApprovalChain

  predicate Distinct<T(==)>(s: seq<T>) {
    forall i, j :: 0 <= i < j < |s| ==> s[i] != s[j]
  }

  /** How many approvals a step asks for. */
  function Required(s: Step): nat {
    match s.stepType
    case ParallelAll => |s.eligible|
    case Quorum => if s.quorum < |s.eligible| then s.quorum else |s.eligible|
    case _ => 1
  }

  /** Only approvals so far, by different people, all of them eligible. */
  ghost predicate Clean(s: Step) {
    && (forall i :: 0 <= i < |s.actions| ==> s.actions[i].action == Approve && s.actions[i].actor in s.eligible)
    && (forall i, j :: 0 <= i < j < |s.actions| ==> s.actions[i].actor != s.actions[j].actor)
  }

  /** Whoever approved, rejected or returned was an approver of the step. */
  ghost predicate Attributed(s: Step) {
    forall i :: 0 <= i < |s.actions| && s.actions[i].action != Override ==> s.actions[i].actor in s.eligible
  }

  ghost predicate StepOk(s: Step) {
    && Distinct(s.eligible) && s.eligible != []
    && (s.stepType == Quorum ==> s.quorum >= 1)
    && (s.escalation.Some? ==> Distinct(s.escalation.value))
    && Attributed(s)
    && (s.status == Waiting ==> s.actions == [])
    && (IsOpen(s) ==> Clean(s) && |s.actions| < Required(s))
    && (s.status == Approved ==> Clean(s) && |s.actions| >= Required(s))
  }

  /** Step `k` is the one being asked: everything before it approved, everything after it waiting. */
  ghost predicate AsksAt(c: Chain, k: nat) {
    && k < |c.steps| && IsOpen(c.steps[k]) && c.steps[k].sequence == c.current
    && (forall i :: 0 <= i < k ==> c.steps[i].status == Approved)
    && (forall i :: k < i < |c.steps| ==> c.steps[i].status == Waiting)
  }

  ghost predicate Ordered(steps: seq<Step>) {
    forall i, j :: 0 <= i < j < |steps| ==> steps[i].sequence < steps[j].sequence
  }

  /** Nothing is left open or waiting, except a step that had escalated when its chain was cancelled. */
  ghost predicate Quiet(c: Chain) {
    forall i :: 0 <= i < |c.steps| ==>
      c.steps[i].status != Active && c.steps[i].status != Waiting && (c.steps[i].status == Escalated ==> c.status == Cancelled)
  }

  ghost predicate ChainOk(c: Chain) {
    && Ordered(c.steps)
    && (forall i {:trigger StepOk(c.steps[i])} :: 0 <= i < |c.steps| ==> StepOk(c.steps[i]))
    && (c.status == Pending ==> exists k: nat :: AsksAt(c, k))
    && (c.status != Pending ==> Quiet(c))
    && (c.status == Granted ==> forall i :: 0 <= i < |c.steps| ==> c.steps[i].status == Approved)
  }

  /** What the resolver guarantees and the policy engine's merge orders. */
  ghost predicate Resolved(steps: seq<ResolvedStep>) {
    && steps != []
    && (forall i, j :: 0 <= i < j < |steps| ==> steps[i].sequence < steps[j].sequence)
    && (forall i :: 0 <= i < |steps| ==>
          && Distinct(steps[i].eligible) && steps[i].eligible != []
          && (steps[i].stepType == Quorum ==> steps[i].quorum >= 1)
          && (steps[i].escalation.Some? ==> Distinct(steps[i].escalation.value)))
  }

  datatype Event =
    | Act(actor: Option<Member>, action: Action)
    | Escalate(k: nat, now: int)
    | Cancel

  function Next(c: Chain, e: Event): Chain {
    match e
    case Act(actor, action) => Acted(c, actor, action)
    case Escalate(k, now) => EscalatedAt(c, k, now)
    case Cancel => CancelledChain(c)
  }

  /** A run of serial transactions, refused ones included. */
  function Run(c: Chain, es: seq<Event>): Chain {
    if es == [] then c else Next(Run(c, es[..|es| - 1]), es[|es| - 1])
  }

  lemma {:induction false} ApprovalsOfClean(actions: seq<Entry>)
    requires forall i :: 0 <= i < |actions| ==> actions[i].action == Approve
    ensures Approvals(actions) == |actions|
  {
    if actions != [] { ApprovalsOfClean(actions[1..]); }
  }

  lemma AskedIsFound(c: Chain, k: nat)
    requires Ordered(c.steps) && AsksAt(c, k)
    ensures IndexOfSequence(c.steps, c.current) == Some(k)
  {
    var r := IndexOfSequence(c.steps, c.current);
    assert r.Some?;
    forall i | 0 <= i < |c.steps| && i != k ensures c.steps[i].sequence != c.steps[k].sequence {}
  }

  lemma RecordKeepsStep(s: Step, actor: Member, action: Action)
    requires StepOk(s) && IsOpen(s)
    requires action != Override ==> actor in s.eligible && !HasActed(s, actor)
    ensures var r := s.(actions := s.actions + [Entry(actor, action)]);
            && Attributed(r)
            && (action == Approve ==> Clean(r))
            && (action == Approve ==>
                  (StepIsSatisfied(s.stepType, s.quorum, |s.eligible|, Approvals(s.actions) + 1) <==> |r.actions| >= Required(r)))
  {
    ApprovalsOfClean(s.actions);
  }

  lemma SettlingKeeps(c: Chain, k: nat, actor: Member, action: Action)
    requires ChainOk(c) && c.status == Pending && AsksAt(c, k) && action != Approve
    requires action != Override ==> actor in c.steps[k].eligible && !HasActed(c.steps[k], actor)
    ensures ChainOk(ActedAt(c, k, actor, action))
  {
    RecordKeepsStep(c.steps[k], actor, action);
    var steps := c.steps[k := Closed(c.steps[k].(actions := c.steps[k].actions + [Entry(actor, action)]), StepOutcome(action))];
    forall i | 0 <= i < |steps| ensures StepOk(steps[i]) { assert StepOk(c.steps[i]); }
    SettledIsOk(c.current, steps, ChainOutcome(action), c.version + 1);
  }

  /** Skipping whatever is open or waiting leaves a chain that is over. */
  lemma SettledIsOk(current: int, steps: seq<Step>, status: Status, version: nat)
    requires Ordered(steps) && status != Pending && status != Granted
    requires forall i {:trigger StepOk(steps[i])} :: 0 <= i < |steps| ==> StepOk(steps[i])
    ensures ChainOk(Chain(status, current, SkipOutstanding(steps), version))
  {
    var d := SkipOutstanding(steps);
    forall i | 0 <= i < |d| ensures StepOk(d[i]) {
      assert StepOk(steps[i]);
      SkippingKeepsStep(steps, i);
    }
  }

  lemma SkippingKeepsStep(steps: seq<Step>, i: nat)
    requires i < |steps| && StepOk(steps[i])
    ensures StepOk(SkipOutstanding(steps)[i])
  {}

  /** One more approval, not yet enough. */
  lemma RecordingKeeps(c: Chain, k: nat, step: Step)
    requires ChainOk(c) && c.status == Pending && AsksAt(c, k) && StepOk(step)
    requires IsOpen(step) && step.sequence == c.steps[k].sequence
    ensures ChainOk(c.(steps := c.steps[k := step]))
  {
    assert AsksAt(c.(steps := c.steps[k := step]), k);
  }

  lemma FollowingWaits(c: Chain, k: nat, done: Step)
    requires Ordered(c.steps) && AsksAt(c, k) && done.sequence == c.steps[k].sequence
    ensures NextWaiting(c.steps[k := done], done.sequence) == if k + 1 < |c.steps| then Some(k + 1) else None
  {
    var steps := c.steps[k := done];
    if k + 1 < |steps| { assert steps[k + 1].sequence > done.sequence && steps[k + 1].status == Waiting; }
  }

  /** Enough: the step closes and the one after it, if any, opens. */
  lemma AdvancingKeeps(c: Chain, k: nat, done: Step)
    requires ChainOk(c) && c.status == Pending && AsksAt(c, k) && StepOk(done)
    requires done.status == Approved && done.sequence == c.steps[k].sequence
    ensures NextWaiting(c.steps[k := done], done.sequence) == if k + 1 < |c.steps| then Some(k + 1) else None
    ensures k + 1 == |c.steps| ==> ChainOk(Chain(Granted, c.current, c.steps[k := done], c.version + 1))
    ensures k + 1 < |c.steps| ==>
      var first := Closed(c.steps[k + 1], Active);
      ChainOk(Chain(Pending, first.sequence, c.steps[k := done][k + 1 := first], c.version + 1))
  {
    FollowingWaits(c, k, done);
    if k + 1 < |c.steps| { OpeningKeeps(c, k, done); }
  }

  lemma OpeningKeeps(c: Chain, k: nat, done: Step)
    requires ChainOk(c) && c.status == Pending && AsksAt(c, k) && StepOk(done) && k + 1 < |c.steps|
    requires done.status == Approved && done.sequence == c.steps[k].sequence
    ensures var first := Closed(c.steps[k + 1], Active);
            ChainOk(Chain(Pending, first.sequence, c.steps[k := done][k + 1 := first], c.version + 1))
  {
    var first := Closed(c.steps[k + 1], Active);
    assert StepOk(c.steps[k + 1]) && c.steps[k + 1].status == Waiting;
    OpeningKeepsStep(c.steps[k + 1]);
    assert AsksAt(Chain(Pending, first.sequence, c.steps[k := done][k + 1 := first], c.version + 1), k + 1);
  }

  lemma OpeningKeepsStep(s: Step)
    requires StepOk(s) && s.status == Waiting
    ensures StepOk(Closed(s, Active))
  {}

  lemma ApprovingKeeps(c: Chain, k: nat, actor: Member)
    requires ChainOk(c) && c.status == Pending && AsksAt(c, k)
    requires actor in c.steps[k].eligible && !HasActed(c.steps[k], actor)
    ensures ChainOk(ActedAt(c, k, actor, Approve))
  {
    var s := c.steps[k];
    assert StepOk(s);
    RecordKeepsStep(s, actor, Approve);
    var recorded := s.(actions := s.actions + [Entry(actor, Approve)]);
    if StepIsSatisfied(s.stepType, s.quorum, |s.eligible|, Approvals(s.actions) + 1) {
      AdvancingKeeps(c, k, Closed(recorded, Approved));
    } else {
      RecordingKeeps(c, k, recorded);
    }
  }

  lemma ActKeeps(c: Chain, actor: Option<Member>, action: Action)
    requires ChainOk(c)
    ensures ChainOk(Acted(c, actor, action))
  {
    if ActProblem(c, actor, action) == None {
      var k: nat :| AsksAt(c, k);
      AskedIsFound(c, k);
      if action == Approve { ApprovingKeeps(c, k, actor.value); } else { SettlingKeeps(c, k, actor.value, action); }
    }
  }

  lemma {:induction false} AddedAreNew(eligible: seq<Member>, escalation: seq<Member>)
    requires Distinct(escalation)
    ensures Distinct(Added(eligible, escalation)) && |Added(eligible, escalation)| <= |escalation|
    ensures forall m :: m in Added(eligible, escalation) <==> m in escalation && m !in eligible
  {
    if escalation != [] {
      AddedAreNew(eligible, escalation[1..]);
      assert forall m :: m in escalation <==> m == escalation[0] || m in escalation[1..];
    }
  }

  lemma WideningKeepsStep(s: Step)
    requires StepOk(s) && s.status == Active && s.escalation.Some?
    ensures StepOk(s.(status := Escalated, eligible := s.eligible + Added(s.eligible, s.escalation.value), version := s.version + 1))
  {
    var added := Added(s.eligible, s.escalation.value);
    AddedAreNew(s.eligible, s.escalation.value);
    forall i | 0 <= i < |added| ensures added[i] !in s.eligible { assert added[i] in added; }
    assert forall m :: m in s.eligible ==> m in s.eligible + added;
  }

  lemma EscalateKeeps(c: Chain, k: nat, now: int)
    requires ChainOk(c)
    ensures ChainOk(EscalatedAt(c, k, now))
  {
    if CanEscalate(c, k, now) {
      var s := c.steps[k];
      assert StepOk(s);
      WideningKeepsStep(s);
      var d := EscalatedAt(c, k, now);
      var j: nat :| AsksAt(c, j);
      assert j == k;
      assert AsksAt(d, k);
    }
  }

  lemma CancelKeeps(c: Chain)
    requires ChainOk(c)
    ensures ChainOk(CancelledChain(c))
  {
    var d := CancelledChain(c);
    if c.status == Pending {
      forall i | 0 <= i < |d.steps| ensures StepOk(d.steps[i]) { assert StepOk(c.steps[i]); }
    }
  }

  lemma OpenIsOk(steps: seq<ResolvedStep>)
    requires Resolved(steps)
    ensures ChainOk(Open(steps))
  {
    assert AsksAt(Open(steps), 0);
  }

  lemma NextKeeps(c: Chain, e: Event)
    requires ChainOk(c)
    ensures ChainOk(Next(c, e))
  {
    match e {
      case Act(actor, action) => ActKeeps(c, actor, action);
      case Escalate(k, now) => EscalateKeeps(c, k, now);
      case Cancel => CancelKeeps(c);
    }
  }

  /** The chain invariant over whole runs. */
  lemma {:induction false} RunIsOk(steps: seq<ResolvedStep>, es: seq<Event>)
    requires Resolved(steps)
    ensures ChainOk(Run(Open(steps), es))
  {
    if es == [] {
      OpenIsOk(steps);
    } else {
      RunIsOk(steps, es[..|es| - 1]);
      NextKeeps(Run(Open(steps), es[..|es| - 1]), es[|es| - 1]);
    }
  }

  /** A pending chain asks exactly one step: the one at `currentStepSequence`, with everything before
      it approved and everything after it waiting. */
  lemma PendingAsksExactlyOneStep(steps: seq<ResolvedStep>, es: seq<Event>) returns (k: nat)
    requires Resolved(steps) && Run(Open(steps), es).status == Pending
    ensures var c := Run(Open(steps), es);
            AsksAt(c, k) && forall i :: 0 <= i < |c.steps| && (IsOpen(c.steps[i]) || c.steps[i].sequence == c.current) ==> i == k
  {
    RunIsOk(steps, es);
    var c := Run(Open(steps), es);
    k :| AsksAt(c, k);
    forall i | 0 <= i < |c.steps| && i != k ensures c.steps[i].sequence != c.steps[k].sequence {}
  }

  /** Once decided a chain never changes again, and if an action decided it nothing is left open. */
  lemma {:induction false} DecidedIsFinal(steps: seq<ResolvedStep>, es: seq<Event>, later: seq<Event>)
    requires Resolved(steps) && Run(Open(steps), es).status != Pending
    ensures Run(Run(Open(steps), es), later) == Run(Open(steps), es)
    ensures var c := Run(Open(steps), es);
            c.status != Cancelled ==> forall i :: 0 <= i < |c.steps| ==> !IsOpen(c.steps[i]) && c.steps[i].status != Waiting
  {
    RunIsOk(steps, es);
    if later != [] { DecidedIsFinal(steps, es, later[..|later| - 1]); }
  }

  predicate OnlyApprovals(s: Step) {
    forall i :: 0 <= i < |s.actions| ==> s.actions[i].action == Approve
  }

  /** The last entry on step `k` is this action, after approvals only; the step closed as `outcome`, with
      everything before it approved and everything after it skipped unasked. */
  ghost predicate EndedAt(steps: seq<Step>, k: nat, action: Action, outcome: StepStatus) {
    && k < |steps| && steps[k].status == outcome && steps[k].actions != []
    && steps[k].actions[|steps[k].actions| - 1].action == action
    && (forall i :: 0 <= i < |steps[k].actions| - 1 ==> steps[k].actions[i].action == Approve)
    && (forall i :: 0 <= i < k ==> steps[i].status == Approved && OnlyApprovals(steps[i]))
    && (forall i :: k < i < |steps| ==> steps[i].status == Skipped && steps[i].actions == [])
  }

  /** The chain's status tells the story of its entries. */
  ghost predicate EndedRight(c: Chain) {
    match c.status
    case Refused => exists k: nat :: EndedAt(c.steps, k, Reject, Rejected)
    case SentBack => exists k: nat :: EndedAt(c.steps, k, Return, Returned)
    case Overridden => exists k: nat :: EndedAt(c.steps, k, Override, Skipped)
    case _ => forall k :: 0 <= k < |c.steps| ==> OnlyApprovals(c.steps[k])
  }

  lemma PendingHasOnlyApprovals(c: Chain)
    requires ChainOk(c) && (c.status == Pending || c.status == Granted)
    ensures forall k :: 0 <= k < |c.steps| ==> OnlyApprovals(c.steps[k])
  {
    forall k | 0 <= k < |c.steps| ensures OnlyApprovals(c.steps[k]) {
      assert StepOk(c.steps[k]);
      if c.status == Pending {
        var j: nat :| AsksAt(c, j);
      }
    }
  }

  lemma RejectionEnds(c: Chain, k: nat, m: Member)
    requires ChainOk(c) && c.status == Pending && AsksAt(c, k)
    ensures var d := ActedAt(c, k, m, Reject); d.status == Refused && EndedAt(d.steps, k, Reject, Rejected)
  {
    PendingHasOnlyApprovals(c);
    EntryIsLast(c, k, m, Reject, Rejected);
  }

  lemma ReturnEnds(c: Chain, k: nat, m: Member)
    requires ChainOk(c) && c.status == Pending && AsksAt(c, k)
    ensures var d := ActedAt(c, k, m, Return); d.status == SentBack && EndedAt(d.steps, k, Return, Returned)
  {
    PendingHasOnlyApprovals(c);
    EntryIsLast(c, k, m, Return, Returned);
  }

  lemma OverrideEnds(c: Chain, k: nat, m: Member)
    requires ChainOk(c) && c.status == Pending && AsksAt(c, k)
    ensures var d := ActedAt(c, k, m, Override); d.status == Overridden && EndedAt(d.steps, k, Override, Skipped)
  {
    PendingHasOnlyApprovals(c);
    EntryIsLast(c, k, m, Override, Skipped);
  }

  /** Recording the action, closing its step and skipping what is outstanding. */
  lemma EntryIsLast(c: Chain, k: nat, m: Member, action: Action, outcome: StepStatus)
    requires ChainOk(c) && AsksAt(c, k) && forall i :: 0 <= i < |c.steps| ==> OnlyApprovals(c.steps[i])
    requires outcome == Rejected || outcome == Returned || outcome == Skipped
    ensures var closed := Closed(c.steps[k].(actions := c.steps[k].actions + [Entry(m, action)]), outcome);
            EndedAt(SkipOutstanding(c.steps[k := closed]), k, action, outcome)
  {
    forall i | 0 <= i < |c.steps| ensures OnlyApprovals(c.steps[i]) && (c.steps[i].status == Waiting ==> c.steps[i].actions == []) {
      assert StepOk(c.steps[i]);
    }
  }

  lemma NextEndsRight(c: Chain, e: Event)
    requires ChainOk(c) && EndedRight(c)
    ensures EndedRight(Next(c, e))
  {
    NextKeeps(c, e);
    var d := Next(c, e);
    if d.status == Pending || d.status == Granted {
      PendingHasOnlyApprovals(d);
    } else if d != c {
      var k: nat :| AsksAt(c, k);
      AskedIsFound(c, k);
      match e {
        case Act(actor, action) =>
          match action {
            case Approve => ApprovingSettlesNothingElse(c, k, actor.value);
            case Reject => RejectionEnds(c, k, actor.value);
            case Return => ReturnEnds(c, k, actor.value);
            case Override => OverrideEnds(c, k, actor.value);
          }
        case Escalate(_, _) =>
        case Cancel => PendingHasOnlyApprovals(c);
      }
    }
  }

  lemma ApprovingSettlesNothingElse(c: Chain, k: nat, m: Member)
    requires k < |c.steps| && c.status == Pending
    ensures ActedAt(c, k, m, Approve).status in {Pending, Granted}
  {}

  lemma {:induction false} RunEndsRight(steps: seq<ResolvedStep>, es: seq<Event>)
    requires Resolved(steps)
    ensures EndedRight(Run(Open(steps), es))
  {
    if es == [] {
      OpenIsOk(steps);
      PendingHasOnlyApprovals(Open(steps));
    } else {
      RunEndsRight(steps, es[..|es| - 1]);
      RunIsOk(steps, es[..|es| - 1]);
      NextEndsRight(Run(Open(steps), es[..|es| - 1]), es[|es| - 1]);
    }
  }

  /** Somewhere on the chain this has been recorded. */
  predicate HasEntry(c: Chain, action: Action) {
    exists k :: 0 <= k < |c.steps| && !Lacks(c.steps[k], action)
  }

  predicate Lacks(s: Step, action: Action) {
    forall i :: 0 <= i < |s.actions| ==> s.actions[i].action != action
  }

  lemma OneEnding(c: Chain, k: nat, action: Action, outcome: StepStatus)
    requires EndedAt(c.steps, k, action, outcome) && action != Approve
    ensures HasEntry(c, action) && forall other :: other != Approve && other != action ==> !HasEntry(c, other)
  {
    assert !Lacks(c.steps[k], action);
    forall other | other != Approve && other != action ensures !HasEntry(c, other) {
      forall j | 0 <= j < |c.steps| ensures Lacks(c.steps[j], other) { assert j < k ==> OnlyApprovals(c.steps[j]); }
    }
  }

  /** How every run ends: refused exactly when somebody rejected, sent back exactly when somebody returned
      it, overridden exactly when somebody overrode it, at the one step where they did. */
  lemma ChainsEndAsTheyWereActedOn(steps: seq<ResolvedStep>, es: seq<Event>)
    requires Resolved(steps)
    ensures var c := Run(Open(steps), es);
            && (c.status == Refused <==> HasEntry(c, Reject))
            && (c.status == SentBack <==> HasEntry(c, Return))
            && (c.status == Overridden <==> HasEntry(c, Override))
    ensures EndedRight(Run(Open(steps), es))
  {
    RunEndsRight(steps, es);
    var c := Run(Open(steps), es);
    match c.status {
      case Refused => var k: nat :| EndedAt(c.steps, k, Reject, Rejected); OneEnding(c, k, Reject, Rejected);
      case SentBack => var k: nat :| EndedAt(c.steps, k, Return, Returned); OneEnding(c, k, Return, Returned);
      case Overridden => var k: nat :| EndedAt(c.steps, k, Override, Skipped); OneEnding(c, k, Override, Skipped);
      case _ =>
        forall action | action != Approve ensures !HasEntry(c, action) {
          forall k | 0 <= k < |c.steps| ensures Lacks(c.steps[k], action) { assert OnlyApprovals(c.steps[k]); }
        }
    }
  }

  /** `cancel` closes every outstanding step exactly when the step being asked has not escalated. */
  lemma CancelClosesUnlessEscalated(steps: seq<ResolvedStep>, es: seq<Event>, k: nat)
    requires Resolved(steps) && Run(Open(steps), es).status == Pending && AsksAt(Run(Open(steps), es), k)
    ensures var c := Run(Open(steps), es);
            (forall i :: 0 <= i < |c.steps| ==> !IsOpen(CancelledChain(c).steps[i])) <==> c.steps[k].status != Escalated
  {
    RunIsOk(steps, es);
    var (c, d) := (Run(Open(steps), es), CancelledChain(Run(Open(steps), es)));
    if c.steps[k].status == Escalated { assert IsOpen(d.steps[k]); }
  }

  // ---- One transaction ----------------------------------------------------------------------------

  /** What is fixed when a chain opens. */
  predicate SameTerms(s: Step, t: Step) {
    && s.sequence == t.sequence && s.stepType == t.stepType && s.quorum == t.quorum
    && s.dueAt == t.dueAt && s.escalation == t.escalation
  }

  /** Who is refused an action on a chain, and why: of a pending one, by the step it is asking. */
  lemma ActRefusesExactly(c: Chain, k: nat, m: Member, action: Action)
    requires Ordered(c.steps) && AsksAt(c, k)
    ensures ActProblem(c, None, action) == Some(NotAMember)
    ensures ActProblem(c, Some(m), action) == Some(AlreadyDecided) <==> c.status != Pending
    ensures ActProblem(c, Some(m), action) == Some(NotAnApprover)
       <==> c.status == Pending && action != Override && m !in c.steps[k].eligible
    ensures ActProblem(c, Some(m), action) == Some(AlreadyActed)
       <==> c.status == Pending && action != Override && m in c.steps[k].eligible && HasActed(c.steps[k], m)
    ensures ActProblem(c, Some(m), action) == None
       <==> c.status == Pending && (action == Override || (m in c.steps[k].eligible && !HasActed(c.steps[k], m)))
  {
    AskedIsFound(c, k);
  }

  /** An accepted action is recorded on the step that was asked, under its actor's name, and on no other;
      nobody's approver lists or terms change. */
  lemma AcceptedActionIsRecorded(c: Chain, k: nat, m: Member, action: Action)
    requires Ordered(c.steps) && AsksAt(c, k) && ActProblem(c, Some(m), action) == None
    ensures var d := Acted(c, Some(m), action);
            && |d.steps| == |c.steps| && d.steps[k].actions == c.steps[k].actions + [Entry(m, action)]
            && (forall i :: 0 <= i < |c.steps| && i != k ==> d.steps[i].actions == c.steps[i].actions)
            && (forall i :: 0 <= i < |c.steps| ==> SameTerms(c.steps[i], d.steps[i]) && d.steps[i].eligible == c.steps[i].eligible)
            && (d.status != Pending || d.current != c.current ==> d.version == c.version + 1)
            && (d.steps[k].status != c.steps[k].status ==> d.steps[k].version == c.steps[k].version + 1)
  {
    AskedIsFound(c, k);
    if action == Approve { AdvancingRecords(c, k, m); }
  }

  lemma AdvancingRecords(c: Chain, k: nat, m: Member)
    requires Ordered(c.steps) && AsksAt(c, k)
    ensures var d := Advanced(c.(steps := ActedSteps(c, k, m)), c.steps[k].sequence);
            && |d.steps| == |c.steps| && d.steps[k] == ActedSteps(c, k, m)[k] && d.version == c.version + 1
            && (forall i :: 0 <= i < |c.steps| && i != k ==> d.steps[i].actions == c.steps[i].actions)
            && (forall i :: 0 <= i < |c.steps| ==> SameTerms(c.steps[i], d.steps[i]) && d.steps[i].eligible == c.steps[i].eligible)
  {
    FollowingWaits(c, k, ActedSteps(c, k, m)[k]);
  }

  /** Somebody the escalation names is not on the step yet. */
  predicate BringsIn(s: Step, m: Member) {
    s.escalation.Some? && m in s.escalation.value && m !in s.eligible
  }

  /** A step escalates exactly when it is active on a pending chain, due, and somebody new would come in;
      then just those come in, and nothing else about the chain changes. */
  lemma EscalatesExactly(c: Chain, k: nat, now: int)
    requires k < |c.steps|
    ensures var d := EscalatedAt(c, k, now);
            && (d != c <==> c.status == Pending && c.steps[k].status == Active && c.steps[k].dueAt.Some?
                            && c.steps[k].dueAt.value <= now && exists m :: BringsIn(c.steps[k], m))
            && (d != c ==>
                  && d == c.(steps := c.steps[k := d.steps[k]]) && d.steps[k].status == Escalated
                  && SameTerms(c.steps[k], d.steps[k]) && d.steps[k].actions == c.steps[k].actions
                  && c.steps[k].eligible <= d.steps[k].eligible && d.steps[k].version == c.steps[k].version + 1
                  && forall m :: m in d.steps[k].eligible <==> m in c.steps[k].eligible || BringsIn(c.steps[k], m))
  {
    var s := c.steps[k];
    if s.escalation.Some? {
      AddedAreThoseMissing(s.eligible, s.escalation.value);
      var added := Added(s.eligible, s.escalation.value);
      if added != [] {
        assert added[0] in added;
        assert BringsIn(s, added[0]);
      }
      assert forall m :: m in s.eligible + added <==> m in s.eligible || BringsIn(s, m);
    }
  }

  lemma {:induction false} AddedAreThoseMissing(eligible: seq<Member>, escalation: seq<Member>)
    ensures forall m :: m in Added(eligible, escalation) <==> m in escalation && m !in eligible
  {
    if escalation != [] {
      AddedAreThoseMissing(eligible, escalation[1..]);
      assert forall m :: m in escalation <==> m == escalation[0] || m in escalation[1..];
    }
  }

  /** Cancelling skips what is active or waiting, keeps every entry, and leaves a decided chain alone. */
  lemma CancelSkipsExactly(c: Chain)
    ensures var d := CancelledChain(c);
            if c.status != Pending then d == c
            else d.status == Cancelled && d.current == c.current && |d.steps| == |c.steps| && d.version == c.version + 1
                 && forall i :: 0 <= i < |c.steps| ==>
                      d.steps[i] == if c.steps[i].status in {Active, Waiting} then c.steps[i].(status := Skipped) else c.steps[i]
  {}

  /** Over every run a step keeps its terms, and only an escalation adds approvers: those it names. */
  ghost predicate AsResolved(s: Step, r: ResolvedStep) {
    && s.sequence == r.sequence && s.stepType == r.stepType && s.quorum == r.quorum
    && s.dueAt == r.dueAt && s.escalation == r.escalation && r.eligible <= s.eligible
    && forall m :: m in s.eligible ==> m in r.eligible || (r.escalation.Some? && m in r.escalation.value)
  }

  ghost predicate AllAsResolved(c: Chain, resolved: seq<ResolvedStep>) {
    && |c.steps| == |resolved|
    && forall k {:trigger AsResolved(c.steps[k], resolved[k])} :: 0 <= k < |resolved| ==> AsResolved(c.steps[k], resolved[k])
  }

  lemma {:induction false} RunsKeepTheTerms(resolved: seq<ResolvedStep>, es: seq<Event>)
    requires Resolved(resolved)
    ensures AllAsResolved(Run(Open(resolved), es), resolved)
  {
    if es == [] {
      forall k | 0 <= k < |resolved| ensures AsResolved(Open(resolved).steps[k], resolved[k]) {}
    } else {
      RunsKeepTheTerms(resolved, es[..|es| - 1]);
      RunIsOk(resolved, es[..|es| - 1]);
      NextKeepsTheTerms(Run(Open(resolved), es[..|es| - 1]), es[|es| - 1], resolved);
    }
  }

  lemma NextKeepsTheTerms(c: Chain, e: Event, resolved: seq<ResolvedStep>)
    requires ChainOk(c) && AllAsResolved(c, resolved)
    ensures AllAsResolved(Next(c, e), resolved)
  {
    match e {
      case Act(actor, action) =>
        if ActProblem(c, actor, action) == None {
          var k: nat :| AsksAt(c, k);
          AcceptedActionIsRecorded(c, k, actor.value, action);
        }
      case Escalate(k, now) => if k < |c.steps| { EscalatesExactly(c, k, now); }
      case Cancel => CancelSkipsExactly(c);
    }
    var d := Next(c, e);
    forall k | 0 <= k < |resolved| ensures AsResolved(d.steps[k], resolved[k]) { assert AsResolved(c.steps[k], resolved[k]); }
  }

  // ---- The views ----------------------------------------------------------------------------------

  function FirstOpen(steps: seq<Step>): (r: Option<nat>)
    ensures r.Some? ==> r.value < |steps| && IsOpen(steps[r.value]) && forall i :: 0 <= i < r.value ==> !IsOpen(steps[i])
    ensures r.None? ==> forall i :: 0 <= i < |steps| ==> !IsOpen(steps[i])
  {
    if steps == [] then None
    else if IsOpen(steps[0]) then Some(0)
    else
      match FirstOpen(steps[1..])
      case None => None
      case Some(i) => Some(i + 1)
  }

  /** `canAct`, as the instance view computes it: from the first open step, not from the sequence. */
  predicate CanAct(c: Chain, m: Member) {
    var open := FirstOpen(c.steps);
    c.status == Pending && open.Some? && m in c.steps[open.value].eligible && !HasActed(c.steps[open.value], m)
  }

  /** The member's queue shows this step. */
  predicate InQueue(c: Chain, m: Member, k: nat) {
    && k < |c.steps| && c.steps[k].status == Active && m in c.steps[k].eligible
    && c.status == Pending && !HasActed(c.steps[k], m)
  }

  /** The view promises exactly what `act` will accept: an approval, a rejection or a return. */
  lemma CanActIsWhatActAccepts(steps: seq<ResolvedStep>, es: seq<Event>, m: Member, action: Action)
    requires Resolved(steps) && action != Override
    ensures CanAct(Run(Open(steps), es), m) <==> ActProblem(Run(Open(steps), es), Some(m), action) == None
  {
    RunIsOk(steps, es);
    var c := Run(Open(steps), es);
    if c.status == Pending {
      var k: nat :| AsksAt(c, k);
      AskedIsFound(c, k);
      assert FirstOpen(c.steps) == Some(k);
    }
  }

  /** Every queue row is actionable; an actionable step is missing from the queue exactly while it is
      escalated. */
  lemma QueueIsActionable(steps: seq<ResolvedStep>, es: seq<Event>, m: Member)
    requires Resolved(steps)
    ensures var c := Run(Open(steps), es);
            && (forall k: nat :: InQueue(c, m, k) ==> CanAct(c, m) && c.steps[k].sequence == c.current)
            && (CanAct(c, m) ==> ((exists k: nat :: InQueue(c, m, k)) <==> c.steps[FirstOpen(c.steps).value].status != Escalated))
  {
    RunIsOk(steps, es);
    var c := Run(Open(steps), es);
    if c.status == Pending {
      var k: nat :| AsksAt(c, k);
      assert FirstOpen(c.steps) == Some(k);
      if CanAct(c, m) && c.steps[k].status == Active { assert InQueue(c, m, k); }
    }
  }

  /** An instance of both gaps: an overdue step escalates to member 6. It is missing from 6's queue though
      6 can act on it, and cancelling the chain leaves it open. */
  lemma EscalatedStepOutlivesCancel()
    ensures var c := EscalatedAt(Open([ResolvedStep(1, Single, 1, [5], Some(0), Some([6]))]), 0, 1);
            && CanAct(c, 6) && (forall k: nat :: !InQueue(c, 6, k))
            && CancelledChain(c).status == Cancelled && CancelledChain(c).steps[0].status == Escalated
  {
    var c := EscalatedAt(Open([ResolvedStep(1, Single, 1, [5], Some(0), Some([6]))]), 0, 1);
    assert Added([5], [6]) == [6];
    assert c.steps[0].eligible == [5, 6] && FirstOpen(c.steps) == Some(0);
  }

  // ---- Thresholds ---------------------------------------------------------------------------------

  function Actors(actions: seq<Entry>): set<Member> {
    set i | 0 <= i < |actions| :: actions[i].actor
  }

  lemma {:induction false} DistinctCount<T>(s: seq<T>, members: set<T>)
    requires Distinct(s) && forall x :: x in members <==> x in s
    ensures |members| == |s|
  {
    if s == [] {
      assert members == {};
    } else {
      var rest := members - {s[0]};
      assert forall x :: x in s <==> x == s[0] || x in s[1..];
      DistinctCount(s[1..], rest);
      assert members == rest + {s[0]};
    }
  }

  lemma ActorsOfClean(s: Step)
    requires Clean(s)
    ensures |Actors(s.actions)| == |s.actions|
    ensures forall m :: m in Actors(s.actions) ==> m in s.eligible
  {
    var who := seq(|s.actions|, i requires 0 <= i < |s.actions| => s.actions[i].actor);
    assert forall i, j :: 0 <= i < j < |who| ==> who[i] != who[j];
    forall m ensures m in Actors(s.actions) <==> m in who {
      if m in Actors(s.actions) {
        var i :| 0 <= i < |s.actions| && s.actions[i].actor == m;
        assert who[i] == m;
      }
    }
    DistinctCount(who, Actors(s.actions));
  }

  lemma FullSubset(a: set<Member>, b: set<Member>)
    requires a <= b && |a| >= |b|
    ensures a == b
  {
    assert b == a + (b - a);
    assert |b| == |a| + |b - a|;
  }

  /** No step is approved short of its requirement: its approvals are by that many different eligible
      people, and for PARALLEL_ALL by every one of them, those an escalation added included. */
  lemma ApprovedStepsMetTheirRequirement(steps: seq<ResolvedStep>, es: seq<Event>, k: nat)
    requires Resolved(steps) && k < |Run(Open(steps), es).steps| && Run(Open(steps), es).steps[k].status == Approved
    ensures var s := Run(Open(steps), es).steps[k];
            && |Actors(s.actions)| >= Required(s)
            && (forall m :: m in Actors(s.actions) ==> m in s.eligible)
            && (s.stepType == ParallelAll ==> forall m :: m in s.eligible ==> m in Actors(s.actions))
  {
    RunIsOk(steps, es);
    var s := Run(Open(steps), es).steps[k];
    assert StepOk(s);
    ActorsOfClean(s);
    if s.stepType == ParallelAll {
      var everyone := set m | m in s.eligible;
      DistinctCount(s.eligible, everyone);
      FullSubset(Actors(s.actions), everyone);
    }
  }

  /** A granted chain means every step was. */
  lemma GrantedMeansEveryStep(steps: seq<ResolvedStep>, es: seq<Event>)
    requires Resolved(steps) && Run(Open(steps), es).status == Granted
    ensures forall k :: 0 <= k < |Run(Open(steps), es).steps| ==> Run(Open(steps), es).steps[k].status == Approved
  {
    RunIsOk(steps, es);
  }

  /** A pending chain is never stuck: somebody eligible has not acted, and their approval is accepted. */
  lemma PendingHasSomebodyToAct(steps: seq<ResolvedStep>, es: seq<Event>) returns (m: Member)
    requires Resolved(steps) && Run(Open(steps), es).status == Pending
    ensures ActProblem(Run(Open(steps), es), Some(m), Approve) == None
  {
    RunIsOk(steps, es);
    m := SomebodyCanAct(Run(Open(steps), es));
  }

  lemma SomebodyCanAct(c: Chain) returns (m: Member)
    requires ChainOk(c) && c.status == Pending
    ensures ActProblem(c, Some(m), Approve) == None
  {
    var k: nat :| AsksAt(c, k);
    AskedIsFound(c, k);
    var s := c.steps[k];
    assert StepOk(s);
    ActorsOfClean(s);
    var everyone := set x | x in s.eligible;
    DistinctCount(s.eligible, everyone);
    assert Required(s) <= |s.eligible|;
    if everyone <= Actors(s.actions) {
      FullSubset(everyone, Actors(s.actions));
      assert false;
    }
    m :| m in everyone && m !in Actors(s.actions);
    assert !HasActed(s, m);
  }

  // ---- Termination --------------------------------------------------------------------------------

  /** What a step can still absorb: its unused approvers, and the escalation it has not had. */
  function Fuel(s: Step): int {
    match s.status
    case Escalated => |s.eligible| - |s.actions|
    case Active => |s.eligible| - |s.actions| + 1 + (if s.escalation.Some? then |s.escalation.value| else 0)
    case Waiting => |s.eligible| - |s.actions| + 1 + (if s.escalation.Some? then |s.escalation.value| else 0)
    case _ => 0
  }

  function TotalFuel(steps: seq<Step>): int {
    if steps == [] then 0 else Fuel(steps[0]) + TotalFuel(steps[1..])
  }

  function Measure(c: Chain): int {
    if c.status == Pending then TotalFuel(c.steps) else 0
  }

  lemma {:induction false} FuelUpdate(steps: seq<Step>, k: nat, s: Step)
    requires k < |steps|
    ensures TotalFuel(steps[k := s]) == TotalFuel(steps) - Fuel(steps[k]) + Fuel(s)
  {
    if k == 0 {
      assert steps[k := s][1..] == steps[1..];
    } else {
      FuelUpdate(steps[1..], k - 1, s);
      assert steps[k := s][1..] == steps[1..][k - 1 := s];
    }
  }

  lemma {:induction false} FuelNonNegative(steps: seq<Step>)
    requires forall i :: 0 <= i < |steps| ==> StepOk(steps[i])
    ensures TotalFuel(steps) >= 0
    ensures (exists i :: 0 <= i < |steps| && IsOpen(steps[i])) ==> TotalFuel(steps) > 0
  {
    if steps != [] {
      assert StepOk(steps[0]);
      FuelNonNegative(steps[1..]);
      if i :| 0 <= i < |steps| && IsOpen(steps[i]) {
        if i > 0 { assert IsOpen(steps[1..][i - 1]); }
      }
    }
  }

  lemma MeasureNonNegative(c: Chain)
    requires ChainOk(c)
    ensures Measure(c) >= 0 && (c.status == Pending ==> Measure(c) > 0)
  {
    FuelNonNegative(c.steps);
  }

  /** Every transaction that changes the chain uses something up. */
  lemma NextUsesFuel(c: Chain, e: Event)
    requires ChainOk(c) && Next(c, e) != c
    ensures Measure(Next(c, e)) < Measure(c)
  {
    MeasureNonNegative(c);
    assert c.status == Pending;
    var k: nat :| AsksAt(c, k);
    AskedIsFound(c, k);
    assert StepOk(c.steps[k]);
    match e {
      case Act(actor, action) => if action == Approve { ApprovalUsesFuel(c, k, actor.value); }
      case Escalate(j, now) =>
        assert j == k;
        var s := c.steps[k];
        AddedAreNew(s.eligible, s.escalation.value);
        FuelUpdate(c.steps, k, EscalatedAt(c, j, now).steps[k]);
      case Cancel =>
    }
  }

  lemma ApprovalUsesFuel(c: Chain, k: nat, actor: Member)
    requires ChainOk(c) && c.status == Pending && AsksAt(c, k) && Measure(c) > 0
    ensures Measure(ActedAt(c, k, actor, Approve)) < Measure(c)
  {
    var s := c.steps[k];
    assert StepOk(s);
    var d := ActedAt(c, k, actor, Approve);
    if !StepIsSatisfied(s.stepType, s.quorum, |s.eligible|, Approvals(s.actions) + 1) {
      FuelUpdate(c.steps, k, d.steps[k]);
    } else {
      var steps := ActedSteps(c, k, actor);
      FuelUpdate(c.steps, k, steps[k]);
      var n := NextWaiting(steps, s.sequence);
      if n.Some? { FuelUpdate(steps, n.value, d.steps[n.value]); }
    }
  }

  /** How many of a run's transactions changed the chain. */
  function Changes(c: Chain, es: seq<Event>): nat {
    if es == [] then 0
    else
      var before := Run(c, es[..|es| - 1]);
      Changes(c, es[..|es| - 1]) + if Next(before, es[|es| - 1]) != before then 1 else 0
  }

  /** No run changes a chain more often than its approvers, escalation targets and steps allow. */
  lemma {:induction false} RunsAreBounded(steps: seq<ResolvedStep>, es: seq<Event>)
    requires Resolved(steps)
    ensures Changes(Open(steps), es) + Measure(Run(Open(steps), es)) <= Measure(Open(steps))
    ensures Changes(Open(steps), es) <= Measure(Open(steps))
  {
    if es != [] {
      var before := es[..|es| - 1];
      RunsAreBounded(steps, before);
      RunIsOk(steps, before);
      var c := Run(Open(steps), before);
      if Next(c, es[|es| - 1]) != c { NextUsesFuel(c, es[|es| - 1]); }
    }
    RunIsOk(steps, es);
    MeasureNonNegative(Run(Open(steps), es));
  }

  // ---- The requester ------------------------------------------------------------------------------

  /** This member is neither asked nor lined up to be asked. */
  ghost predicate NeverAsked(s: Step, m: Member) {
    m !in s.eligible && (s.escalation.Some? ==> m !in s.escalation.value)
  }

  /** The resolver put this member on no step and on no escalation. */
  ghost predicate Unlisted(resolved: seq<ResolvedStep>, m: Member) {
    forall i :: 0 <= i < |resolved| ==>
      m !in resolved[i].eligible && (resolved[i].escalation.Some? ==> m !in resolved[i].escalation.value)
  }

  ghost predicate SameLists(c: Chain, d: Chain) {
    |c.steps| == |d.steps|
    && forall k :: 0 <= k < |c.steps| ==> d.steps[k].eligible == c.steps[k].eligible && d.steps[k].escalation == c.steps[k].escalation
  }

  lemma AdvancingChangesNoList(c: Chain, sequence: int)
    ensures SameLists(c, Advanced(c, sequence))
  {}

  lemma ActingChangesNoList(c: Chain, actor: Option<Member>, action: Action)
    ensures SameLists(c, Acted(c, actor, action))
  {
    if ActProblem(c, actor, action) == None {
      ActingAtChangesNoList(c, IndexOfSequence(c.steps, c.current).value, actor.value, action);
    }
  }

  lemma ActingAtChangesNoList(c: Chain, k: nat, actor: Member, action: Action)
    requires k < |c.steps|
    ensures SameLists(c, ActedAt(c, k, actor, action))
  {
    if action == Approve { AdvancingChangesNoList(c.(steps := ActedSteps(c, k, actor)), c.steps[k].sequence); }
  }

  lemma CancellingChangesNoList(c: Chain)
    ensures SameLists(c, CancelledChain(c))
  {}

  ghost predicate NobodyAsks(c: Chain, m: Member) {
    forall k {:trigger NeverAsked(c.steps[k], m)} :: 0 <= k < |c.steps| ==> NeverAsked(c.steps[k], m)
  }

  lemma SameListsAskTheSame(c: Chain, d: Chain, m: Member)
    requires SameLists(c, d) && NobodyAsks(c, m)
    ensures NobodyAsks(d, m)
  {
    forall k | 0 <= k < |d.steps| ensures NeverAsked(d.steps[k], m) { assert NeverAsked(c.steps[k], m); }
  }

  lemma EscalatingAsksNobodyNew(c: Chain, k: nat, now: int, m: Member)
    requires ChainOk(c) && NobodyAsks(c, m)
    ensures NobodyAsks(EscalatedAt(c, k, now), m)
  {
    if CanEscalate(c, k, now) {
      assert StepOk(c.steps[k]) && NeverAsked(c.steps[k], m);
      AddedAreNew(c.steps[k].eligible, c.steps[k].escalation.value);
    }
  }

  lemma {:induction false} StaysUnasked(steps: seq<ResolvedStep>, es: seq<Event>, m: Member)
    requires Resolved(steps) && Unlisted(steps, m)
    ensures NobodyAsks(Run(Open(steps), es), m)
  {
    if es != [] {
      var before := es[..|es| - 1];
      StaysUnasked(steps, before, m);
      RunIsOk(steps, before);
      var c := Run(Open(steps), before);
      match es[|es| - 1]
      case Act(actor, action) =>
        ActingChangesNoList(c, actor, action);
        SameListsAskTheSame(c, Acted(c, actor, action), m);
      case Escalate(k, now) => EscalatingAsksNobodyNew(c, k, now, m);
      case Cancel =>
        CancellingChangesNoList(c);
        SameListsAskTheSame(c, CancelledChain(c), m);
    }
  }

  /** Somebody the resolver kept off every step and every escalation never records an approval, a
      rejection or a return on that chain. */
  lemma UnlistedNeverDecides(steps: seq<ResolvedStep>, es: seq<Event>, m: Member, k: nat)
    requires Resolved(steps) && Unlisted(steps, m) && k < |Run(Open(steps), es).steps|
    ensures var s := Run(Open(steps), es).steps[k];
            && NeverAsked(s, m)
            && forall i :: 0 <= i < |s.actions| && s.actions[i].actor == m ==> s.actions[i].action == Override
  {
    StaysUnasked(steps, es, m);
    RunIsOk(steps, es);
    assert StepOk(Run(Open(steps), es).steps[k]);
  }
}
