/** From what a policy names to who may approve, settled when a chain opens. */
module Resolver {
  import opened Wrappers
  import opened ApprovalChain
  import opened ApprovalSafety
  import Delegations

  type Department = nat

  datatype Scope = Organization | OwnDepartment | Entity

  datatype ApproverSpec =
    | Membership(id: Member)
    | Role(key: string, scope: Scope)
    | DepartmentHead(levelsUp: int)
    | ManagerChain(position: int)
    | EntityFinanceOwner
    | Workflow

  datatype StepSpec = StepSpec(sequence: int, stepType: StepType, approvers: seq<ApproverSpec>,
                               timeoutHours: Option<int>, escalateTo: Option<ApproverSpec>)

  datatype Node = Node(parent: Option<Department>, head: Option<Member>)

  /** The organisation, read once: live departments, active memberships, live delegations. */
  datatype Graph = Graph(byRole: map<string, seq<Member>>, membershipDepartment: map<Member, Option<Department>>,
                         membershipRole: map<Member, string>, actingRoles: set<string>,
                         departments: map<Department, Node>, delegatedTo: map<Member, Member>)

  datatype Context = Context(requester: Member, department: Option<Department>, managerChain: seq<Member>)

  datatype Failure = NoEligibleApprover(sequence: int) | WorkflowUnavailable

  const HEAD_SEARCH: nat := 10

  const MS_PER_HOUR: int := 3_600_000

  function Hop(g: Graph, m: Member): Member {
    Delegations.Hop(g.delegatedTo, m)
  }

  predicate CanApprove(g: Graph, m: Member) {
    m in g.membershipRole && g.membershipRole[m] in g.actingRoles
  }

  function Holders(g: Graph, role: string): seq<Member> {
    if role in g.byRole then g.byRole[role] else []
  }

  function Filter(ms: seq<Member>, g: Graph, d: Option<Department>): seq<Member> {
    if ms == [] then []
    else (if ms[0] in g.membershipDepartment && g.membershipDepartment[ms[0]] == d then [ms[0]] else []) + Filter(ms[1..], g, d)
  }

  /** `levels` steps up the tree. */
  function Climb(g: Graph, from: Option<Department>, levels: int): Option<Department>
    decreases levels
  {
    if levels <= 0 || from.None? then from
    else Climb(g, if from.value in g.departments then g.departments[from.value].parent else None, levels - 1)
  }

  /** The head of the nearest department from here up that has one. */
  function NearestHead(g: Graph, from: Option<Department>, fuel: nat): seq<Member>
    decreases fuel
  {
    if fuel == 0 || from.None? || from.value !in g.departments then []
    else if g.departments[from.value].head.Some? then [g.departments[from.value].head.value]
    else NearestHead(g, g.departments[from.value].parent, fuel - 1)
  }

  function HeadOf(g: Graph, from: Option<Department>): Option<Member> {
    if from.Some? && from.value in g.departments then g.departments[from.value].head else None
  }

  /** `k` departments up there is a head, and nowhere nearer. */
  ghost predicate HeadedFirstAt(g: Graph, from: Option<Department>, k: nat) {
    HeadOf(g, Climb(g, from, k)).Some? && forall j :: 0 <= j < k ==> HeadOf(g, Climb(g, from, j)).None?
  }

  /** The walk returns the nearest head when one is within its reach ... */
  lemma {:induction false} NearestHeadIsNearest(g: Graph, from: Option<Department>, fuel: nat, k: nat)
    requires k < fuel && HeadedFirstAt(g, from, k)
    ensures NearestHead(g, from, fuel) == [HeadOf(g, Climb(g, from, k)).value]
    decreases k
  {
    if k > 0 {
      assert HeadOf(g, Climb(g, from, 0)).None?;
      if from.None? || from.value !in g.departments {
        ClimbStopsOutside(g, from, k);
      } else {
        var up := g.departments[from.value].parent;
        assert HeadedFirstAt(g, up, k - 1) by {
          forall j | 0 <= j < k - 1 ensures HeadOf(g, Climb(g, up, j)).None? {
            assert Climb(g, from, j + 1) == Climb(g, up, j);
          }
        }
        NearestHeadIsNearest(g, up, fuel - 1, k - 1);
      }
    }
  }

  /** ... and nobody otherwise. */
  lemma {:induction false} NoHeadWithinReach(g: Graph, from: Option<Department>, fuel: nat)
    requires forall k :: 0 <= k < fuel ==> HeadOf(g, Climb(g, from, k)).None?
    ensures NearestHead(g, from, fuel) == []
    decreases fuel
  {
    if fuel > 0 && from.Some? && from.value in g.departments {
      assert HeadOf(g, Climb(g, from, 0)).None?;
      var up := g.departments[from.value].parent;
      forall k | 0 <= k < fuel - 1 ensures HeadOf(g, Climb(g, up, k)).None? {
        assert Climb(g, from, k + 1) == Climb(g, up, k);
      }
      NoHeadWithinReach(g, up, fuel - 1);
    }
  }

  lemma {:induction false} ClimbStopsOutside(g: Graph, from: Option<Department>, k: nat)
    requires from.None? || from.value !in g.departments
    ensures HeadOf(g, Climb(g, from, k)).None?
  {
    if k > 0 && from.Some? { assert Climb(g, from, k) == Climb(g, None, k - 1) == None; }
  }

  function ResolveSpec(spec: ApproverSpec, ctx: Context, g: Graph): Result<seq<Member>, Failure> {
    match spec
    case Membership(id) => Ok([id])
    case Role(key, scope) => Ok(if scope == OwnDepartment then Filter(Holders(g, key), g, ctx.department) else Holders(g, key))
    case DepartmentHead(levelsUp) => Ok(NearestHead(g, Climb(g, ctx.department, levelsUp), HEAD_SEARCH))
    case ManagerChain(position) =>
      Ok(if 0 <= position - 1 < |ctx.managerChain| then [ctx.managerChain[position - 1]] else [])
    case EntityFinanceOwner => Ok(Holders(g, "FINANCE_ADMIN"))
    case Workflow => Err(WorkflowUnavailable)
  }

  /** The department so many parents up; nothing above the top or outside the tree. */
  function Above(g: Graph, from: Option<Department>, n: nat): Option<Department> {
    if n == 0 then from
    else
      var below := Above(g, from, n - 1);
      if below.Some? && below.value in g.departments then g.departments[below.value].parent else None
  }

  predicate Heads(g: Graph, d: Option<Department>, m: Member) {
    d.Some? && d.value in g.departments && g.departments[d.value].head == Some(m)
  }

  ghost predicate Headless(g: Graph, d: Option<Department>) {
    forall m :: !Heads(g, d, m)
  }

  /** The member heads the department `n` up from this one, and nobody heads a nearer one of those. */
  ghost predicate NearestHeadAt(g: Graph, from: Option<Department>, n: nat, m: Member) {
    Heads(g, Above(g, from, n), m) && forall j :: 0 <= j < n ==> Headless(g, Above(g, from, j))
  }

  ghost predicate NearestHeadWithin(g: Graph, from: Option<Department>, reach: nat, m: Member) {
    exists n: nat :: n < reach && NearestHeadAt(g, from, n, m)
  }

  predicate Holds(g: Graph, role: string, m: Member) {
    role in g.byRole && m in g.byRole[role]
  }

  predicate InDepartment(g: Graph, m: Member, d: Option<Department>) {
    m in g.membershipDepartment && g.membershipDepartment[m] == d
  }

  /** Whom a specification means. A role is held anywhere in the organisation unless it is asked for in the
      requester's own department; the search for a head goes ten departments up from where it starts. */
  ghost predicate SpecNames(spec: ApproverSpec, ctx: Context, g: Graph, m: Member) {
    match spec
    case Membership(id) => m == id
    case Role(key, scope) => Holds(g, key, m) && (scope == OwnDepartment ==> InDepartment(g, m, ctx.department))
    case DepartmentHead(levelsUp) =>
      NearestHeadWithin(g, Above(g, ctx.department, if levelsUp > 0 then levelsUp else 0), 10, m)
    case ManagerChain(position) => 1 <= position <= |ctx.managerChain| && ctx.managerChain[position - 1] == m
    case EntityFinanceOwner => Holds(g, "FINANCE_ADMIN", m)
    case Workflow => false
  }

  /** The step's specifications name this member. */
  ghost predicate Names(specs: seq<ApproverSpec>, ctx: Context, g: Graph, m: Member) {
    exists i :: 0 <= i < |specs| && SpecNames(specs[i], ctx, g, m)
  }

  lemma {:induction false} FilterKeeps(ms: seq<Member>, g: Graph, d: Option<Department>)
    ensures forall m :: m in Filter(ms, g, d) <==> m in ms && InDepartment(g, m, d)
  {
    if ms != [] {
      FilterKeeps(ms[1..], g, d);
      assert forall m :: m in ms <==> m == ms[0] || m in ms[1..];
    }
  }

  lemma {:induction false} AboveFrom(g: Graph, from: Option<Department>, n: nat)
    requires n > 0
    ensures Above(g, from, n) == Above(g, Above(g, from, 1), n - 1)
  {
    if n > 1 { AboveFrom(g, from, n - 1); }
  }

  lemma {:induction false} NothingAbove(g: Graph, n: nat)
    ensures Above(g, None, n) == None
  {
    if n > 0 { NothingAbove(g, n - 1); }
  }

  /** The climb is that many parents up, none for a level that is not positive. */
  lemma {:induction false} ClimbIsAbove(g: Graph, from: Option<Department>, levels: int)
    ensures Climb(g, from, levels) == Above(g, from, if levels > 0 then levels else 0)
    decreases levels
  {
    if levels > 0 {
      if from.None? {
        NothingAbove(g, levels);
      } else {
        AboveFrom(g, from, levels);
        ClimbIsAbove(g, Above(g, from, 1), levels - 1);
      }
    }
  }

  lemma HeadIsThere(g: Graph, from: Option<Department>, n: nat)
    ensures Climb(g, from, n) == Above(g, from, n)
    ensures Headless(g, Above(g, from, n)) <==> HeadOf(g, Climb(g, from, n)).None?
    ensures forall m: Member :: Heads(g, Above(g, from, n), m) <==> HeadOf(g, Climb(g, from, n)) == Some(m)
  {
    ClimbIsAbove(g, from, n);
    var head := HeadOf(g, Climb(g, from, n));
    if head.Some? { assert Heads(g, Above(g, from, n), head.value); }
  }

  lemma FirstHeaded(g: Graph, from: Option<Department>, fuel: nat) returns (k: nat)
    requires exists j :: 0 <= j < fuel && HeadOf(g, Climb(g, from, j)).Some?
    ensures k < fuel && HeadedFirstAt(g, from, k)
  {
    k := 0;
    while HeadOf(g, Climb(g, from, k)).None?
      invariant k < fuel && forall j :: 0 <= j < k ==> HeadOf(g, Climb(g, from, j)).None?
      decreases fuel - k
    {
      k := k + 1;
    }
  }

  /** The search finds whoever heads the nearest headed department within its reach. */
  lemma HeadIsNamed(g: Graph, from: Option<Department>, fuel: nat)
    ensures forall m: Member :: m in NearestHead(g, from, fuel) <==> NearestHeadWithin(g, from, fuel, m)
  {
    forall n: nat { HeadIsThere(g, from, n); }
    if exists j :: 0 <= j < fuel && HeadOf(g, Climb(g, from, j)).Some? {
      var k := FirstHeaded(g, from, fuel);
      NearestHeadIsNearest(g, from, fuel, k);
      var head := HeadOf(g, Climb(g, from, k)).value;
      assert NearestHeadAt(g, from, k, head);
      forall n: nat, m | n < fuel && NearestHeadAt(g, from, n, m) ensures m == head { OneNearest(g, from, n, m, k, head); }
    } else {
      NoHeadWithinReach(g, from, fuel);
      forall n: nat, m | n < fuel ensures !NearestHeadAt(g, from, n, m) {}
    }
  }

  lemma OneNearest(g: Graph, from: Option<Department>, n: nat, m: Member, k: nat, head: Member)
    requires NearestHeadAt(g, from, n, m) && NearestHeadAt(g, from, k, head)
    ensures m == head
  {}

  /** Resolving a specification gives just whom it means; a named workflow is refused. */
  lemma SpecResolvesToItsNames(spec: ApproverSpec, ctx: Context, g: Graph)
    ensures ResolveSpec(spec, ctx, g).Err? <==> spec == Workflow
    ensures ResolveSpec(spec, ctx, g).Ok? ==> forall m: Member :: m in ResolveSpec(spec, ctx, g).value <==> SpecNames(spec, ctx, g, m)
  {
    match spec
    case Role(key, scope) => FilterKeeps(Holders(g, key), g, ctx.department);
    case DepartmentHead(levelsUp) =>
      ClimbIsAbove(g, ctx.department, levelsUp);
      HeadIsNamed(g, Climb(g, ctx.department, levelsUp), HEAD_SEARCH);
    case _ =>
  }

  /** `m` acts for `n`: the member `n` has delegated to, or `n` if there is none. */
  ghost predicate StandsFor(g: Graph, n: Member, m: Member) {
    if n in g.delegatedTo then g.delegatedTo[n] == m else n == m
  }

  /** An active membership whose role may act on approvals. */
  ghost predicate MayAct(g: Graph, m: Member) {
    exists role :: role in g.actingRoles && m in g.membershipRole && g.membershipRole[m] == role
  }

  lemma HopStandsFor(g: Graph)
    ensures forall n: Member, m: Member :: StandsFor(g, n, m) <==> Hop(g, n) == m
    ensures forall m: Member :: MayAct(g, m) <==> CanApprove(g, m)
  {}

  /** Eligible: able to act, not the requester, and named, or lent the authority of somebody named
      other than the requester. */
  ghost predicate MayApprove(specs: seq<ApproverSpec>, ctx: Context, g: Graph, m: Member) {
    m != ctx.requester && MayAct(g, m)
    && exists n :: n != ctx.requester && Names(specs, ctx, g, n) && StandsFor(g, n, m)
  }

  /** Brought in by escalation: able to act, new to the step, not the requester, and named or lent
      the authority of anybody named, the requester included. */
  ghost predicate MayBeEscalatedTo(spec: ApproverSpec, ctx: Context, g: Graph, eligible: seq<Member>, m: Member) {
    m != ctx.requester && MayAct(g, m) && m !in eligible
    && exists n :: SpecNames(spec, ctx, g, n) && StandsFor(g, n, m)
  }

  predicate IsLeast(m: nat, s: set<nat>) {
    m in s && forall x :: x in s ==> m <= x
  }

  lemma {:induction false} LeastExists(s: set<nat>)
    requires s != {}
    ensures exists m :: m in s && IsLeast(m, s)
  {
    var m :| m in s;
    var rest := s - {m};
    assert forall x :: x in s <==> x == m || x in rest;
    if rest == {} {
      assert IsLeast(m, s);
    } else {
      LeastExists(rest);
      var n :| n in rest && IsLeast(n, rest);
      assert IsLeast(if n < m then n else m, s);
    }
  }

  predicate Ascending(r: seq<nat>) {
    forall i, j :: 0 <= i < j < |r| ==> r[i] < r[j]
  }

  /** `[...set].sort()`. */
  function Sorted(s: set<nat>): (r: seq<nat>)
    ensures |r| == |s| && Ascending(r)
    ensures forall x :: x in r <==> x in s
  {
    if s == {} then []
    else
      LeastExists(s);
      var m: nat :| m in s && IsLeast(m, s);
      var rest := Sorted(s - {m});
      Prepended(s, m, rest);
      [m] + rest
  }

  lemma Prepended(s: set<nat>, m: nat, rest: seq<nat>)
    requires m in s && IsLeast(m, s) && Ascending(rest) && forall x :: x in rest <==> x in s - {m}
    ensures Ascending([m] + rest) && forall x :: x in [m] + rest <==> x in s
  {
    forall i | 0 <= i < |rest| ensures m < rest[i] { assert rest[i] in rest; }
  }

  lemma AscendingIsDistinct(r: seq<nat>)
    requires Ascending(r)
    ensures Distinct(r)
  {}

  // ---- Resolution ---------------------------------------------------------------------------------

  /** Everybody the specifications name; a named workflow is refused wherever it stands. */
  function Candidates(specs: seq<ApproverSpec>, ctx: Context, g: Graph): Result<set<Member>, Failure> {
    if specs == [] then Ok({})
    else
      var before := Candidates(specs[..|specs| - 1], ctx, g);
      var last := ResolveSpec(specs[|specs| - 1], ctx, g);
      if before.Err? then before
      else if last.Err? then Err(last.error)
      else Ok(before.value + set m | m in last.value)
  }

  /** Exclude the requester, follow delegation once, exclude the requester again, keep who can act. */
  function EligibleSet(candidates: set<Member>, ctx: Context, g: Graph): set<Member> {
    var delegated := set m | m in candidates - {ctx.requester} :: Hop(g, m);
    set m | m in delegated - {ctx.requester} && CanApprove(g, m)
  }

  function EscalationSet(named: seq<Member>, ctx: Context, g: Graph, eligible: set<Member>): set<Member> {
    var targets := set m | m in named :: Hop(g, m);
    set m | m in targets - {ctx.requester} - eligible && CanApprove(g, m)
  }

  function ResolvedEscalation(step: StepSpec, ctx: Context, g: Graph, eligible: set<Member>): Result<Option<seq<Member>>, Failure> {
    if step.escalateTo.None? then Ok(None)
    else
      var named := ResolveSpec(step.escalateTo.value, ctx, g);
      if named.Err? then Err(named.error)
      else
        var targets := EscalationSet(named.value, ctx, g, eligible);
        Ok(if targets == {} then None else Some(Sorted(targets)))
  }

  function StepResolved(step: StepSpec, ctx: Context, g: Graph, now: int): Result<ResolvedStep, Failure> {
    var candidates := Candidates(step.approvers, ctx, g);
    if candidates.Err? then Err(candidates.error)
    else
      var eligible := EligibleSet(candidates.value, ctx, g);
      if eligible == {} then Err(NoEligibleApprover(step.sequence))
      else
        var escalation := ResolvedEscalation(step, ctx, g, eligible);
        if escalation.Err? then Err(escalation.error)
        else Ok(ResolvedStep(step.sequence, step.stepType,
                             if step.stepType == Quorum && |eligible| >= 2 then 2 else 1,
                             Sorted(eligible),
                             if step.timeoutHours.None? then None else Some(now + step.timeoutHours.value * MS_PER_HOUR),
                             escalation.value))
  }

  function AllResolved(steps: seq<StepSpec>, ctx: Context, g: Graph, now: int): Result<seq<ResolvedStep>, Failure> {
    if steps == [] then Ok([])
    else
      var before := AllResolved(steps[..|steps| - 1], ctx, g, now);
      var last := StepResolved(steps[|steps| - 1], ctx, g, now);
      if before.Err? then before
      else if last.Err? then Err(last.error)
      else Ok(before.value + [last.value])
  }

  /** The service's walk up the tree, one department at a time. */
  method FindDepartmentHead(ctx: Context, g: Graph, levelsUp: int) returns (named: seq<Member>)
    ensures Ok(named) == ResolveSpec(DepartmentHead(levelsUp), ctx, g)
  {
    var current := ctx.department;
    var step := 0;
    while step < levelsUp && current.Some?
      invariant 0 <= step && (levelsUp >= 0 ==> step <= levelsUp)
      invariant Climb(g, ctx.department, levelsUp) == Climb(g, current, levelsUp - step)
    {
      current := if current.value in g.departments then g.departments[current.value].parent else None;
      step := step + 1;
    }
    step := 0;
    while step < HEAD_SEARCH && current.Some?
      invariant 0 <= step <= HEAD_SEARCH
      invariant NearestHead(g, Climb(g, ctx.department, levelsUp), HEAD_SEARCH) == NearestHead(g, current, HEAD_SEARCH - step)
    {
      if current.value !in g.departments {
        return [];
      }
      var department := g.departments[current.value];
      if department.head.Some? {
        return [department.head.value];
      }
      current := department.parent;
      step := step + 1;
    }
    return [];
  }

  method ResolveEscalation(step: StepSpec, ctx: Context, g: Graph, alreadyEligible: set<Member>)
    returns (r: Result<Option<seq<Member>>, Failure>)
    ensures r == ResolvedEscalation(step, ctx, g, alreadyEligible)
  {
    if step.escalateTo.None? {
      return Ok(None);
    }
    var named := ResolveSpec(step.escalateTo.value, ctx, g);
    if named.Err? {
      return Err(named.error);
    }
    var targets: set<Member> := {};
    var i := 0;
    while i < |named.value|
      invariant 0 <= i <= |named.value|
      invariant targets == set m | m in named.value[..i] :: Hop(g, m)
    {
      targets := targets + {Hop(g, named.value[i])};
      assert forall m :: m in named.value[..i + 1] <==> m in named.value[..i] || m == named.value[i];
      i := i + 1;
    }
    assert named.value[..i] == named.value;
    targets := targets - {ctx.requester};
    targets := targets - alreadyEligible;
    var canAct := set m | m in targets && CanApprove(g, m);
    assert canAct == EscalationSet(named.value, ctx, g, alreadyEligible);
    if canAct == {} {
      return Ok(None);
    }
    return Ok(Some(Sorted(canAct)));
  }

  method Resolve(steps: seq<StepSpec>, ctx: Context, g: Graph, now: int) returns (r: Result<seq<ResolvedStep>, Failure>)
    ensures r == AllResolved(steps, ctx, g, now)
  {
    var resolved: seq<ResolvedStep> := [];
    var i := 0;
    while i < |steps|
      invariant 0 <= i <= |steps|
      invariant AllResolved(steps[..i], ctx, g, now) == Ok(resolved)
      invariant forall k :: i <= k <= |steps| && AllResolved(steps[..i], ctx, g, now).Err? ==> AllResolved(steps[..k], ctx, g, now).Err?
    {
      var step := steps[i];
      assert steps[..i + 1][..i] == steps[..i];
      var one := ResolveStep(step, ctx, g, now);
      if one.Err? {
        FirstFailureStands(steps, i + 1, ctx, g, now);
        return Err(one.error);
      }
      resolved := resolved + [one.value];
      i := i + 1;
    }
    assert steps[..i] == steps;
    return Ok(resolved);
  }

  lemma {:induction false} FirstFailureStands(steps: seq<StepSpec>, i: nat, ctx: Context, g: Graph, now: int)
    requires i <= |steps| && AllResolved(steps[..i], ctx, g, now).Err?
    ensures AllResolved(steps, ctx, g, now) == AllResolved(steps[..i], ctx, g, now)
  {
    if i == |steps| {
      assert steps[..i] == steps;
    } else {
      assert steps[..|steps| - 1][..i] == steps[..i];
      FirstFailureStands(steps[..|steps| - 1], i, ctx, g, now);
    }
  }

  method CollectCandidates(specs: seq<ApproverSpec>, ctx: Context, g: Graph) returns (r: Result<set<Member>, Failure>)
    ensures r == Candidates(specs, ctx, g)
  {
    var candidates: set<Member> := {};
    var i := 0;
    while i < |specs|
      invariant 0 <= i <= |specs|
      invariant Candidates(specs[..i], ctx, g) == Ok(candidates)
    {
      var named := ResolveSpec(specs[i], ctx, g);
      assert specs[..i + 1][..i] == specs[..i];
      if named.Err? {
        FirstRefusalStands(specs, i + 1, ctx, g);
        return Err(named.error);
      }
      candidates := candidates + set m | m in named.value;
      i := i + 1;
    }
    assert specs[..i] == specs;
    return Ok(candidates);
  }

  method FollowDelegations(candidates: set<Member>, g: Graph) returns (afterDelegation: set<Member>)
    ensures afterDelegation == set m | m in candidates :: Hop(g, m)
  {
    afterDelegation := {};
    var todo := candidates;
    while todo != {}
      invariant todo <= candidates
      invariant afterDelegation == set m | m in candidates - todo :: Hop(g, m)
      decreases |todo|
    {
      var m :| m in todo;
      todo := todo - {m};
      assert candidates - todo == (candidates - (todo + {m})) + {m};
      afterDelegation := afterDelegation + {Hop(g, m)};
    }
    assert candidates - todo == candidates;
  }

  method ResolveStep(step: StepSpec, ctx: Context, g: Graph, now: int) returns (r: Result<ResolvedStep, Failure>)
    ensures r == StepResolved(step, ctx, g, now)
  {
    var named := CollectCandidates(step.approvers, ctx, g);
    if named.Err? {
      return Err(named.error);
    }
    var candidates := named.value - {ctx.requester};
    var afterDelegation := FollowDelegations(candidates, g);
    afterDelegation := afterDelegation - {ctx.requester};
    var canAct := set m | m in afterDelegation && CanApprove(g, m);
    assert canAct == EligibleSet(named.value, ctx, g);
    if canAct == {} {
      return Err(NoEligibleApprover(step.sequence));
    }
    var escalation := ResolveEscalation(step, ctx, g, canAct);
    if escalation.Err? {
      return Err(escalation.error);
    }
    var dueAt := if step.timeoutHours.None? then None else Some(now + step.timeoutHours.value * MS_PER_HOUR);
    var quorum := if step.stepType == Quorum && |canAct| >= 2 then 2 else 1;
    return Ok(ResolvedStep(step.sequence, step.stepType, quorum, Sorted(canAct), dueAt, escalation.value));
  }

  lemma {:induction false} FirstRefusalStands(specs: seq<ApproverSpec>, i: nat, ctx: Context, g: Graph)
    requires i <= |specs| && Candidates(specs[..i], ctx, g).Err?
    ensures Candidates(specs, ctx, g) == Candidates(specs[..i], ctx, g)
  {
    if i == |specs| {
      assert specs[..i] == specs;
    } else {
      assert specs[..|specs| - 1][..i] == specs[..i];
      FirstRefusalStands(specs[..|specs| - 1], i, ctx, g);
    }
  }

  lemma {:induction false} CandidatesAreNamed(specs: seq<ApproverSpec>, ctx: Context, g: Graph)
    ensures Candidates(specs, ctx, g).Err? <==> Workflow in specs
    ensures Candidates(specs, ctx, g).Ok? ==> forall m :: m in Candidates(specs, ctx, g).value <==> Names(specs, ctx, g, m)
  {
    if specs != [] {
      var (before, last) := (specs[..|specs| - 1], specs[|specs| - 1]);
      CandidatesAreNamed(before, ctx, g);
      SpecResolvesToItsNames(last, ctx, g);
      assert specs == before + [last];
      forall m { NamesOfAppend(before, last, ctx, g, m); }
    }
  }

  lemma NamesOfAppend(before: seq<ApproverSpec>, last: ApproverSpec, ctx: Context, g: Graph, m: Member)
    ensures Names(before + [last], ctx, g, m) <==> Names(before, ctx, g, m) || SpecNames(last, ctx, g, m)
  {
    if i :| 0 <= i < |before| && SpecNames(before[i], ctx, g, m) { assert (before + [last])[i] == before[i]; }
    assert (before + [last])[|before|] == last;
  }

  lemma EligibleSetIsRight(specs: seq<ApproverSpec>, ctx: Context, g: Graph)
    requires Candidates(specs, ctx, g).Ok?
    ensures forall m :: m in EligibleSet(Candidates(specs, ctx, g).value, ctx, g) <==> MayApprove(specs, ctx, g, m)
  {
    CandidatesAreNamed(specs, ctx, g);
    HopStandsFor(g);
    var candidates := Candidates(specs, ctx, g).value;
    forall m | MayApprove(specs, ctx, g, m) ensures m in EligibleSet(candidates, ctx, g) {
      var n :| n != ctx.requester && Names(specs, ctx, g, n) && StandsFor(g, n, m);
      assert n in candidates - {ctx.requester} && Hop(g, n) == m;
    }
    forall m | m in EligibleSet(candidates, ctx, g) ensures MayApprove(specs, ctx, g, m) {
      var n :| n in candidates - {ctx.requester} && Hop(g, n) == m;
      assert Names(specs, ctx, g, n) && StandsFor(g, n, m);
    }
  }

  lemma EscalationSetIsRight(spec: ApproverSpec, ctx: Context, g: Graph, eligible: seq<Member>, taken: set<Member>)
    requires ResolveSpec(spec, ctx, g).Ok? && forall m :: m in taken <==> m in eligible
    ensures var targets := EscalationSet(ResolveSpec(spec, ctx, g).value, ctx, g, taken);
            forall m :: m in targets <==> MayBeEscalatedTo(spec, ctx, g, eligible, m)
  {
    SpecResolvesToItsNames(spec, ctx, g);
  }

  /** The step escalates to this member. */
  predicate EscalatesTo(r: ResolvedStep, m: Member) {
    r.escalation.Some? && m in r.escalation.value
  }

  /** Neither list names anybody twice, and the quorum can be met. */
  lemma ResolvedStepIsWellFormed(step: StepSpec, ctx: Context, g: Graph, now: int)
    requires StepResolved(step, ctx, g, now).Ok?
    ensures var r := StepResolved(step, ctx, g, now).value;
            && r.sequence == step.sequence && r.eligible != [] && Distinct(r.eligible)
            && 1 <= r.quorum <= |r.eligible|
            && (r.escalation.Some? ==> step.escalateTo.Some? && Distinct(r.escalation.value) && r.escalation.value != [])
  {
    var r := StepResolved(step, ctx, g, now).value;
    AscendingIsDistinct(r.eligible);
    if r.escalation.Some? { AscendingIsDistinct(r.escalation.value); }
  }

  /** The rest of the step: its type, its deadline in hours from now, its approvers in order, and a quorum of
      two where there are two. */
  lemma ResolvedStepTerms(step: StepSpec, ctx: Context, g: Graph, now: int)
    requires StepResolved(step, ctx, g, now).Ok?
    ensures var r := StepResolved(step, ctx, g, now).value;
            && r.sequence == step.sequence && r.stepType == step.stepType && Ascending(r.eligible)
            && r.quorum == (if step.stepType == Quorum && |r.eligible| > 1 then 2 else 1)
            && r.dueAt == (match step.timeoutHours case None => None case Some(hours) => Some(now + hours * 60 * 60 * 1000))
  {}

  /** The eligible list is exactly who may approve: named, at most one hop away, able to act, never the
      requester; and the escalation exactly who may be escalated to. */
  lemma ResolvedStepIsRight(step: StepSpec, ctx: Context, g: Graph, now: int)
    requires StepResolved(step, ctx, g, now).Ok?
    ensures var r := StepResolved(step, ctx, g, now).value;
            && (forall m :: m in r.eligible <==> MayApprove(step.approvers, ctx, g, m))
            && (r.escalation.Some? ==> step.escalateTo.Some?)
            && (step.escalateTo.Some? ==>
                  forall m :: EscalatesTo(r, m) <==> MayBeEscalatedTo(step.escalateTo.value, ctx, g, r.eligible, m))
  {
    EligibleSetIsRight(step.approvers, ctx, g);
    var eligible := EligibleSet(Candidates(step.approvers, ctx, g).value, ctx, g);
    var r := StepResolved(step, ctx, g, now).value;
    assert r.eligible == Sorted(eligible);
    if step.escalateTo.Some? {
      var spec := step.escalateTo.value;
      EscalationSetIsRight(spec, ctx, g, r.eligible, eligible);
      EscalationListed(step, ctx, g, eligible);
    }
  }

  lemma EscalationListed(step: StepSpec, ctx: Context, g: Graph, eligible: set<Member>)
    requires step.escalateTo.Some? && ResolvedEscalation(step, ctx, g, eligible).Ok?
    ensures ResolveSpec(step.escalateTo.value, ctx, g).Ok?
    ensures var listed := ResolvedEscalation(step, ctx, g, eligible).value;
            var targets := EscalationSet(ResolveSpec(step.escalateTo.value, ctx, g).value, ctx, g, eligible);
            forall m :: m in targets <==> listed.Some? && m in listed.value
  {}

  /** Opening a chain fails exactly when a step asks for a named workflow or nobody may approve it. */
  lemma {:induction false} ResolveFailsExactlyWhen(steps: seq<StepSpec>, ctx: Context, g: Graph, now: int)
    ensures AllResolved(steps, ctx, g, now).Err? <==>
            exists i :: 0 <= i < |steps| && Unresolvable(steps[i], ctx, g)
  {
    if steps != [] {
      var (before, last) := (steps[..|steps| - 1], steps[|steps| - 1]);
      assert steps == before + [last];
      ResolveFailsExactlyWhen(before, ctx, g, now);
      StepFailsExactlyWhen(last, ctx, g, now);
      if i :| 0 <= i < |before| && Unresolvable(before[i], ctx, g) { assert steps[i] == before[i]; }
      assert steps[|steps| - 1] == last;
    }
  }

  ghost predicate Unresolvable(step: StepSpec, ctx: Context, g: Graph) {
    || Workflow in step.approvers || step.escalateTo == Some(Workflow)
    || forall m :: !MayApprove(step.approvers, ctx, g, m)
  }

  lemma StepFailsExactlyWhen(step: StepSpec, ctx: Context, g: Graph, now: int)
    ensures StepResolved(step, ctx, g, now).Err? <==> Unresolvable(step, ctx, g)
  {
    CandidatesAreNamed(step.approvers, ctx, g);
    if Candidates(step.approvers, ctx, g).Ok? {
      NobodyExactlyWhen(step.approvers, ctx, g);
      EscalationFails(step, ctx, g, EligibleSet(Candidates(step.approvers, ctx, g).value, ctx, g));
    }
  }

  lemma NobodyExactlyWhen(specs: seq<ApproverSpec>, ctx: Context, g: Graph)
    requires Candidates(specs, ctx, g).Ok?
    ensures EligibleSet(Candidates(specs, ctx, g).value, ctx, g) == {} <==> forall m :: !MayApprove(specs, ctx, g, m)
  {
    EligibleSetIsRight(specs, ctx, g);
    var eligible := EligibleSet(Candidates(specs, ctx, g).value, ctx, g);
    if eligible != {} {
      var m :| m in eligible;
      assert MayApprove(specs, ctx, g, m);
    }
  }

  lemma EscalationFails(step: StepSpec, ctx: Context, g: Graph, eligible: set<Member>)
    ensures ResolvedEscalation(step, ctx, g, eligible).Err? <==> step.escalateTo == Some(Workflow)
  {
    if step.escalateTo.Some? { SpecResolvesToItsNames(step.escalateTo.value, ctx, g); }
  }

  /** What is reported when opening fails: the first step that cannot be resolved, a named workflow among its
      approvers before a lack of anybody else, and one named by its escalation last. */
  ghost predicate FailsAs(step: StepSpec, ctx: Context, g: Graph, failure: Failure) {
    if Workflow in step.approvers then failure == WorkflowUnavailable
    else if forall m :: !MayApprove(step.approvers, ctx, g, m) then failure == NoEligibleApprover(step.sequence)
    else failure == WorkflowUnavailable && step.escalateTo == Some(Workflow)
  }

  lemma {:induction false} CandidatesFailAs(specs: seq<ApproverSpec>, ctx: Context, g: Graph)
    ensures Candidates(specs, ctx, g).Err? ==> Candidates(specs, ctx, g).error == WorkflowUnavailable
  {
    if specs != [] {
      CandidatesFailAs(specs[..|specs| - 1], ctx, g);
      SpecResolvesToItsNames(specs[|specs| - 1], ctx, g);
    }
  }

  lemma StepFailsAs(step: StepSpec, ctx: Context, g: Graph, now: int)
    requires StepResolved(step, ctx, g, now).Err?
    ensures FailsAs(step, ctx, g, StepResolved(step, ctx, g, now).error)
  {
    CandidatesAreNamed(step.approvers, ctx, g);
    CandidatesFailAs(step.approvers, ctx, g);
    if Candidates(step.approvers, ctx, g).Ok? {
      NobodyExactlyWhen(step.approvers, ctx, g);
      EscalationFails(step, ctx, g, EligibleSet(Candidates(step.approvers, ctx, g).value, ctx, g));
      if step.escalateTo.Some? { SpecResolvesToItsNames(step.escalateTo.value, ctx, g); }
    }
  }

  /** A resolution that fails reports the first step that does not resolve, and why it does not. */
  lemma {:induction false} FirstFailureIsReported(steps: seq<StepSpec>, ctx: Context, g: Graph, now: int) returns (i: nat)
    requires AllResolved(steps, ctx, g, now).Err?
    ensures i < |steps| && Unresolvable(steps[i], ctx, g) && FailsAs(steps[i], ctx, g, AllResolved(steps, ctx, g, now).error)
    ensures forall j :: 0 <= j < i ==> !Unresolvable(steps[j], ctx, g)
  {
    var (before, last) := (steps[..|steps| - 1], steps[|steps| - 1]);
    if AllResolved(before, ctx, g, now).Err? {
      i := FirstFailureIsReported(before, ctx, g, now);
      forall j | 0 <= j < i ensures !Unresolvable(steps[j], ctx, g) { assert steps[j] == before[j]; }
    } else {
      i := |steps| - 1;
      StepFailsExactlyWhen(last, ctx, g, now);
      StepFailsAs(last, ctx, g, now);
      ResolveFailsExactlyWhen(before, ctx, g, now);
      forall j | 0 <= j < i ensures !Unresolvable(steps[j], ctx, g) { assert steps[j] == before[j]; }
    }
  }

  /** Steps as the policy engine's merge emits them. */
  predicate Merged(steps: seq<StepSpec>) {
    steps != [] && forall i, j :: 0 <= i < j < |steps| ==> steps[i].sequence < steps[j].sequence
  }

  lemma LastStepResolved(steps: seq<StepSpec>, ctx: Context, g: Graph, now: int)
    requires steps != [] && AllResolved(steps, ctx, g, now).Ok?
    ensures var (before, last) := (AllResolved(steps[..|steps| - 1], ctx, g, now), StepResolved(steps[|steps| - 1], ctx, g, now));
            before.Ok? && last.Ok? && AllResolved(steps, ctx, g, now).value == before.value + [last.value]
  {}

  lemma {:induction false} AsManyResolved(steps: seq<StepSpec>, ctx: Context, g: Graph, now: int)
    requires AllResolved(steps, ctx, g, now).Ok?
    ensures |AllResolved(steps, ctx, g, now).value| == |steps|
  {
    if steps != [] {
      LastStepResolved(steps, ctx, g, now);
      AsManyResolved(steps[..|steps| - 1], ctx, g, now);
    }
  }

  lemma {:induction false} ResolvedAt(steps: seq<StepSpec>, ctx: Context, g: Graph, now: int, i: nat)
    requires AllResolved(steps, ctx, g, now).Ok? && i < |steps| == |AllResolved(steps, ctx, g, now).value|
    ensures Ok(AllResolved(steps, ctx, g, now).value[i]) == StepResolved(steps[i], ctx, g, now)
  {
    LastStepResolved(steps, ctx, g, now);
    if i < |steps| - 1 {
      AsManyResolved(steps[..|steps| - 1], ctx, g, now);
      ResolvedAt(steps[..|steps| - 1], ctx, g, now, i);
    }
  }

  lemma EachStepResolved(steps: seq<StepSpec>, ctx: Context, g: Graph, now: int)
    requires AllResolved(steps, ctx, g, now).Ok?
    ensures |AllResolved(steps, ctx, g, now).value| == |steps|
    ensures forall i :: 0 <= i < |steps| ==> Ok(AllResolved(steps, ctx, g, now).value[i]) == StepResolved(steps[i], ctx, g, now)
  {
    AsManyResolved(steps, ctx, g, now);
    forall i | 0 <= i < |steps| ensures Ok(AllResolved(steps, ctx, g, now).value[i]) == StepResolved(steps[i], ctx, g, now) {
      ResolvedAt(steps, ctx, g, now, i);
    }
  }

  lemma ResolvedChainsAreWellFormed(steps: seq<StepSpec>, ctx: Context, g: Graph, now: int)
    requires Merged(steps) && AllResolved(steps, ctx, g, now).Ok?
    ensures Resolved(AllResolved(steps, ctx, g, now).value)
  {
    EachStepResolved(steps, ctx, g, now);
    forall i | 0 <= i < |steps| ensures StepResolved(steps[i], ctx, g, now).Ok? {}
    forall i | 0 <= i < |steps| { ResolvedStepIsWellFormed(steps[i], ctx, g, now); }
  }

  lemma RequesterIsUnlisted(steps: seq<StepSpec>, ctx: Context, g: Graph, now: int)
    requires AllResolved(steps, ctx, g, now).Ok?
    ensures Unlisted(AllResolved(steps, ctx, g, now).value, ctx.requester)
  {
    var resolved := AllResolved(steps, ctx, g, now).value;
    EachStepResolved(steps, ctx, g, now);
    forall i | 0 <= i < |resolved|
      ensures ctx.requester !in resolved[i].eligible
      ensures resolved[i].escalation.Some? ==> ctx.requester !in resolved[i].escalation.value
    {
      ResolvedStepIsRight(steps[i], ctx, g, now);
      assert !MayApprove(steps[i].approvers, ctx, g, ctx.requester);
      assert !EscalatesTo(resolved[i], ctx.requester);
    }
  }

  /** Over whole runs, whatever the specifications, delegations, escalations and actions: the
      requester is never asked on their own chain and never records an approval, a rejection or a
      return on it. */
  lemma RequesterNeverDecides(steps: seq<StepSpec>, ctx: Context, g: Graph, now: int, es: seq<Event>, k: nat)
    requires Merged(steps) && AllResolved(steps, ctx, g, now).Ok?
    requires k < |Run(Open(AllResolved(steps, ctx, g, now).value), es).steps|
    ensures var s := Run(Open(AllResolved(steps, ctx, g, now).value), es).steps[k];
            && NeverAsked(s, ctx.requester)
            && forall i :: 0 <= i < |s.actions| && s.actions[i].actor == ctx.requester ==> s.actions[i].action == Override
  {
    var resolved := AllResolved(steps, ctx, g, now).value;
    ResolvedChainsAreWellFormed(steps, ctx, g, now);
    RequesterIsUnlisted(steps, ctx, g, now);
    UnlistedNeverDecides(resolved, es, ctx.requester, k);
  }

  /** Who a step may list: the resolved approvers and those it escalates to. */
  ghost predicate ListedBy(s: Step, r: ResolvedStep) {
    s.escalation == r.escalation && forall m :: m in s.eligible ==> m in r.eligible || EscalatesTo(r, m)
  }

  ghost predicate AllListed(c: Chain, resolved: seq<ResolvedStep>) {
    |c.steps| == |resolved| && forall k :: 0 <= k < |resolved| ==> ListedBy(c.steps[k], resolved[k])
  }

  lemma NextLists(c: Chain, e: Event, resolved: seq<ResolvedStep>)
    requires ChainOk(c) && AllListed(c, resolved)
    ensures AllListed(Next(c, e), resolved)
  {
    var d := Next(c, e);
    if e.Escalate? && CanEscalate(c, e.k, e.now) {
      assert StepOk(c.steps[e.k]) && ListedBy(c.steps[e.k], resolved[e.k]);
      AddedAreNew(c.steps[e.k].eligible, c.steps[e.k].escalation.value);
    }
    forall k | 0 <= k < |resolved| ensures ListedBy(d.steps[k], resolved[k]) { assert ListedBy(c.steps[k], resolved[k]); }
  }

  lemma {:induction false} EligibleComesFromResolution(resolved: seq<ResolvedStep>, es: seq<Event>)
    requires Resolved(resolved)
    ensures AllListed(Run(Open(resolved), es), resolved)
  {
    if es != [] {
      EligibleComesFromResolution(resolved, es[..|es| - 1]);
      RunIsOk(resolved, es[..|es| - 1]);
      NextLists(Run(Open(resolved), es[..|es| - 1]), es[|es| - 1], resolved);
    }
  }

  /** Whoever is eligible at any point of a run can act, and was named, or lent the authority of
      somebody named by one delegation. */
  lemma EveryApproverWasNamed(steps: seq<StepSpec>, ctx: Context, g: Graph, now: int, es: seq<Event>, k: nat, m: Member)
    requires Merged(steps) && AllResolved(steps, ctx, g, now).Ok? && k < |steps|
    requires k < |Run(Open(AllResolved(steps, ctx, g, now).value), es).steps|
    requires m in Run(Open(AllResolved(steps, ctx, g, now).value), es).steps[k].eligible
    ensures MayAct(g, m)
    ensures exists n :: StandsFor(g, n, m)
              && (Names(steps[k].approvers, ctx, g, n) || (steps[k].escalateTo.Some? && SpecNames(steps[k].escalateTo.value, ctx, g, n)))
  {
    var resolved := AllResolved(steps, ctx, g, now).value;
    ResolvedChainsAreWellFormed(steps, ctx, g, now);
    EachStepResolved(steps, ctx, g, now);
    EligibleComesFromResolution(resolved, es);
    assert ListedBy(Run(Open(resolved), es).steps[k], resolved[k]);
    ResolvedStepIsRight(steps[k], ctx, g, now);
    if m in resolved[k].eligible {
      assert MayApprove(steps[k].approvers, ctx, g, m);
      var n :| n != ctx.requester && Names(steps[k].approvers, ctx, g, n) && StandsFor(g, n, m);
      assert StandsFor(g, n, m) && Names(steps[k].approvers, ctx, g, n);
    } else {
      assert MayBeEscalatedTo(steps[k].escalateTo.value, ctx, g, resolved[k].eligible, m);
      var n :| SpecNames(steps[k].escalateTo.value, ctx, g, n) && StandsFor(g, n, m);
      assert StandsFor(g, n, m) && SpecNames(steps[k].escalateTo.value, ctx, g, n);
    }
  }

  /** Named, or lent the authority of somebody named, other than the requester. */
  ghost predicate NamedByOthers(spec: ApproverSpec, ctx: Context, g: Graph, m: Member) {
    exists n :: n != ctx.requester && SpecNames(spec, ctx, g, n) && StandsFor(g, n, m)
  }

  ghost predicate AllNamedByOthers(r: ResolvedStep, spec: ApproverSpec, ctx: Context, g: Graph) {
    forall m :: EscalatesTo(r, m) ==> NamedByOthers(spec, ctx, g, m)
  }

  /** The escalation names the requester, whose authority `d` holds, and nothing else brings `d` in: not the
      escalation on anybody else's account, nor the step's own approvers. */
  ghost predicate OnlyForTheRequester(step: StepSpec, ctx: Context, g: Graph, d: Member)
    requires step.escalateTo.Some?
  {
    var spec := step.escalateTo.value;
    && SpecNames(spec, ctx, g, ctx.requester) && StandsFor(g, ctx.requester, d) && d != ctx.requester
    && MayAct(g, d) && !MayApprove(step.approvers, ctx, g, d) && !NamedByOthers(spec, ctx, g, d)
  }

  /** The escalation drops the requester only after following delegation, unlike a step's own approvers.
      Whatever the specification, everybody it escalates to stands for somebody other than the requester,
      exactly unless the requester was named and the member they delegated to comes in on that alone. */
  lemma EscalationCanReachTheRequestersDelegate(step: StepSpec, ctx: Context, g: Graph, now: int)
    requires StepResolved(step, ctx, g, now).Ok? && step.escalateTo.Some?
    ensures var (r, spec) := (StepResolved(step, ctx, g, now).value, step.escalateTo.value);
            AllNamedByOthers(r, spec, ctx, g) <==> !OnlyForTheRequester(step, ctx, g, Hop(g, ctx.requester))
    ensures var (r, spec) := (StepResolved(step, ctx, g, now).value, step.escalateTo.value);
            forall m :: EscalatesTo(r, m) && !NamedByOthers(spec, ctx, g, m) ==> m == Hop(g, ctx.requester)
  {
    ResolvedStepIsRight(step, ctx, g, now);
    var (r, spec, d) := (StepResolved(step, ctx, g, now).value, step.escalateTo.value, Hop(g, ctx.requester));
    forall m | EscalatesTo(r, m) && !NamedByOthers(spec, ctx, g, m)
      ensures m == d && OnlyForTheRequester(step, ctx, g, d)
    {
      assert MayBeEscalatedTo(spec, ctx, g, r.eligible, m);
    }
    if OnlyForTheRequester(step, ctx, g, d) {
      assert MayBeEscalatedTo(spec, ctx, g, r.eligible, d);
      assert EscalatesTo(r, d) && !NamedByOthers(spec, ctx, g, d);
    }
  }

  /** One named approver, and an escalation that resolves to the requester alone. */
  lemma EscalatedToTheDelegate(step: StepSpec, ctx: Context, g: Graph, a: Member)
    requires step.approvers == [Membership(a)] && step.escalateTo.Some? && a != ctx.requester && Hop(g, a) == a
    requires ResolveSpec(step.escalateTo.value, ctx, g) == Ok([ctx.requester])
    requires Hop(g, ctx.requester) != ctx.requester && Hop(g, ctx.requester) != a
    requires CanApprove(g, a) && CanApprove(g, Hop(g, ctx.requester))
    ensures StepResolved(step, ctx, g, 0).Ok? && EscalatesTo(StepResolved(step, ctx, g, 0).value, Hop(g, ctx.requester))
  {
    var d := Hop(g, ctx.requester);
    SpecResolvesToItsNames(step.escalateTo.value, ctx, g);
    assert SpecNames(step.approvers[0], ctx, g, a) && Names(step.approvers, ctx, g, a);
    HopStandsFor(g);
    assert StandsFor(g, a, a);
    assert MayApprove(step.approvers, ctx, g, a) && !MayApprove(step.approvers, ctx, g, d);
    StepFailsExactlyWhen(step, ctx, g, 0);
    ResolvedStepIsRight(step, ctx, g, 0);
    assert SpecNames(step.escalateTo.value, ctx, g, ctx.requester);
    assert MayBeEscalatedTo(step.escalateTo.value, ctx, g, StepResolved(step, ctx, g, 0).value.eligible, d);
  }

  /** An instance: member 1 heads the department and asks for money, member 2 approves, and 1 has
      delegated to 3. The overdue step escalates to the department's head, and so to 3. */
  lemma RequesterHeadsTheDepartment() returns (step: StepSpec, ctx: Context, g: Graph)
    ensures step == StepSpec(1, Single, [Membership(2)], Some(24), Some(DepartmentHead(0)))
    ensures ctx == Context(1, Some(0), []) && g.departments == map[0 := Node(None, Some(1))] && g.delegatedTo == map[1 := 3]
    ensures StepResolved(step, ctx, g, 0).Ok? && EscalatesTo(StepResolved(step, ctx, g, 0).value, 3)
  {
    step := StepSpec(1, Single, [Membership(2)], Some(24), Some(DepartmentHead(0)));
    ctx := Context(1, Some(0), []);
    g := Graph(map[], map[], map[1 := "HEAD", 2 := "FINANCE", 3 := "FINANCE"], {"FINANCE"}, map[0 := Node(None, Some(1))], map[1 := 3]);
    assert Hop(g, 1) == 3 && Hop(g, 2) == 2;
    EscalatedToTheDelegate(step, ctx, g, 2);
  }
}
