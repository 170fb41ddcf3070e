/** Approvals in overlapping transactions. Each decides on the rows as it read them; an approval that
    completes a step writes rows guarded by their versions, one that does not only records itself. An
    escalation writes the step it read, guarded by its version, and what it decides on changes only with
    that version, so it is one step here. */
module ApprovalRaces {
  import opened Wrappers
  import opened ApprovalChain
  import opened ApprovalSafety

  /** A transaction under way: who approves, and the rows as read. */
  datatype Tx = Tx(actor: Member, seen: Chain)

  /** The rows, and the transactions under way. Nothing stops a member from having several. */
  datatype World = World(chain: Chain, open: map<nat, Tx>)

  datatype Race = Begins(id: nat, m: Member) | Commits(id: nat) | Escalates(k: nat, now: int)

  function Move(w: World, e: Race): World {
    match e
    case Begins(id, m) => if id in w.open then w else w.(open := w.open[id := Tx(m, w.chain)])
    case Commits(id) =>
      if id !in w.open then w else World(Committed(w.chain, w.open[id].seen, w.open[id].actor), w.open - {id})
    case Escalates(k, now) => w.(chain := EscalatedAt(w.chain, k, now))
  }

  function Races(w: World, es: seq<Race>): World {
    if es == [] then w else Move(Races(w, es[..|es| - 1]), es[|es| - 1])
  }

  /** Nobody is under way. */
  function Idle(c: Chain): World {
    World(c, map[])
  }

  /** The rows once an approval decided on `seen` commits, or those there were if a guard fails. */
  function Committed(now: Chain, seen: Chain, m: Member): Chain {
    if ActProblem(seen, Some(m), Approve).Some? then now
    else
      var k := IndexOfSequence(seen.steps, seen.current).value;
      if k >= |now.steps| then now
      else if !Completes(seen.steps[k]) then now.(steps := now.steps[k := WithApproval(now.steps[k], m)])
      else if now.steps[k].version != seen.steps[k].version || now.version != seen.version then now
      else Advanced(now.(steps := ActedSteps(now, k, m)), seen.steps[k].sequence)
  }

  /** One more approval is enough, as far as these rows show. */
  predicate Completes(s: Step) {
    StepIsSatisfied(s.stepType, s.quorum, |s.eligible|, Approvals(s.actions) + 1)
  }

  function WithApproval(s: Step, m: Member): Step {
    s.(actions := s.actions + [Entry(m, Approve)])
  }

  lemma {:induction false} RacesThen(w: World, a: seq<Race>, b: seq<Race>)
    ensures Races(w, a + b) == Races(Races(w, a), b)
  {
    if b == [] {
      assert a + b == a;
    } else {
      RacesThen(w, a, b[..|b| - 1]);
      assert (a + b)[..|a + b| - 1] == a + b[..|b| - 1];
    }
  }

  // ---- What every schedule keeps ------------------------------------------------------------------

  /** Approvals only, all by eligible people, but perhaps several by one of them. */
  ghost predicate Sound(s: Step) {
    && Distinct(s.eligible) && s.eligible != [] && (s.stepType == Quorum ==> s.quorum >= 1)
    && (s.escalation.Some? ==> Distinct(s.escalation.value))
    && (s.status == Waiting ==> s.actions == [])
    && (IsOpen(s) || s.status == Approved ==>
          forall i :: 0 <= i < |s.actions| ==> s.actions[i].action == Approve && s.actions[i].actor in s.eligible)
    && (s.status == Approved ==> |s.actions| >= Required(s))
  }

  ghost predicate Loose(c: Chain) {
    && Ordered(c.steps)
    && (forall i {:trigger Sound(c.steps[i])} :: 0 <= i < |c.steps| ==> Sound(c.steps[i]))
    && (c.status == Pending ==> exists k: nat :: AsksAt(c, k))
  }

  /** From step `s` to step `t` there may be more approvals and more approvers, and the step may have
      opened, escalated or closed. */
  ghost predicate StepMoved(s: Step, t: Step) {
    && s.sequence == t.sequence && s.stepType == t.stepType && s.quorum == t.quorum
    && s.dueAt == t.dueAt && s.escalation == t.escalation && s.eligible <= t.eligible
    && s.version <= t.version && (s.version == t.version ==> s.status == t.status && s.eligible == t.eligible)
    && s.actions <= t.actions
    && (IsOpen(s) || s.status == Approved ==> IsOpen(t) || t.status == Approved)
  }

  ghost predicate Moved(c: Chain, d: Chain) {
    && |c.steps| == |d.steps|
    && (forall i {:trigger StepMoved(c.steps[i], d.steps[i])} :: 0 <= i < |c.steps| ==> StepMoved(c.steps[i], d.steps[i]))
    && c.version <= d.version && (c.version == d.version ==> c.status == d.status && c.current == d.current)
  }

  ghost predicate WorldOk(w: World) {
    && Loose(w.chain)
    && forall id :: id in w.open ==> Loose(w.open[id].seen) && Moved(w.open[id].seen, w.chain)
  }

  lemma MovedOn(c: Chain, d: Chain, e: Chain)
    requires Moved(c, d) && Moved(d, e)
    ensures Moved(c, e)
  {
    forall i | 0 <= i < |c.steps| ensures StepMoved(c.steps[i], e.steps[i]) {
      assert StepMoved(c.steps[i], d.steps[i]) && StepMoved(d.steps[i], e.steps[i]);
    }
  }

  lemma Unmoved(c: Chain)
    ensures Moved(c, c)
  {
    forall i | 0 <= i < |c.steps| ensures StepMoved(c.steps[i], c.steps[i]) {}
  }

  /** What an accepted approval knows of the step it read, and of that step now. */
  lemma AcceptedOn(now: Chain, seen: Chain, m: Member) returns (k: nat)
    requires Loose(now) && Loose(seen) && Moved(seen, now) && ActProblem(seen, Some(m), Approve) == None
    ensures IndexOfSequence(seen.steps, seen.current) == Some(k) && k < |now.steps| && AsksAt(seen, k)
    ensures m in now.steps[k].eligible && !HasActed(seen.steps[k], m)
    ensures IsOpen(now.steps[k]) || now.steps[k].status == Approved
    ensures StepMoved(seen.steps[k], now.steps[k]) && Sound(now.steps[k]) && Sound(seen.steps[k])
  {
    k :| AsksAt(seen, k);
    AskedIsFound(seen, k);
    assert StepMoved(seen.steps[k], now.steps[k]) && Sound(now.steps[k]) && Sound(seen.steps[k]);
  }

  lemma ApprovalStaysSound(s: Step, m: Member)
    requires Sound(s) && (IsOpen(s) || s.status == Approved) && m in s.eligible
    ensures Sound(WithApproval(s, m))
    ensures |s.actions| + 1 >= Required(s) ==> Sound(Closed(WithApproval(s, m), Approved))
  {}

  lemma RecordingStaysLoose(now: Chain, k: nat, m: Member)
    requires Loose(now) && k < |now.steps| && (IsOpen(now.steps[k]) || now.steps[k].status == Approved)
    requires m in now.steps[k].eligible
    ensures var d := now.(steps := now.steps[k := WithApproval(now.steps[k], m)]); Loose(d) && Moved(now, d)
  {
    var d := now.(steps := now.steps[k := WithApproval(now.steps[k], m)]);
    forall i | 0 <= i < |d.steps| ensures Sound(d.steps[i]) && StepMoved(now.steps[i], d.steps[i]) {
      assert Sound(now.steps[i]);
      if i == k { ApprovalStaysSound(now.steps[k], m); }
    }
    if now.status == Pending {
      var j: nat :| AsksAt(now, j);
      assert AsksAt(d, j);
    }
  }

  /** Both versions unchanged, so the step that was asked is still the one being asked. */
  lemma StillAsked(now: Chain, seen: Chain, k: nat)
    requires Loose(now) && AsksAt(seen, k) && Moved(seen, now) && seen.status == Pending
    requires now.version == seen.version && now.steps[k].version == seen.steps[k].version
    ensures AsksAt(now, k) && now.status == Pending
  {
    var j: nat :| AsksAt(now, j);
    assert StepMoved(seen.steps[k], now.steps[k]);
    assert now.steps[j].sequence == now.steps[k].sequence;
  }

  /** The step closes and the one after it, if any, opens. */
  lemma CompletingOpensTheNext(now: Chain, k: nat, m: Member)
    requires Ordered(now.steps) && now.status == Pending && AsksAt(now, k)
    ensures var d := Advanced(now.(steps := ActedSteps(now, k, m)), now.steps[k].sequence);
            && d.version == now.version + 1 && |d.steps| == |now.steps|
            && d.steps[k] == Closed(WithApproval(now.steps[k], m), Approved)
            && (forall i :: 0 <= i < |now.steps| && i != k && i != k + 1 ==> d.steps[i] == now.steps[i])
            && (if k + 1 < |now.steps|
                then d.steps[k + 1] == Closed(now.steps[k + 1], Active) && now.steps[k + 1].status == Waiting
                     && d.status == Pending && AsksAt(d, k + 1)
                else d.status == Granted)
  {
    NextIsTheFollowing(now, ActedSteps(now, k, m), k);
  }

  lemma CompletingStaysLoose(now: Chain, k: nat, m: Member)
    requires Loose(now) && now.status == Pending && AsksAt(now, k)
    requires m in now.steps[k].eligible && |now.steps[k].actions| + 1 >= Required(now.steps[k])
    ensures var d := Advanced(now.(steps := ActedSteps(now, k, m)), now.steps[k].sequence);
            && Loose(d) && Moved(now, d) && d.version == now.version + 1
            && d.steps[k].actions == now.steps[k].actions + [Entry(m, Approve)]
            && forall i :: 0 <= i < |now.steps| && i != k ==>
                 d.steps[i].actions == now.steps[i].actions && (d.steps[i].status == Approved ==> now.steps[i].status == Approved)
  {
    var d := Advanced(now.(steps := ActedSteps(now, k, m)), now.steps[k].sequence);
    CompletingOpensTheNext(now, k, m);
    assert Sound(now.steps[k]);
    ApprovalStaysSound(now.steps[k], m);
    forall i | 0 <= i < |d.steps| ensures Sound(d.steps[i]) && StepMoved(now.steps[i], d.steps[i]) { assert Sound(now.steps[i]); }
  }

  lemma NextIsTheFollowing(now: Chain, steps: seq<Step>, k: nat)
    requires Ordered(now.steps) && AsksAt(now, k) && |steps| == |now.steps|
    requires steps[k].sequence == now.steps[k].sequence && forall i :: 0 <= i < |steps| && i != k ==> steps[i] == now.steps[i]
    ensures NextWaiting(steps, now.steps[k].sequence) == if k + 1 < |steps| then Some(k + 1) else None
  {
    if k + 1 < |steps| { assert steps[k + 1].sequence > now.steps[k].sequence && steps[k + 1].status == Waiting; }
  }

  lemma CompletesIsRequired(s: Step)
    requires forall i :: 0 <= i < |s.actions| ==> s.actions[i].action == Approve
    ensures Completes(s) <==> |s.actions| + 1 >= Required(s)
  {
    ApprovalsOfClean(s.actions);
  }

  /** What a commit can do: nothing, one more entry on the step it read, or that and closing it. */
  datatype Outcome = Nothing | Recorded(k: nat) | Completed(k: nat)

  ghost predicate Effect(now: Chain, seen: Chain, m: Member, d: Chain, o: Outcome) {
    match o
    case Nothing => d == now
    case Recorded(k) =>
      && k < |seen.steps| && k < |now.steps| && m in now.steps[k].eligible && !HasActed(seen.steps[k], m)
      && (IsOpen(now.steps[k]) || now.steps[k].status == Approved)
      && |seen.steps[k].actions| + 1 < Required(seen.steps[k])
      && d == now.(steps := now.steps[k := WithApproval(now.steps[k], m)])
    case Completed(k) =>
      && k < |seen.steps| && k < |now.steps| && m in now.steps[k].eligible && !HasActed(seen.steps[k], m)
      && AsksAt(now, k) && now.status == Pending && now.version == seen.version && Sound(seen.steps[k])
      && |seen.steps[k].actions| + 1 >= Required(seen.steps[k]) && |now.steps[k].actions| + 1 >= Required(now.steps[k])
      && d == Advanced(now.(steps := ActedSteps(now, k, m)), now.steps[k].sequence)
  }

  lemma CommitHas(now: Chain, seen: Chain, m: Member) returns (o: Outcome)
    requires Loose(now) && Loose(seen) && Moved(seen, now)
    ensures Effect(now, seen, m, Committed(now, seen, m), o)
  {
    o := Nothing;
    if ActProblem(seen, Some(m), Approve) == None {
      var k := AcceptedOn(now, seen, m);
      CompletesIsRequired(seen.steps[k]);
      if !Completes(seen.steps[k]) {
        o := Recorded(k);
      } else if now.steps[k].version == seen.steps[k].version && now.version == seen.version {
        StillAsked(now, seen, k);
        o := Completed(k);
      }
    }
  }

  /** An approval that is not the last one wanted, as it was read, is always recorded and nothing else is; the
      last one closes its step, or is lost if the step or the chain has changed since. */
  lemma CommitLandsExactlyWhen(now: Chain, seen: Chain, m: Member) returns (k: nat)
    requires Loose(now) && Loose(seen) && Moved(seen, now) && ActProblem(seen, Some(m), Approve) == None
    ensures AsksAt(seen, k) && k < |now.steps|
    ensures var d := Committed(now, seen, m);
            var last := |seen.steps[k].actions| + 1 >= Required(seen.steps[k]);
            var unmoved := now.version == seen.version && now.steps[k].version == seen.steps[k].version;
            && (d == now <==> last && !unmoved)
            && (!last ==> d == now.(steps := now.steps[k := WithApproval(now.steps[k], m)]))
            && (last && unmoved ==> d.version == now.version + 1 && d.steps[k].status == Approved
                                    && d.steps[k].actions == now.steps[k].actions + [Entry(m, Approve)])
  {
    k := AcceptedOn(now, seen, m);
    CompletesIsRequired(seen.steps[k]);
    if !Completes(seen.steps[k]) {
      assert |WithApproval(now.steps[k], m).actions| != |now.steps[k].actions|;
    } else if now.steps[k].version == seen.steps[k].version && now.version == seen.version {
      StillAsked(now, seen, k);
      CompletingOpensTheNext(now, k, m);
    }
  }

  lemma CommitKeeps(now: Chain, seen: Chain, m: Member)
    requires Loose(now) && Loose(seen) && Moved(seen, now)
    ensures Loose(Committed(now, seen, m)) && Moved(now, Committed(now, seen, m))
  {
    var o := CommitHas(now, seen, m);
    match o
    case Nothing => Unmoved(now);
    case Recorded(k) => RecordingStaysLoose(now, k, m);
    case Completed(k) => CompletingStaysLoose(now, k, m);
  }

  /** The step as its escalation leaves it. */
  function Widened(s: Step): Step
    requires s.escalation.Some?
  {
    s.(status := Escalated, eligible := s.eligible + Added(s.eligible, s.escalation.value), version := s.version + 1)
  }

  lemma WideningStaysSound(s: Step)
    requires Sound(s) && s.status == Active && s.escalation.Some?
    ensures Sound(Widened(s)) && StepMoved(s, Widened(s))
  {
    var added := Added(s.eligible, s.escalation.value);
    AddedAreNew(s.eligible, s.escalation.value);
    forall i | 0 <= i < |added| ensures added[i] !in s.eligible { assert added[i] in added; }
    assert forall m :: m in s.eligible ==> m in s.eligible + added;
  }

  lemma EscalatingStaysLoose(c: Chain, k: nat, now: int)
    requires Loose(c)
    ensures Loose(EscalatedAt(c, k, now)) && Moved(c, EscalatedAt(c, k, now))
  {
    Unmoved(c);
    if CanEscalate(c, k, now) {
      var d := EscalatedAt(c, k, now);
      assert Sound(c.steps[k]);
      WideningStaysSound(c.steps[k]);
      forall i | 0 <= i < |d.steps| ensures Sound(d.steps[i]) && StepMoved(c.steps[i], d.steps[i]) { assert Sound(c.steps[i]); }
      var j: nat :| AsksAt(c, j);
      assert AsksAt(d, j);
    }
  }

  lemma MoveKeeps(w: World, e: Race)
    requires WorldOk(w)
    ensures WorldOk(Move(w, e)) && Moved(w.chain, Move(w, e).chain)
  {
    Unmoved(w.chain);
    if e.Escalates? {
      EscalatingStaysLoose(w.chain, e.k, e.now);
      var d := EscalatedAt(w.chain, e.k, e.now);
      forall id | id in w.open ensures Moved(w.open[id].seen, d) { MovedOn(w.open[id].seen, w.chain, d); }
    }
    if e.Commits? && e.id in w.open {
      var tx := w.open[e.id];
      CommitKeeps(w.chain, tx.seen, tx.actor);
      var d := Committed(w.chain, tx.seen, tx.actor);
      forall id | id in w.open && id != e.id ensures Moved(w.open[id].seen, d) { MovedOn(w.open[id].seen, w.chain, d); }
    }
  }

  lemma {:induction false} RacesKeep(c: Chain, es: seq<Race>)
    requires ChainOk(c) && c.status == Pending
    ensures WorldOk(Races(Idle(c), es)) && Moved(c, Races(Idle(c), es).chain)
  {
    if es == [] {
      forall i | 0 <= i < |c.steps| ensures Sound(c.steps[i]) { assert StepOk(c.steps[i]); }
      Unmoved(c);
    } else {
      var w := Races(Idle(c), es[..|es| - 1]);
      RacesKeep(c, es[..|es| - 1]);
      MoveKeeps(w, es[|es| - 1]);
      MovedOn(c, w.chain, Move(w, es[|es| - 1]).chain);
    }
  }

  // ---- One approval at a time for each member -----------------------------------------------------

  predicate OnePerMember(w: World) {
    forall a, b :: a in w.open && b in w.open && a != b ==> w.open[a].actor != w.open[b].actor
  }

  ghost predicate NoRepeats(s: Step) {
    forall i, j :: 0 <= i < j < |s.actions| ==> s.actions[i].actor != s.actions[j].actor
  }

  /** Since `seen` was read `m` has done nothing. */
  ghost predicate Still(seen: Chain, now: Chain, m: Member) {
    |seen.steps| == |now.steps| && forall i :: 0 <= i < |seen.steps| && HasActed(now.steps[i], m) ==> HasActed(seen.steps[i], m)
  }

  ghost predicate Tidy(w: World) {
    && (forall i {:trigger NoRepeats(w.chain.steps[i])} :: 0 <= i < |w.chain.steps| ==> NoRepeats(w.chain.steps[i]))
    && forall id :: id in w.open ==> Still(w.open[id].seen, w.chain, w.open[id].actor)
  }

  lemma OneMoreEntry(s: Step, t: Step, m: Member)
    requires t.actions == s.actions + [Entry(m, Approve)]
    ensures NoRepeats(s) && !HasActed(s, m) ==> NoRepeats(t)
    ensures forall x :: HasActed(t, x) <==> HasActed(s, x) || x == m
  {
    assert t.actions[|s.actions|].actor == m;
    forall x ensures HasActed(t, x) <==> HasActed(s, x) || x == m {
      if i :| 0 <= i < |s.actions| && s.actions[i].actor == x { assert t.actions[i].actor == x; }
    }
  }

  /** Only the step that was read gains an entry. */
  lemma EntryAtOne(now: Chain, d: Chain, k: nat, m: Member)
    requires k < |now.steps| == |d.steps| && d.steps[k].actions == now.steps[k].actions + [Entry(m, Approve)]
    requires forall i :: 0 <= i < |now.steps| && i != k ==> d.steps[i].actions == now.steps[i].actions
    requires forall i {:trigger NoRepeats(now.steps[i])} :: 0 <= i < |now.steps| ==> NoRepeats(now.steps[i])
    requires !HasActed(now.steps[k], m)
    ensures forall i {:trigger NoRepeats(d.steps[i])} :: 0 <= i < |d.steps| ==> NoRepeats(d.steps[i])
    ensures forall x :: x != m ==> Still(now, d, x)
  {
    OneMoreEntry(now.steps[k], d.steps[k], m);
    forall i | 0 <= i < |d.steps| ensures NoRepeats(d.steps[i]) { assert NoRepeats(now.steps[i]); }
  }

  lemma CommitStaysTidy(now: Chain, seen: Chain, m: Member)
    requires Loose(now) && Loose(seen) && Moved(seen, now) && Still(seen, now, m)
    requires forall i {:trigger NoRepeats(now.steps[i])} :: 0 <= i < |now.steps| ==> NoRepeats(now.steps[i])
    ensures var d := Committed(now, seen, m);
            && (forall i {:trigger NoRepeats(d.steps[i])} :: 0 <= i < |d.steps| ==> NoRepeats(d.steps[i]))
            && forall x :: x != m ==> Still(now, d, x)
  {
    var o := CommitHas(now, seen, m);
    var d := Committed(now, seen, m);
    match o
    case Nothing =>
    case Recorded(k) => EntryAtOne(now, d, k, m);
    case Completed(k) =>
      CompletingStaysLoose(now, k, m);
      EntryAtOne(now, d, k, m);
  }

  lemma MoveStaysTidy(w: World, e: Race)
    requires WorldOk(w) && Tidy(w) && OnePerMember(w)
    ensures Tidy(Move(w, e))
  {
    if e.Commits? && e.id in w.open {
      var tx := w.open[e.id];
      CommitStaysTidy(w.chain, tx.seen, tx.actor);
      var d := Committed(w.chain, tx.seen, tx.actor);
      forall id | id in w.open && id != e.id ensures Still(w.open[id].seen, d, w.open[id].actor) {
        assert Still(w.open[id].seen, w.chain, w.open[id].actor) && Still(w.chain, d, w.open[id].actor);
      }
    }
    if e.Escalates? { EscalatingStaysTidy(w, e.k, e.now); }
  }

  lemma EscalatingStaysTidy(w: World, k: nat, now: int)
    requires Tidy(w)
    ensures Tidy(w.(chain := EscalatedAt(w.chain, k, now)))
  {
    var d := EscalatedAt(w.chain, k, now);
    forall i | 0 <= i < |d.steps| ensures NoRepeats(d.steps[i]) && d.steps[i].actions == w.chain.steps[i].actions {
      assert NoRepeats(w.chain.steps[i]);
    }
    forall id | id in w.open ensures Still(w.open[id].seen, d, w.open[id].actor) {
      assert Still(w.open[id].seen, w.chain, w.open[id].actor);
    }
  }

  lemma {:induction false} RacesStayTidy(c: Chain, es: seq<Race>)
    requires ChainOk(c) && c.status == Pending && forall n :: 0 <= n < |es| ==> OnePerMember(Races(Idle(c), es[..n]))
    ensures Tidy(Races(Idle(c), es))
  {
    if es == [] {
      forall i | 0 <= i < |c.steps| ensures NoRepeats(c.steps[i]) { assert StepOk(c.steps[i]); PendingStep(c, i); }
    } else {
      var n := |es| - 1;
      assert forall i :: 0 <= i < n ==> es[..n][..i] == es[..i];
      RacesStayTidy(c, es[..n]);
      RacesKeep(c, es[..n]);
      MoveStaysTidy(Races(Idle(c), es[..n]), es[n]);
    }
  }

  lemma PendingStep(c: Chain, i: nat)
    requires ChainOk(c) && c.status == Pending && i < |c.steps|
    ensures Clean(c.steps[i]) && (c.steps[i].status == Waiting || IsOpen(c.steps[i]) || c.steps[i].status == Approved)
  {
    var k: nat :| AsksAt(c, k);
    assert StepOk(c.steps[i]);
  }

  /** However approvals overlap, as long as no member has two under way at once, no step is approved
      without its required number of different eligible people. */
  lemma RacesNeverApproveShort(c: Chain, es: seq<Race>, k: nat)
    requires ChainOk(c) && c.status == Pending && forall n :: 0 <= n < |es| ==> OnePerMember(Races(Idle(c), es[..n]))
    requires k < |Races(Idle(c), es).chain.steps| && Races(Idle(c), es).chain.steps[k].status == Approved
    ensures var s := Races(Idle(c), es).chain.steps[k];
            |Actors(s.actions)| >= Required(s) && forall m :: m in Actors(s.actions) ==> m in s.eligible
  {
    RacesKeep(c, es);
    RacesStayTidy(c, es);
    var s := Races(Idle(c), es).chain.steps[k];
    assert Sound(s) && NoRepeats(s);
    ActorsOfClean(s);
  }

  // ---- When a step can be approved short ----------------------------------------------------------

  ghost predicate Short(c: Chain) {
    exists i :: 0 <= i < |c.steps| && ShortStep(c.steps[i])
  }

  ghost predicate ShortStep(s: Step) {
    s.status == Approved && |Actors(s.actions)| < Required(s)
  }

  /** Everybody who acted on `t` since `s` had not acted on `s`. */
  ghost predicate Newcomers(s: Step, t: Step) {
    |s.actions| <= |t.actions| && forall i :: |s.actions| <= i < |t.actions| ==> !HasActed(s, t.actions[i].actor)
  }

  /** The step has an escalation to come. */
  predicate CanWiden(s: Step) {
    && (s.status == Active || s.status == Waiting) && s.dueAt.Some?
    && s.escalation.Some? && Added(s.eligible, s.escalation.value) != []
  }

  /** The most approvals the step can come to ask for. */
  function Ceiling(s: Step): nat {
    if CanWiden(s) then Required(Widened(s)) else Required(s)
  }

  ghost predicate WidenedSince(s: Step, t: Step) {
    && s.stepType == t.stepType && s.quorum == t.quorum && s.dueAt == t.dueAt && s.escalation == t.escalation
    && (t.eligible == s.eligible || (CanWiden(s) && t.eligible == Widened(s).eligible && t.status != Active && t.status != Waiting))
    && (t.status == Active || t.status == Waiting ==> s.status == Active || s.status == Waiting)
  }

  /** What holds of a step since the start, where it was `s`: it escalated at most once, new approvals are
      by newcomers, and it is approved with two of them unless fewer were asked for. */
  ghost predicate Since(s: Step, t: Step) {
    && s.actions <= t.actions && WidenedSince(s, t) && Newcomers(s, t)
    && (t.status == Approved ==> |Actors(t.actions)| >= Required(t) || |Actors(t.actions)| >= |s.actions| + 2)
  }

  ghost predicate AllSince(c: Chain, d: Chain) {
    |c.steps| == |d.steps| && forall i {:trigger Since(c.steps[i], d.steps[i])} :: 0 <= i < |c.steps| ==> Since(c.steps[i], d.steps[i])
  }

  lemma ActorsGrow(a: seq<Entry>, b: seq<Entry>)
    requires a <= b
    ensures Actors(a) <= Actors(b) && |Actors(a)| <= |Actors(b)|
  {
    forall m | m in Actors(a) ensures m in Actors(b) {
      var i :| 0 <= i < |a| && a[i].actor == m;
      assert b[i].actor == m;
    }
    assert Actors(b) == Actors(a) + (Actors(b) - Actors(a));
  }

  /** One more actor than there were, if `m` is new. */
  lemma OneMoreActor(s: Step, b: seq<Entry>, m: Member)
    requires s.actions <= b && !HasActed(s, m) && m in Actors(b)
    ensures |Actors(b)| >= |Actors(s.actions)| + 1
  {
    ActorsGrow(s.actions, b);
    assert Actors(s.actions) + {m} <= Actors(b);
    assert Actors(b) == (Actors(s.actions) + {m}) + (Actors(b) - (Actors(s.actions) + {m}));
  }

  /** The completing approval: whoever it read was there, and so is at least one newcomer if the step
      had grown. */
  lemma CompletionHasTwo(s: Step, seen: Step, t: Step, m: Member)
    requires Clean(s) && Since(s, seen) && seen.actions <= t.actions && !HasActed(seen, m)
    requires |seen.actions| + 1 >= Required(seen) && Required(seen) == Required(t)
    ensures var b := t.actions + [Entry(m, Approve)]; |Actors(b)| >= Required(t) || |Actors(b)| >= |s.actions| + 2
  {
    var b := t.actions + [Entry(m, Approve)];
    assert b[|t.actions|].actor == m && seen.actions <= b;
    OneMoreActor(seen, b, m);
    ActorsOfClean(s);
    if |seen.actions| > |s.actions| {
      var x := seen.actions[|s.actions|].actor;
      OneMoreActor(s, seen.actions, x);
    } else {
      assert seen.actions == s.actions;
    }
  }

  lemma NewcomersMore(s: Step, seen: Step, t: Step, u: Step, m: Member)
    requires Newcomers(s, t) && s.actions <= seen.actions && !HasActed(seen, m) && u.actions == t.actions + [Entry(m, Approve)]
    ensures Newcomers(s, u)
  {
    forall j | 0 <= j < |s.actions| ensures s.actions[j].actor != m { assert seen.actions[j] == s.actions[j]; }
  }

  lemma RecordedSince(s: Step, seen: Step, t: Step, m: Member)
    requires Since(s, seen) && Since(s, t) && !HasActed(seen, m)
    ensures Since(s, WithApproval(t, m))
  {
    NewcomersMore(s, seen, t, WithApproval(t, m), m);
    ActorsGrow(t.actions, WithApproval(t, m).actions);
  }

  lemma CompletedSince(s: Step, seen: Step, t: Step, u: Step, m: Member)
    requires Clean(s) && Since(s, seen) && Since(s, t) && seen.actions <= t.actions && !HasActed(seen, m)
    requires |seen.actions| + 1 >= Required(seen) && Required(seen) == Required(t) == Required(u)
    requires u.actions == t.actions + [Entry(m, Approve)] && u == t.(actions := u.actions, status := u.status, version := u.version)
    requires u.status == Approved
    ensures Since(s, u)
  {
    NewcomersMore(s, seen, t, u, m);
    CompletionHasTwo(s, seen, t, m);
  }

  lemma RecordingSince(c: Chain, now: Chain, seen: Chain, k: nat, m: Member)
    requires AllSince(c, now) && AllSince(c, seen) && k < |c.steps| && !HasActed(seen.steps[k], m)
    ensures AllSince(c, now.(steps := now.steps[k := WithApproval(now.steps[k], m)]))
  {
    var d := now.(steps := now.steps[k := WithApproval(now.steps[k], m)]);
    assert Since(c.steps[k], seen.steps[k]) && Since(c.steps[k], now.steps[k]);
    RecordedSince(c.steps[k], seen.steps[k], now.steps[k], m);
    forall i | 0 <= i < |c.steps| ensures Since(c.steps[i], d.steps[i]) { assert Since(c.steps[i], now.steps[i]); }
  }

  lemma OpenedSince(s: Step, t: Step)
    requires Since(s, t) && t.status == Waiting
    ensures Since(s, Closed(t, Active))
  {}

  lemma CompletingSince(c: Chain, now: Chain, seen: Chain, k: nat, m: Member)
    requires ChainOk(c) && c.status == Pending && AllSince(c, now) && AllSince(c, seen) && Moved(seen, now)
    requires Ordered(now.steps) && now.status == Pending && AsksAt(now, k) && !HasActed(seen.steps[k], m)
    requires |seen.steps[k].actions| + 1 >= Required(seen.steps[k]) && Required(seen.steps[k]) == Required(now.steps[k])
    ensures AllSince(c, Advanced(now.(steps := ActedSteps(now, k, m)), now.steps[k].sequence))
  {
    var d := Advanced(now.(steps := ActedSteps(now, k, m)), now.steps[k].sequence);
    CompletingOpensTheNext(now, k, m);
    assert Since(c.steps[k], seen.steps[k]) && Since(c.steps[k], now.steps[k]) && StepMoved(seen.steps[k], now.steps[k]);
    PendingStep(c, k);
    CompletedSince(c.steps[k], seen.steps[k], now.steps[k], d.steps[k], m);
    forall i | 0 <= i < |c.steps| ensures Since(c.steps[i], d.steps[i]) {
      assert Since(c.steps[i], now.steps[i]);
      if i == k + 1 { OpenedSince(c.steps[i], now.steps[i]); }
    }
  }

  lemma CommitSince(c: Chain, now: Chain, seen: Chain, m: Member)
    requires ChainOk(c) && c.status == Pending && AllSince(c, now) && AllSince(c, seen)
    requires Loose(now) && Loose(seen) && Moved(seen, now)
    ensures AllSince(c, Committed(now, seen, m))
  {
    var o := CommitHas(now, seen, m);
    match o
    case Nothing =>
    case Recorded(k) => RecordingSince(c, now, seen, k, m);
    case Completed(k) =>
      assert StepMoved(seen.steps[k], now.steps[k]);
      CompletingSince(c, now, seen, k, m);
  }

  lemma {:induction false} RacesSince(c: Chain, es: seq<Race>)
    requires ChainOk(c) && c.status == Pending
    ensures AllSince(c, Races(Idle(c), es).chain)
    ensures forall id :: id in Races(Idle(c), es).open ==> AllSince(c, Races(Idle(c), es).open[id].seen)
  {
    if es == [] {
      forall i | 0 <= i < |c.steps| ensures Since(c.steps[i], c.steps[i]) {
        PendingStep(c, i);
        ActorsOfClean(c.steps[i]);
        assert StepOk(c.steps[i]);
      }
    } else {
      var (w, e) := (Races(Idle(c), es[..|es| - 1]), es[|es| - 1]);
      RacesSince(c, es[..|es| - 1]);
      RacesKeep(c, es[..|es| - 1]);
      if e.Commits? && e.id in w.open { CommitSince(c, w.chain, w.open[e.id].seen, w.open[e.id].actor); }
      if e.Escalates? { EscalateSince(c, w.chain, e.k, e.now); }
    }
  }

  lemma EscalateSince(c: Chain, d: Chain, k: nat, now: int)
    requires AllSince(c, d)
    ensures AllSince(c, EscalatedAt(d, k, now))
  {
    var e := EscalatedAt(d, k, now);
    forall i | 0 <= i < |c.steps| ensures Since(c.steps[i], e.steps[i]) { assert Since(c.steps[i], d.steps[i]); }
  }

  lemma CeilingHolds(s: Step, t: Step)
    requires WidenedSince(s, t)
    ensures Required(t) <= Ceiling(s)
  {}

  /** Three more approvals are wanted, or will be if an escalation comes, now or from a later step. */
  ghost predicate WantsThree(c: Chain, k: nat)
    requires k < |c.steps|
  {
    |c.steps[k].actions| + 3 <= Ceiling(c.steps[k]) || exists j :: k < j < |c.steps| && Ceiling(c.steps[j]) >= 3
  }

  lemma NeverShort(c: Chain, k: nat, es: seq<Race>)
    requires ChainOk(c) && c.status == Pending && AsksAt(c, k) && !WantsThree(c, k)
    ensures !Short(Races(Idle(c), es).chain)
  {
    RacesSince(c, es);
    RacesKeep(c, es);
    var d := Races(Idle(c), es).chain;
    forall i | 0 <= i < |d.steps| ensures !ShortStep(d.steps[i]) {
      assert Since(c.steps[i], d.steps[i]) && StepMoved(c.steps[i], d.steps[i]) && StepOk(c.steps[i]);
      CeilingHolds(c.steps[i], d.steps[i]);
      if i < k && d.steps[i].status == Approved {
        ActorsOfClean(c.steps[i]);
        ActorsGrow(c.steps[i].actions, d.steps[i].actions);
      }
    }
  }

  // ---- Serial progress ----------------------------------------------------------------------------

  /** A transaction that nothing overlaps is an ordinary action. */
  lemma AloneIsActing(c: Chain, k: nat, m: Member)
    requires k < |c.steps| && IndexOfSequence(c.steps, c.current) == Some(k)
    requires ActProblem(c, Some(m), Approve) == None
    ensures Committed(c, c, m) == Acted(c, Some(m), Approve)
    ensures Races(Idle(c), [Begins(0, m), Commits(0)]) == Idle(Acted(c, Some(m), Approve))
  {
    var es := [Begins(0, m), Commits(0)];
    assert es[..1] == [Begins(0, m)] && es[..1][..0] == [];
    assert Races(Idle(c), es[..1]) == World(c, map[0 := Tx(m, c)]);
    assert map[0 := Tx(m, c)] - {0} == map[];
  }

  /** One serial approval: the step asked is the same or the next. */
  lemma OneStepOn(c: Chain, k: nat, m: Member)
    requires ChainOk(c) && c.status == Pending && AsksAt(c, k) && k + 1 < |c.steps|
    requires ActProblem(c, Some(m), Approve) == None
    ensures var d := Acted(c, Some(m), Approve);
            && ChainOk(d) && d.status == Pending && |d.steps| == |c.steps| && Measure(d) < Measure(c)
            && (AsksAt(d, k) || AsksAt(d, k + 1))
            && forall j :: k < j < |c.steps| ==> Ceiling(d.steps[j]) == Ceiling(c.steps[j]) && d.steps[j].actions == []
  {
    AskedIsFound(c, k);
    ActKeeps(c, Some(m), Approve);
    MeasureNonNegative(c);
    ApprovalUsesFuel(c, k, m);
    LaterStepsWait(c, k, m);
  }

  lemma LaterStepsWait(c: Chain, k: nat, m: Member)
    requires ChainOk(c) && c.status == Pending && AsksAt(c, k) && k + 1 < |c.steps|
    requires IndexOfSequence(c.steps, c.current) == Some(k) && ActProblem(c, Some(m), Approve) == None
    ensures var d := Acted(c, Some(m), Approve);
            && d.status == Pending && |d.steps| == |c.steps| && (AsksAt(d, k) || AsksAt(d, k + 1))
            && forall j :: k < j < |c.steps| ==> Ceiling(d.steps[j]) == Ceiling(c.steps[j]) && d.steps[j].actions == []
  {
    var d := Acted(c, Some(m), Approve);
    if Completes(c.steps[k]) {
      NextOpens(c, k, m);
    } else {
      assert AsksAt(d, k);
    }
    forall j | k < j < |c.steps| ensures Ceiling(d.steps[j]) == Ceiling(c.steps[j]) && d.steps[j].actions == [] {
      assert StepOk(c.steps[j]);
    }
  }

  lemma NextOpens(c: Chain, k: nat, m: Member)
    requires Ordered(c.steps) && c.status == Pending && AsksAt(c, k) && k + 1 < |c.steps|
    ensures var d := Advanced(c.(steps := ActedSteps(c, k, m)), c.steps[k].sequence);
            && d.status == Pending && |d.steps| == |c.steps| && AsksAt(d, k + 1) && d.steps[k + 1] == Closed(c.steps[k + 1], Active)
            && forall j :: k + 1 < j < |c.steps| ==> d.steps[j] == c.steps[j]
  {
    CompletingOpensTheNext(c, k, m);
  }

  /** Serial approvals lead to any later step, with nobody having acted on it. */
  lemma {:induction false} Reaching(c: Chain, k: nat, j: nat) returns (es: seq<Race>, d: Chain)
    requires ChainOk(c) && c.status == Pending && AsksAt(c, k) && k <= j < |c.steps|
    ensures Races(Idle(c), es) == Idle(d) && ChainOk(d) && d.status == Pending && AsksAt(d, j)
    ensures Ceiling(d.steps[j]) == Ceiling(c.steps[j])
    ensures d.steps[j].actions == if j == k then c.steps[j].actions else []
    decreases Measure(c)
  {
    if j == k {
      es, d := [], c;
    } else {
      var m := SomebodyCanAct(c);
      AskedIsFound(c, k);
      AloneIsActing(c, k, m);
      OneStepOn(c, k, m);
      MeasureNonNegative(Acted(c, Some(m), Approve));
      var rest;
      rest, d := Reaching(Acted(c, Some(m), Approve), if AsksAt(Acted(c, Some(m), Approve), k) then k else k + 1, j);
      es := [Begins(0, m), Commits(0)] + rest;
      RacesThen(Idle(c), [Begins(0, m), Commits(0)], rest);
    }
  }

  /** Let the step being asked escalate if it can; after that it asks for as much as it ever will. */
  lemma EscalatedFully(c: Chain, k: nat) returns (es: seq<Race>, d: Chain)
    requires ChainOk(c) && c.status == Pending && AsksAt(c, k)
    ensures Races(Idle(c), es) == Idle(d) && ChainOk(d) && d.status == Pending && AsksAt(d, k)
    ensures Required(d.steps[k]) == Ceiling(c.steps[k]) && !CanWiden(d.steps[k]) && d.steps[k].actions == c.steps[k].actions
  {
    if CanWiden(c.steps[k]) {
      var due := c.steps[k].dueAt.value;
      es, d := [Escalates(k, due)], EscalatedAt(c, k, due);
      assert es[..0] == [];
      EscalateKeeps(c, k, due);
      assert d.steps[k] == Widened(c.steps[k]) && AsksAt(d, k);
    } else {
      es, d := [], c;
    }
  }

  // ---- Everybody at once --------------------------------------------------------------------------

  /** Everybody reads, then everybody commits; the same member may appear more than once. */
  function AllAtOnce(actors: seq<Member>): seq<Race> {
    seq(|actors|, i requires 0 <= i < |actors| => Begins(i, actors[i]))
    + seq(|actors|, i requires 0 <= i < |actors| => Commits(i))
  }

  /** Transactions `a` up to `b`, all having read `c`. */
  function Reading(c: Chain, actors: seq<Member>, a: nat, b: nat): map<nat, Tx>
    requires b <= |actors|
  {
    map i: nat | a <= i < b :: Tx(actors[i], c)
  }

  lemma {:induction false} AllRead(c: Chain, actors: seq<Member>, n: nat)
    requires n <= |actors|
    ensures Races(Idle(c), AllAtOnce(actors)[..n]) == World(c, Reading(c, actors, 0, n))
  {
    var es := AllAtOnce(actors);
    if n == 0 {
      assert Reading(c, actors, 0, 0) == map[];
    } else {
      AllRead(c, actors, n - 1);
      assert es[..n][..n - 1] == es[..n - 1] && es[..n][n - 1] == Begins(n - 1, actors[n - 1]);
      assert Reading(c, actors, 0, n) == Reading(c, actors, 0, n - 1)[n - 1 := Tx(actors[n - 1], c)];
    }
  }

  lemma NextCommit(c: Chain, actors: seq<Member>, n: nat, chain: Chain)
    requires n < |actors|
    requires Races(Idle(c), AllAtOnce(actors)[..|actors| + n]) == World(chain, Reading(c, actors, n, |actors|))
    ensures Races(Idle(c), AllAtOnce(actors)[..|actors| + n + 1])
         == World(Committed(chain, c, actors[n]), Reading(c, actors, n + 1, |actors|))
  {
    var (es, t) := (AllAtOnce(actors), |actors| + n);
    assert es[..t + 1][..t] == es[..t] && es[..t + 1][t] == Commits(n);
    assert Reading(c, actors, n, |actors|) - {n} == Reading(c, actors, n + 1, |actors|);
  }

  lemma AllCommitted(c: Chain, actors: seq<Member>, n: nat, chain: Chain)
    requires n == |actors|
    requires Races(Idle(c), AllAtOnce(actors)[..|actors| + n]) == World(chain, Reading(c, actors, n, |actors|))
    ensures Races(Idle(c), AllAtOnce(actors)) == Idle(chain)
  {
    assert AllAtOnce(actors)[..|actors| + n] == AllAtOnce(actors);
    assert Reading(c, actors, n, |actors|) == map[];
  }

  /** The step after all of them approved, in turn. */
  function WithApprovals(s: Step, actors: seq<Member>): Step {
    if actors == [] then s else WithApproval(WithApprovals(s, actors[..|actors| - 1]), actors[|actors| - 1])
  }

  lemma {:induction false} ApprovalsAdded(s: Step, actors: seq<Member>)
    ensures var t := WithApprovals(s, actors);
            && t == s.(actions := t.actions) && |t.actions| == |s.actions| + |actors| && s.actions <= t.actions
            && (forall i :: 0 <= i < |actors| ==> t.actions[|s.actions| + i] == Entry(actors[i], Approve))
            && forall m :: HasActed(t, m) <==> HasActed(s, m) || m in actors
  {
    if actors != [] {
      var (front, last) := (actors[..|actors| - 1], actors[|actors| - 1]);
      ApprovalsAdded(s, front);
      assert actors == front + [last];
      OneMoreEntry(WithApprovals(s, front), WithApprovals(s, actors), last);
    }
  }

  /** None of them reads enough to complete the step, so all are recorded. */
  lemma {:induction false} NobodyCompletes(c: Chain, k: nat, actors: seq<Member>, n: nat)
    requires k < |c.steps| && IndexOfSequence(c.steps, c.current) == Some(k) && n <= |actors| && !Completes(c.steps[k])
    requires forall i :: 0 <= i < |actors| ==> ActProblem(c, Some(actors[i]), Approve) == None
    ensures var chain := c.(steps := c.steps[k := WithApprovals(c.steps[k], actors[..n])]);
            Races(Idle(c), AllAtOnce(actors)[..|actors| + n]) == World(chain, Reading(c, actors, n, |actors|))
  {
    if n == 0 {
      AllRead(c, actors, |actors|);
      assert c.steps[k := c.steps[k]] == c.steps;
    } else {
      NobodyCompletes(c, k, actors, n - 1);
      NextIsRecorded(c, k, actors, n - 1);
    }
  }

  lemma NextIsRecorded(c: Chain, k: nat, actors: seq<Member>, n: nat)
    requires k < |c.steps| && IndexOfSequence(c.steps, c.current) == Some(k) && n < |actors| && !Completes(c.steps[k])
    requires ActProblem(c, Some(actors[n]), Approve) == None
    requires var chain := c.(steps := c.steps[k := WithApprovals(c.steps[k], actors[..n])]);
             Races(Idle(c), AllAtOnce(actors)[..|actors| + n]) == World(chain, Reading(c, actors, n, |actors|))
    ensures var chain := c.(steps := c.steps[k := WithApprovals(c.steps[k], actors[..n + 1])]);
            Races(Idle(c), AllAtOnce(actors)[..|actors| + n + 1]) == World(chain, Reading(c, actors, n + 1, |actors|))
  {
    NextCommit(c, actors, n, c.(steps := c.steps[k := WithApprovals(c.steps[k], actors[..n])]));
    OneMoreRecorded(c, k, actors[..n], actors[n]);
    assert actors[..n + 1] == actors[..n] + [actors[n]];
  }

  lemma OneMoreRecorded(c: Chain, k: nat, before: seq<Member>, m: Member)
    requires k < |c.steps| && IndexOfSequence(c.steps, c.current) == Some(k) && !Completes(c.steps[k])
    requires ActProblem(c, Some(m), Approve) == None
    ensures Committed(c.(steps := c.steps[k := WithApprovals(c.steps[k], before)]), c, m)
         == c.(steps := c.steps[k := WithApprovals(c.steps[k], before + [m])])
  {
    var s := WithApprovals(c.steps[k], before);
    assert (before + [m])[..|before|] == before;
    assert c.steps[k := s][k := WithApproval(s, m)] == c.steps[k := WithApproval(s, m)];
  }

  lemma AllRecorded(c: Chain, k: nat, actors: seq<Member>)
    requires k < |c.steps| && IndexOfSequence(c.steps, c.current) == Some(k) && !Completes(c.steps[k])
    requires forall i :: 0 <= i < |actors| ==> ActProblem(c, Some(actors[i]), Approve) == None
    ensures Races(Idle(c), AllAtOnce(actors)) == Idle(c.(steps := c.steps[k := WithApprovals(c.steps[k], actors)]))
  {
    var n := |actors|;
    var chain := c.(steps := c.steps[k := WithApprovals(c.steps[k], actors[..n])]);
    assert actors[..n] == actors;
    NobodyCompletes(c, k, actors, n);
    AllCommitted(c, actors, n, chain);
  }

  // ---- Short: the other half ----------------------------------------------------------------------

  lemma NewApprover(s: Step, m: Member) returns (other: Member)
    requires Clean(s) && Distinct(s.eligible) && |s.actions| + 1 < |s.eligible|
    ensures other in s.eligible && !HasActed(s, other) && other != m
  {
    ActorsOfClean(s);
    var everyone := set x | x in s.eligible;
    DistinctCount(s.eligible, everyone);
    var used := Actors(s.actions) + {m};
    if everyone <= used {
      FullSubset(everyone, used);
      assert false;
    }
    other :| other in everyone && other !in used;
    assert !HasActed(s, other);
  }

  lemma FewActors(s: Step, actors: seq<Member>, m: Member, other: Member)
    requires Clean(s) && forall i :: 0 <= i < |actors| ==> actors[i] == m
    ensures |Actors(WithApprovals(s, actors).actions + [Entry(other, Approve)])| <= |s.actions| + 2
  {
    ApprovalsAdded(s, actors);
    ActorsOfClean(s);
    var (t, u) := (WithApprovals(s, actors), WithApprovals(s, actors).actions + [Entry(other, Approve)]);
    forall x | x in Actors(u) ensures x in Actors(s.actions) + {m, other} {
      var i :| 0 <= i < |u| && u[i].actor == x;
      if i < |s.actions| {
        assert s.actions[i] == u[i];
      } else if i < |t.actions| {
        assert t.actions[|s.actions| + (i - |s.actions|)] == Entry(actors[i - |s.actions|], Approve);
      }
    }
    SubsetIsNoLarger(Actors(u), Actors(s.actions) + {m, other});
  }

  lemma SubsetIsNoLarger(a: set<Member>, b: set<Member>)
    requires a <= b
    ensures |a| <= |b|
  {
    assert b == a + (b - a);
  }

  lemma AllApprovals(s: Step, actors: seq<Member>)
    requires Clean(s)
    ensures forall i :: 0 <= i < |WithApprovals(s, actors).actions| ==> WithApprovals(s, actors).actions[i].action == Approve
  {
    ApprovalsAdded(s, actors);
    var t := WithApprovals(s, actors);
    forall i | 0 <= i < |t.actions| ensures t.actions[i].action == Approve {
      if i < |s.actions| {
        assert t.actions[i] == s.actions[i];
      } else {
        assert t.actions[|s.actions| + (i - |s.actions|)] == Entry(actors[i - |s.actions|], Approve);
      }
    }
  }

  /** One member's overlapping approvals count as many, and somebody else completes the step. */
  lemma RepeatsApproveShort(c: Chain, k: nat) returns (es: seq<Race>)
    requires ChainOk(c) && c.status == Pending && AsksAt(c, k) && |c.steps[k].actions| + 3 <= Required(c.steps[k])
    ensures Short(Races(Idle(c), es).chain)
  {
    var s := c.steps[k];
    var m := SomebodyCanAct(c);
    AskedIsFound(c, k);
    assert StepOk(s);
    CompletesIsRequired(s);
    var actors := seq(Required(s) - |s.actions| - 1, _ => m);
    var t := WithApprovals(s, actors);
    var d := c.(steps := c.steps[k := t]);
    AllRecorded(c, k, actors);
    ApprovalsAdded(s, actors);
    AllApprovals(s, actors);
    CompletesIsRequired(t);
    var other := NewApprover(s, m);
    es := AllAtOnce(actors) + [Begins(0, other), Commits(0)];
    RacesThen(Idle(c), AllAtOnce(actors), [Begins(0, other), Commits(0)]);
    LastOneCompletes(d, k, other);
    FewActors(s, actors, m, other);
    assert ShortStep(Races(Idle(c), es).chain.steps[k]);
  }

  lemma LastOneCompletes(d: Chain, k: nat, other: Member)
    requires Ordered(d.steps) && AsksAt(d, k) && d.status == Pending && Completes(d.steps[k])
    requires other in d.steps[k].eligible && !HasActed(d.steps[k], other)
    ensures var f := Races(Idle(d), [Begins(0, other), Commits(0)]).chain;
            |f.steps| == |d.steps| && f.steps[k] == Closed(WithApproval(d.steps[k], other), Approved)
  {
    AskedIsFound(d, k);
    AloneIsActing(d, k, other);
    NextIsTheFollowing(d, ActedSteps(d, k, other), k);
  }

  /** Exactly when overlapping approvals, several by one member included, can approve a step without
      its required number of different people: when three more are wanted now or by a later step, or will
      be once it escalates. */
  lemma ShortExactlyWhen(c: Chain, k: nat)
    requires ChainOk(c) && c.status == Pending && AsksAt(c, k)
    ensures (exists es :: Short(Races(Idle(c), es).chain)) <==> WantsThree(c, k)
  {
    if WantsThree(c, k) {
      var j := k;
      if |c.steps[k].actions| + 3 > Ceiling(c.steps[k]) {
        j :| k < j < |c.steps| && Ceiling(c.steps[j]) >= 3;
      }
      var before, d := Reaching(c, k, j);
      var wide, f := EscalatedFully(d, j);
      var es := RepeatsApproveShort(f, j);
      RacesThen(Idle(c), before, wide);
      RacesThen(Idle(c), before + wide, es);
      assert Short(Races(Idle(c), before + wide + es).chain);
    } else {
      forall es ensures !Short(Races(Idle(c), es).chain) { NeverShort(c, k, es); }
    }
  }

  function EscalationSize(r: ResolvedStep): nat {
    if r.dueAt.Some? && r.escalation.Some? then |r.escalation.value| else 0
  }

  /** SINGLE, PARALLEL_ANY, a quorum of two, and a PARALLEL_ALL of two counting whom it can escalate to, are
      safe under any overlap. */
  lemma SmallStepsAreNeverShort(steps: seq<ResolvedStep>, es: seq<Race>)
    requires Resolved(steps)
    requires forall i :: 0 <= i < |steps| ==>
      (steps[i].stepType == ParallelAll ==> |steps[i].eligible| + EscalationSize(steps[i]) <= 2) && steps[i].quorum <= 2
    ensures !Short(Races(Idle(Open(steps)), es).chain)
  {
    OpenIsOk(steps);
    var c := Open(steps);
    assert AsksAt(c, 0);
    forall i | 0 <= i < |steps| ensures Ceiling(c.steps[i]) <= 2 {
      if steps[i].escalation.Some? { AddedAreNew(steps[i].eligible, steps[i].escalation.value); }
    }
    NeverShort(c, 0, es);
  }

  /** The smallest instance: three have to approve, one approves twice at once, one more completes. */
  lemma ApprovedTwiceByOne() returns (es: seq<Race>)
    ensures var f := Races(Idle(Open([ResolvedStep(1, ParallelAll, 1, [0, 1, 2], None, None)])), es);
            f.open == map[] && f.chain.status == Granted && |f.chain.steps| == 1
            && f.chain.steps[0].actions == [Entry(0, Approve), Entry(0, Approve), Entry(1, Approve)]
  {
    var c := Open([ResolvedStep(1, ParallelAll, 1, [0, 1, 2], None, None)]);
    var s := c.steps[0];
    AllRecorded(c, 0, [0, 0]);
    TwiceRecorded(s);
    var d := c.(steps := c.steps[0 := WithApprovals(s, [0, 0])]);
    RacesThen(Idle(c), AllAtOnce([0, 0]), [Begins(0, 1), Commits(0)]);
    AloneIsActing(d, 0, 1);
    es := AllAtOnce([0, 0]) + [Begins(0, 1), Commits(0)];
  }

  lemma TwiceRecorded(s: Step)
    requires s.actions == []
    ensures WithApprovals(s, [0, 0]) == s.(actions := [Entry(0, Approve), Entry(0, Approve)])
    ensures Approvals([Entry(0, Approve), Entry(0, Approve)]) == 2
  {
    ApprovalsAdded(s, [0, 0]);
    assert [Entry(0, Approve), Entry(0, Approve)][1..] == [Entry(0, Approve)];
  }

  // ---- Left waiting for nobody --------------------------------------------------------------------

  /** Pending, and no approval, rejection or return by anybody would be accepted. */
  ghost predicate Stuck(c: Chain) {
    c.status == Pending && forall m: Member, action: Action :: action != Override ==> ActProblem(c, Some(m), action).Some?
  }

  /** No escalation is to come that would bring somebody in. */
  ghost predicate NothingEscalates(c: Chain) {
    forall k: nat, now: int :: !CanEscalate(c, k, now)
  }

  function YetToAct(s: Step, eligible: seq<Member>): (r: seq<Member>)
    ensures forall m :: m in r <==> m in eligible && !HasActed(s, m)
  {
    if eligible == [] then []
    else (if HasActed(s, eligible[0]) then [] else [eligible[0]]) + YetToAct(s, eligible[1..])
  }

  lemma EverybodyBarred(c: Chain, k: nat, actors: seq<Member>)
    requires ChainOk(c) && c.status == Pending && AsksAt(c, k)
    requires forall m :: m in c.steps[k].eligible && !HasActed(c.steps[k], m) ==> m in actors
    ensures Stuck(c.(steps := c.steps[k := WithApprovals(c.steps[k], actors)]))
  {
    var d := c.(steps := c.steps[k := WithApprovals(c.steps[k], actors)]);
    ApprovalsAdded(c.steps[k], actors);
    assert AsksAt(d, k) && Ordered(d.steps);
    AskedIsFound(d, k);
  }

  /** Everybody left approves at once. */
  lemma OverlapStrands(c: Chain, k: nat) returns (es: seq<Race>)
    requires ChainOk(c) && c.status == Pending && AsksAt(c, k) && |c.steps[k].actions| + 1 < Required(c.steps[k])
    ensures var f := Races(Idle(c), es); f.open == map[] && Stuck(f.chain)
    ensures !CanWiden(c.steps[k]) ==> NothingEscalates(Races(Idle(c), es).chain)
  {
    var s := c.steps[k];
    assert StepOk(s);
    AskedIsFound(c, k);
    CompletesIsRequired(s);
    var actors := YetToAct(s, s.eligible);
    AllRecorded(c, k, actors);
    EverybodyBarred(c, k, actors);
    ApprovalsAdded(s, actors);
    es := AllAtOnce(actors);
  }

  /** No step still to come can ask for two approvals. */
  ghost predicate OneEach(c: Chain) {
    ChainOk(c) && forall i {:trigger StepOk(c.steps[i])} :: 0 <= i < |c.steps| ==> OneAtMost(c.steps[i])
  }

  predicate OneAtMost(s: Step) {
    (IsOpen(s) ==> Ceiling(s) <= |s.actions| + 1) && (s.status == Waiting ==> Ceiling(s) <= 1)
  }

  /** The rows are as they were read, or the chain has moved on, or the step asked has escalated. */
  ghost predicate Behind(seen: Chain, now: Chain) {
    || seen == now || seen.version < now.version
    || (seen.version == now.version && |seen.steps| == |now.steps|
        && forall k: nat :: AsksAt(seen, k) ==> AsksAt(now, k) && now.steps[k].version > seen.steps[k].version)
  }

  /** Then only one transaction of those that read the same rows has any effect. */
  ghost predicate Serialized(w: World) {
    OneEach(w.chain) && forall id :: id in w.open ==> OneEach(w.open[id].seen) && Behind(w.open[id].seen, w.chain)
  }

  lemma SerializedCommit(now: Chain, seen: Chain, m: Member)
    requires OneEach(now) && OneEach(seen) && Behind(seen, now)
    ensures var d := Committed(now, seen, m); OneEach(d) && (d == now || d.version == now.version + 1)
  {
    if ActProblem(seen, Some(m), Approve) == None {
      var k: nat :| AsksAt(seen, k);
      AskedIsFound(seen, k);
      assert StepOk(seen.steps[k]);
      CompletesIsRequired(seen.steps[k]);
      CeilingIsAbove(seen.steps[k]);
      if seen == now { CompletingStaysOneEach(now, k, m); }
    }
  }

  lemma CeilingIsAbove(s: Step)
    ensures Required(s) <= Ceiling(s)
  {}

  lemma CompletingStaysOneEach(c: Chain, k: nat, m: Member)
    requires OneEach(c) && c.status == Pending && AsksAt(c, k) && Completes(c.steps[k]) && ActProblem(c, Some(m), Approve) == None
    ensures var d := Committed(c, c, m); OneEach(d) && d.version == c.version + 1
  {
    AskedIsFound(c, k);
    AloneIsActing(c, k, m);
    ActKeeps(c, Some(m), Approve);
    CompletingLeavesOneAtMost(c, k, m);
  }

  lemma CompletingLeavesOneAtMost(c: Chain, k: nat, m: Member)
    requires OneEach(c) && c.status == Pending && AsksAt(c, k)
    ensures var d := Advanced(c.(steps := ActedSteps(c, k, m)), c.steps[k].sequence);
            d.version == c.version + 1 && forall i :: 0 <= i < |d.steps| ==> OneAtMost(d.steps[i])
  {
    CompletingOpensTheNext(c, k, m);
    var d := Advanced(c.(steps := ActedSteps(c, k, m)), c.steps[k].sequence);
    forall i | 0 <= i < |d.steps| ensures OneAtMost(d.steps[i]) { assert StepOk(c.steps[i]) && OneAtMost(c.steps[i]); }
  }

  lemma EscalatingStaysOneEach(c: Chain, k: nat, now: int)
    requires OneEach(c)
    ensures OneEach(EscalatedAt(c, k, now))
  {
    EscalateKeeps(c, k, now);
    var d := EscalatedAt(c, k, now);
    forall i | 0 <= i < |d.steps| ensures OneAtMost(d.steps[i]) { assert StepOk(c.steps[i]) && OneAtMost(c.steps[i]); }
  }

  lemma EscalatingLeavesBehind(seen: Chain, c: Chain, k: nat, now: int)
    requires ChainOk(c) && Ordered(seen.steps) && Behind(seen, c)
    ensures Behind(seen, EscalatedAt(c, k, now))
  {
    if CanEscalate(c, k, now) {
      var j: nat :| AsksAt(c, j);
      var d := EscalatedAt(c, k, now);
      assert j == k;
      forall i: nat | AsksAt(c, i) ensures i == k && AsksAt(d, i) {}
    }
  }

  lemma {:induction false} RacesSerialize(c: Chain, es: seq<Race>)
    requires OneEach(c)
    ensures Serialized(Races(Idle(c), es))
  {
    if es != [] {
      var (w, e) := (Races(Idle(c), es[..|es| - 1]), es[|es| - 1]);
      RacesSerialize(c, es[..|es| - 1]);
      if e.Commits? && e.id in w.open { SerializedCommit(w.chain, w.open[e.id].seen, w.open[e.id].actor); }
      if e.Escalates? {
        EscalatingStaysOneEach(w.chain, e.k, e.now);
        forall id | id in w.open ensures Behind(w.open[id].seen, EscalatedAt(w.chain, e.k, e.now)) {
          EscalatingLeavesBehind(w.open[id].seen, w.chain, e.k, e.now);
        }
      }
    }
  }

  /** Two more approvals are wanted, or will be if an escalation comes, now or by a later step. */
  ghost predicate WantsTwo(c: Chain, k: nat)
    requires k < |c.steps|
  {
    |c.steps[k].actions| + 1 < Ceiling(c.steps[k]) || exists j :: k < j < |c.steps| && Ceiling(c.steps[j]) > 1
  }

  lemma NeverStuck(c: Chain, k: nat, es: seq<Race>)
    requires ChainOk(c) && c.status == Pending && AsksAt(c, k) && !WantsTwo(c, k)
    ensures !Stuck(Races(Idle(c), es).chain)
  {
    forall i | 0 <= i < |c.steps| ensures OneAtMost(c.steps[i]) { assert StepOk(c.steps[i]); }
    RacesSerialize(c, es);
    var d := Races(Idle(c), es).chain;
    if d.status == Pending { var m := SomebodyCanAct(d); }
  }

  /** Nothing is under way, nobody may act, and no escalation will help. */
  ghost predicate Stranded(w: World) {
    w.open == map[] && Stuck(w.chain) && NothingEscalates(w.chain)
  }

  /** Exactly when overlapping approvals can leave a chain pending with nobody whose action would be
      accepted, even for good: when two more approvals are wanted now or by a later step, or will be once
      it escalates. Otherwise no schedule does, at any point. */
  lemma StuckExactlyWhen(c: Chain, k: nat)
    requires ChainOk(c) && c.status == Pending && AsksAt(c, k)
    ensures (exists es :: Stuck(Races(Idle(c), es).chain)) <==> WantsTwo(c, k)
    ensures (exists es :: Stranded(Races(Idle(c), es))) <==> WantsTwo(c, k)
  {
    if WantsTwo(c, k) {
      var j := k;
      if |c.steps[k].actions| + 1 >= Ceiling(c.steps[k]) {
        j :| k < j < |c.steps| && Ceiling(c.steps[j]) > 1;
      }
      var before, d := Reaching(c, k, j);
      var wide, f := EscalatedFully(d, j);
      var es := OverlapStrands(f, j);
      RacesThen(Idle(c), before, wide);
      RacesThen(Idle(c), before + wide, es);
      assert Stranded(Races(Idle(c), before + wide + es)) && Stuck(Races(Idle(c), before + wide + es).chain);
    } else {
      forall es ensures !Stuck(Races(Idle(c), es).chain) { NeverStuck(c, k, es); }
    }
  }

  lemma LaterCommit(now: Chain, seen: Chain, k: nat, m: Member)
    requires k < |seen.steps| && IndexOfSequence(seen.steps, seen.current) == Some(k) && Completes(seen.steps[k])
    requires now.version != seen.version
    ensures Committed(now, seen, m) == now
  {}

  lemma {:induction false} FirstCompletes(c: Chain, k: nat, actors: seq<Member>, n: nat, done: Chain)
    requires k < |c.steps| && IndexOfSequence(c.steps, c.current) == Some(k) && Completes(c.steps[k])
    requires 1 <= n <= |actors| && Committed(c, c, actors[0]) == done && done.version != c.version
    ensures Races(Idle(c), AllAtOnce(actors)[..|actors| + n]) == World(done, Reading(c, actors, n, |actors|))
  {
    if n == 1 {
      AllRead(c, actors, |actors|);
      NextCommit(c, actors, 0, c);
    } else {
      FirstCompletes(c, k, actors, n - 1, done);
      NextCommit(c, actors, n - 1, done);
      LaterCommit(done, c, k, actors[n - 1]);
    }
  }

  lemma CompletingMovesVersion(c: Chain, k: nat, m: Member)
    requires k < |c.steps| && IndexOfSequence(c.steps, c.current) == Some(k) && Completes(c.steps[k])
    requires ActProblem(c, Some(m), Approve) == None
    ensures Acted(c, Some(m), Approve).version == c.version + 1
  {}

  /** The schedule in which everybody who may act reads before anybody commits ends stuck exactly when
      no single one of those approvals would have been enough. */
  lemma StuckAllAtOnceExactlyWhen(c: Chain, k: nat, actors: seq<Member>)
    requires ChainOk(c) && c.status == Pending && AsksAt(c, k) && actors != []
    requires forall m :: m in actors <==> ActProblem(c, Some(m), Approve) == None
    ensures Stuck(Races(Idle(c), AllAtOnce(actors)).chain) <==> |c.steps[k].actions| + 1 < Required(c.steps[k])
  {
    assert StepOk(c.steps[k]);
    CompletesIsRequired(c.steps[k]);
    AskedIsFound(c, k);
    if Completes(c.steps[k]) {
      var done := Acted(c, Some(actors[0]), Approve);
      AloneIsActing(c, k, actors[0]);
      CompletingMovesVersion(c, k, actors[0]);
      FirstCompletes(c, k, actors, |actors|, done);
      AllCommitted(c, actors, |actors|, done);
      ActKeeps(c, Some(actors[0]), Approve);
      if done.status == Pending { var m := SomebodyCanAct(done); }
    } else {
      AllRecorded(c, k, actors);
      EverybodyBarred(c, k, actors);
    }
  }

  /** The smallest instance: two have to approve, both do at once, and nobody can act any more. */
  lemma TwoApproversStrandAChain()
    ensures var f := Races(Idle(Open([ResolvedStep(1, ParallelAll, 1, [0, 1], None, None)])), AllAtOnce([0, 1]));
            f.open == map[] && Stuck(f.chain) && |f.chain.steps| == 1
            && f.chain.steps[0].actions == [Entry(0, Approve), Entry(1, Approve)]
  {
    var c := Open([ResolvedStep(1, ParallelAll, 1, [0, 1], None, None)]);
    OpenIsOk([ResolvedStep(1, ParallelAll, 1, [0, 1], None, None)]);
    assert AsksAt(c, 0);
    AllRecorded(c, 0, [0, 1]);
    EverybodyBarred(c, 0, [0, 1]);
    BothRecorded(c.steps[0]);
  }

  lemma BothRecorded(s: Step)
    requires s.actions == []
    ensures WithApprovals(s, [0, 1]) == s.(actions := [Entry(0, Approve), Entry(1, Approve)])
  {
    ApprovalsAdded(s, [0, 1]);
  }
}
