/** Whole runs of the proxy: any number of deploy, retire and activation
    transactions of any scopes and any reconciler passes, each complete, failed
    or killed at any write.  The lock serialises them, so a run is a sequence;
    a pass that found the lock taken is a step that changes nothing. */
module NginxRuns {
  import opened Outcomes
  import opened NginxState
  import opened NginxReconcile

  datatype Step =
    | Transact(plan: Plan)
    | Tick(pass: Pass, fault: bool, outcome: Outcome, changed: bool)

  ghost predicate Next(s: State, step: Step, s': State) {
    match step
    case Transact(plan) => Transacted(s, plan, s')
    case Tick(pass, fault, o, changed) => Reconciled(s, pass, fault, s', o, changed)
  }

  ghost predicate IsRun(states: seq<State>, steps: seq<Step>) {
    && |states| == |steps| + 1
    && forall i | 0 <= i < |steps| :: Next(states[i], steps[i], states[i + 1])
  }

  /** With no marker on the disk, ownership is sound and disjoint, and nginx
      runs the fragments that are on the disk. */
  ghost predicate Safe(s: State) {
    !s.disk.pending ==>
      && WellOwned(s.disk.tree)
      && (s.loaded.Some? ==> s.loaded.value.vhosts == s.disk.tree.vhosts && s.loaded.value.auth == s.disk.tree.auth)
  }

  lemma StepKeepsSafe(s: State, step: Step, s': State)
    requires Safe(s) && Next(s, step, s')
    ensures Safe(s')
  {
    match step
    case Transact(plan) =>
      if Admitted(s.disk, plan) && CommittedTo(s, plan, s') {
        CommitKeepsOwnership(s.disk.tree, plan);
      }
    case Tick(pass, fault, o, changed) =>
      ReconcilerLeavesTreesAlone(s, pass, fault, s', o, changed);
  }

  /** The crash invariant, in every reachable state. */
  lemma {:induction false} EveryReachableStateIsSafe(states: seq<State>, steps: seq<Step>, i: nat)
    requires IsRun(states, steps) && Safe(states[0]) && i < |states|
    ensures Safe(states[i])
  {
    if i > 0 {
      EveryReachableStateIsSafe(states, steps, i - 1);
      StepKeepsSafe(states[i - 1], steps[i - 1], states[i]);
    }
  }

  ghost predicate FromManifests(steps: seq<Step>) {
    forall step <- steps | step.Transact? :: ClosedUnderHosts(step.plan.fragments.Keys)
  }

  /** When every plan came from a manifest (retire's empty plan included), hosts
      too have one owner in every reachable state without a marker. */
  lemma {:induction false} EveryReachableStateSeparatesHosts(states: seq<State>, steps: seq<Step>, i: nat)
    requires IsRun(states, steps) && Safe(states[0]) && HostsClosed(states[0].disk.tree) && FromManifests(steps)
    requires i < |states| && !states[i].disk.pending
    ensures HostsClosed(states[i].disk.tree)
    ensures forall s, t | s in states[i].disk.tree.owners && t in states[i].disk.tree.owners && s != t ::
              Hosts(OwnedFragments(states[i].disk.tree, s)) !! Hosts(OwnedFragments(states[i].disk.tree, t))
  {
    EveryReachableStateIsSafe(states, steps, i);
    if i > 0 {
      var s, step, s' := states[i - 1], steps[i - 1], states[i];
      if step.Tick? {
        ReconcilerLeavesTreesAlone(s, step.pass, step.fault, s', step.outcome, step.changed);
      }
      assert step in steps;
      EveryReachableStateSeparatesHosts(states, steps, i - 1);
      if step.Transact? && s'.disk.tree == Committed(s.disk.tree, step.plan) {
        forall o | o in s'.disk.tree.owners
          ensures ClosedUnderHosts(OwnedFragments(s'.disk.tree, o))
        {
          assert o != step.plan.scope ==> ClosedUnderHosts(OwnedFragments(s.disk.tree, o));
        }
      }
    }
    forall s, t | s in states[i].disk.tree.owners && t in states[i].disk.tree.owners && s != t
      ensures Hosts(OwnedFragments(states[i].disk.tree, s)) !! Hosts(OwnedFragments(states[i].disk.tree, t))
    {
      HostsHaveOneOwner(states[i].disk.tree, s, t);
    }
  }

  /** Once a marker is left behind nothing moves again: no transaction is
      admitted and no tick renders, writes or reloads, until an operator acts. */
  lemma {:induction false} MarkerFreezesEverything(states: seq<State>, steps: seq<Step>, i: nat, j: nat)
    requires IsRun(states, steps) && i <= j < |states| && states[i].disk.pending
    ensures states[j] == states[i]
    decreases j
  {
    if i < j {
      MarkerFreezesEverything(states, steps, i, j - 1);
      assert Next(states[j - 1], steps[j - 1], states[j]);
    }
  }

  /** Some scope's ownership file lists the name. */
  ghost predicate Owned(tree: Tree, name: string) {
    exists s <- tree.owners :: OwnsFragment(tree, s, name)
  }

  ghost predicate OwnedFile(tree: Tree, host: string) {
    exists s <- tree.owners :: OwnsAuth(tree, s, host)
  }

  /** A commit leaves nothing behind: an unowned file lay there unowned before,
      with the same bytes. */
  lemma CommitLeavesNothing(tree: Tree, plan: Plan, name: string)
    requires WellOwned(tree)
    ensures var after := Committed(tree, plan);
            && (name in after.vhosts && !Owned(after, name) ==>
                  name in tree.vhosts && tree.vhosts[name] == after.vhosts[name] && !Owned(tree, name))
            && (name in after.auth && !OwnedFile(after, name) ==>
                  name in tree.auth && tree.auth[name] == after.auth[name] && !OwnedFile(tree, name))
  {
    var after := Committed(tree, plan);
    CommitNameByName(tree, plan);
    assert OwnsFragment(after, plan.scope, name) <==> name in plan.fragments;
    assert OwnsAuth(after, plan.scope, name) <==> name in plan.auth;
    forall s | s in tree.owners && s != plan.scope
      ensures OwnsFragment(after, s, name) == OwnsFragment(tree, s, name)
      ensures OwnsAuth(after, s, name) == OwnsAuth(tree, s, name)
    {
    }
  }

  /** Over any run, without a marker, a file that no scope owns was there, with
      these bytes and unowned, at the start: no deploy, failure, crash, retirement
      or tick leaves a file behind. */
  lemma {:induction false} NothingIsLeftBehind(states: seq<State>, steps: seq<Step>, i: nat, name: string)
    requires IsRun(states, steps) && Safe(states[0]) && i < |states| && !states[i].disk.pending
    ensures var tree, first := states[i].disk.tree, states[0].disk.tree;
            && (name in tree.vhosts && !Owned(tree, name) ==>
                  name in first.vhosts && first.vhosts[name] == tree.vhosts[name] && !Owned(first, name))
            && (name in tree.auth && !OwnedFile(tree, name) ==>
                  name in first.auth && first.auth[name] == tree.auth[name] && !OwnedFile(first, name))
  {
    if i > 0 {
      var s, step, s' := states[i - 1], steps[i - 1], states[i];
      EveryReachableStateIsSafe(states, steps, i - 1);
      assert Next(s, step, s');
      if step.Tick? {
        ReconcilerLeavesTreesAlone(s, step.pass, step.fault, s', step.outcome, step.changed);
      }
      NothingIsLeftBehind(states, steps, i - 1, name);
      if s'.disk.tree != s.disk.tree {
        CommitLeavesNothing(s.disk.tree, step.plan, name);
      }
    }
  }

  // ------------------------------------------- what the proxy is serving

  /** The plan is live: owned, and every file is the plan's, byte for byte. */
  ghost predicate Live(tree: Tree, plan: Plan) {
    && plan.scope in tree.owners && tree.owners[plan.scope] == OwnershipOf(plan)
    && (forall n <- plan.fragments :: n in tree.vhosts && tree.vhosts[n] == plan.fragments[n])
    && (forall n <- plan.auth :: n in tree.auth && tree.auth[n] == plan.auth[n])
  }

  ghost predicate Commits(s: State, step: Step, s': State) {
    step.Transact? && s' != s && Admitted(s.disk, step.plan) && CommittedTo(s, step.plan, s')
  }

  /** Each scope's latest committed plan after the first `i` steps. */
  ghost function LatestPlans(states: seq<State>, steps: seq<Step>, i: nat): map<Scope, Plan>
    requires |states| == |steps| + 1 && i < |states|
  {
    if i == 0 then map[]
    else
      var before := LatestPlans(states, steps, i - 1);
      if Commits(states[i - 1], steps[i - 1], states[i]) then before[steps[i - 1].plan.scope := steps[i - 1].plan]
          else before
  }

  /** What that map is: a scope's entry is the plan of the last step that
      committed one for it. */
  lemma {:induction false} LatestPlanIsTheLast(states: seq<State>, steps: seq<Step>, i: nat, k: nat)
    requires |states| == |steps| + 1 && k < i < |states| && Commits(states[k], steps[k], states[k + 1])
    requires forall j | k < j < i && steps[j].Transact? && steps[j].plan.scope == steps[k].plan.scope ::
               !Commits(states[j], steps[j], states[j + 1])
    ensures steps[k].plan.scope in LatestPlans(states, steps, i)
    ensures LatestPlans(states, steps, i)[steps[k].plan.scope] == steps[k].plan
  {
    if k < i - 1 {
      LatestPlanIsTheLast(states, steps, i - 1, k);
    }
  }

  lemma CommitKeepsOthersLive(tree: Tree, plan: Plan, other: Plan)
    requires WellOwned(tree) && Admissible(tree, plan)
    requires Live(tree, other) && other.scope != plan.scope
    ensures Live(Committed(tree, plan), other)
  {
    OthersAreUntouched(tree, plan, other.scope);
  }

  /** In every reachable state without a marker, every scope that ever committed
      is served exactly by its last committed plan: nothing another scope, a
      failed deploy, a crash or the reconciler did shows. */
  lemma {:induction false} ServedIsLastCommitted(states: seq<State>, steps: seq<Step>, i: nat, scope: Scope)
    requires IsRun(states, steps) && Safe(states[0]) && i < |states| && !states[i].disk.pending
    requires scope in LatestPlans(states, steps, i)
    ensures var plan := LatestPlans(states, steps, i)[scope]; plan.scope == scope && Live(states[i].disk.tree, plan)
  {
    if i > 0 {
      var s, step, s' := states[i - 1], steps[i - 1], states[i];
      EveryReachableStateIsSafe(states, steps, i - 1);
      if step.Tick? {
        ReconcilerLeavesTreesAlone(s, step.pass, step.fault, s', step.outcome, step.changed);
      }
      if Commits(s, step, s') && step.plan.scope == scope {
        assert Live(s'.disk.tree, step.plan);
      } else {
        ServedIsLastCommitted(states, steps, i - 1, scope);
        if Commits(s, step, s') {
          CommitKeepsOthersLive(s.disk.tree, step.plan, LatestPlans(states, steps, i)[scope]);
        }
      }
    }
  }

  /** A tick reloads only without a marker, and then nginx loads the last
      committed plan of every scope: never a staged, uncommitted candidate. */
  lemma TickLoadsOnlyCommitted(states: seq<State>, steps: seq<Step>, i: nat, scope: Scope)
    requires IsRun(states, steps) && Safe(states[0]) && i < |steps|
    requires steps[i].Tick? && states[i + 1].loaded != states[i].loaded
    requires scope in LatestPlans(states, steps, i)
    ensures !states[i].disk.pending && !states[i + 1].disk.pending
    ensures var plan := LatestPlans(states, steps, i)[scope];
            && (forall n <- plan.fragments ::
                 n in states[i + 1].loaded.value.vhosts && states[i + 1].loaded.value.vhosts[n] == plan.fragments[n])
            && (forall n <- plan.auth ::
                 n in states[i + 1].loaded.value.auth && states[i + 1].loaded.value.auth[n] == plan.auth[n])
  {
    var step := steps[i];
    assert Next(states[i], step, states[i + 1]);
    ReconcilerLeavesTreesAlone(states[i], step.pass, step.fault, states[i + 1], step.outcome, step.changed);
    ServedIsLastCommitted(states, steps, i, scope);
  }

  // ------------------------------------------------- the digest over runs

  /** Pass `j` of the run put this digest on the disk. */
  ghost predicate Recorded(states: seq<State>, steps: seq<Step>, j: nat, d: Digest)
    requires |states| == |steps| + 1 && j < |steps|
  {
    && steps[j].Tick? && !steps[j].pass.busy && !states[j].disk.pending
    && steps[j].pass.rendered == Some(d.config) && steps[j].pass.before == steps[j].pass.after == d.certificates
    && states[j].disk.reconciled != Some(d) && states[j + 1].disk.reconciled == Some(d)
  }

  /** Every digest on the disk was there at the start, or some pass with that
      render and that certificate fingerprint wrote it. */
  lemma {:induction false} DigestsComeFromPasses(states: seq<State>, steps: seq<Step>, i: nat, d: Digest)
    requires IsRun(states, steps) && i < |states| && states[i].disk.reconciled == Some(d)
    ensures states[0].disk.reconciled == Some(d) || exists j | 0 <= j < i :: Recorded(states, steps, j, d)
  {
    if i > 0 {
      assert Next(states[i - 1], steps[i - 1], states[i]);
      if states[i - 1].disk.reconciled == Some(d) {
        DigestsComeFromPasses(states, steps, i - 1, d);
      } else {
        assert Recorded(states, steps, i - 1, d);
      }
    }
  }

  /** So a tick answers "unchanged" only to a render and certificates that an
      earlier tick of the run recorded, or the start did. */
  lemma UnchangedWasRecorded(states: seq<State>, steps: seq<Step>, i: nat)
    requires IsRun(states, steps) && i < |steps|
    requires steps[i].Tick? && steps[i].outcome.Done? && !steps[i].changed && !steps[i].pass.busy
    ensures steps[i].pass.rendered.Some?
    ensures var d := Digest(steps[i].pass.rendered.value, steps[i].pass.after);
            states[0].disk.reconciled == Some(d) || exists j | 0 <= j < i :: Recorded(states, steps, j, d)
  {
    var step := steps[i];
    assert Next(states[i], step, states[i + 1]);
    DigestHoldsRenderAndCertificates(states[i], step.pass, step.fault, states[i + 1], false);
    DigestsComeFromPasses(states, steps, i, Digest(step.pass.rendered.value, step.pass.after));
  }

  /** No pass met a stale digest, and no digest write raised. */
  ghost predicate DigestsFresh(states: seq<State>, steps: seq<Step>)
    requires |states| == |steps| + 1
  {
    forall i | 0 <= i < |steps| && steps[i].Tick? :: !StaleDigest(states[i], steps[i].pass) && !steps[i].fault
  }

  /** On such runs an "unchanged" tick always speaks the truth about nginx. */
  lemma {:induction false} FreshDigestsStayTrue(states: seq<State>, steps: seq<Step>, i: nat)
    requires IsRun(states, steps) && DigestsFresh(states, steps) && DigestTrue(states[0])
    requires i < |states| && !states[i].disk.pending
    ensures DigestTrue(states[i])
  {
    if i > 0 {
      var s, step, s' := states[i - 1], steps[i - 1], states[i];
      assert Next(s, step, s');
      if step.Tick? {
        ReconcilerLeavesTreesAlone(s, step.pass, step.fault, s', step.outcome, step.changed);
        FreshDigestsStayTrue(states, steps, i - 1);
        DigestSurvivesIffNotStale(s, step.pass);
        assert AlwaysLeavesDigestTrue(s, step.pass);
        assert Reconciled(s, step.pass, false, s', step.outcome, step.changed);
      } else if s' == s {
        FreshDigestsStayTrue(states, steps, i - 1);
      }
    }
  }

  /** It is enough that no tick found, on the disk alone, default.conf different
      from its candidate and the digest taken over the candidate. */
  lemma DiskTestKeepsDigestsTrue(states: seq<State>, steps: seq<Step>, i: nat)
    requires IsRun(states, steps) && DigestTrue(states[0]) && i < |states| && !states[i].disk.pending
    requires forall j | 0 <= j < |steps| && steps[j].Tick? :: !StaleOnDisk(states[j], steps[j].pass) && !steps[j].fault
    ensures DigestTrue(states[i])
  {
    forall j | 0 <= j < |steps| && steps[j].Tick?
      ensures !StaleDigest(states[j], steps[j].pass)
    {
      StaleIsOnDisk(states[j], steps[j].pass);
    }
    FreshDigestsStayTrue(states, steps, i);
  }

  /** Without that condition it does not: a tick loads k, a deploy moves nginx to
      c, a tick whose render is k again dies after writing default.conf, and the
      next tick reports "unchanged" while nginx still runs c. */
  lemma StaleDigestLies() returns (states: seq<State>, steps: seq<Step>)
    ensures IsRun(states, steps) && Safe(states[0]) && DigestTrue(states[0]) && |steps| == 4
    ensures forall step <- steps | step.Tick? :: !step.fault
    ensures var last := steps[3]; last.Tick? && !last.pass.busy && last.outcome.Done? && !last.changed
    ensures !states[4].disk.pending && states[4].loaded.Some? && states[4].loaded.value.config != states[4].disk.config
    ensures steps[2].Tick? && StaleDigest(states[2], steps[2].pass)
  {
    var k, c := Rendering("k", {}), Rendering("c", {"app.example.test"});
    var plan := Plan(Scope("app", "lab"), "1", map["app.example.test" := "x"], map[]);
    var pass := Pass(false, "f", "f", Some(k));
    var s0 := State(Disk(Tree(map[], map[], map[]), false, false, None, None), None);
    var s1 := With(s0, Some(k), Some(DigestOf(pass)), LoadOf(s0, Some(k)));
    var tree := Committed(s1.disk.tree, plan);
    var s2 := State(Disk(tree, false, false, Some(c), s1.disk.reconciled),
        Some(Loaded(Some(c), tree.vhosts, tree.auth)));
    var s3 := With(s2, Some(k), s2.disk.reconciled, s2.loaded);
    assert HostOf("app.example.test") == "app.example.test";
    assert PlanHosts(plan) == {"app.example.test"};
    assert PreviousHosts(s1.disk.tree, plan) == {};
    assert CommittedTo(s1, plan, s2);
    assert Admitted(s1.disk, plan);
    states := [s0, s1, s2, s3, s3];
    steps := [Tick(pass, false, Done, true), Transact(plan), Tick(pass, false, Crashed, false),
        Tick(pass, false, Done, false)];
    assert Next(s0, steps[0], s1);
    assert Next(s1, steps[1], s2);
    assert Next(s2, steps[2], s3);
    assert Next(s3, steps[3], s3);
  }

  /** Ticks alone can do it: one loads k, one for c dies after its reload, one
      for k dies after writing default.conf, and the next reports "unchanged"
      while nginx runs c. */
  lemma TicksAloneCanLie() returns (states: seq<State>, steps: seq<Step>)
    ensures IsRun(states, steps) && Safe(states[0]) && DigestTrue(states[0]) && |steps| == 4
    ensures forall step <- steps :: step.Tick? && !step.fault
    ensures steps[3].outcome.Done? && !steps[3].changed && !steps[3].pass.busy
    ensures states[4].loaded.Some? && states[4].loaded.value.config != states[4].disk.config
  {
    var k, c := Rendering("k", {}), Rendering("c", {});
    var forK, forC := Pass(false, "f", "f", Some(k)), Pass(false, "f", "f", Some(c));
    var s0 := State(Disk(Tree(map[], map[], map[]), false, false, None, None), None);
    var s1 := With(s0, Some(k), Some(DigestOf(forK)), LoadOf(s0, Some(k)));
    var s2 := With(s1, Some(c), s1.disk.reconciled, LoadOf(s1, Some(c)));
    var s3 := With(s2, Some(k), s2.disk.reconciled, s2.loaded);
    states := [s0, s1, s2, s3, s3];
    steps := [Tick(forK, false, Done, true), Tick(forC, false, Crashed, false),
              Tick(forK, false, Crashed, false), Tick(forK, false, Done, false)];
    assert Next(s0, steps[0], s1);
    assert Next(s1, steps[1], s2);
    assert Next(s2, steps[2], s3);
    assert Next(s3, steps[3], s3);
  }
}
