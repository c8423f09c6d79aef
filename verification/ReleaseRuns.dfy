/** Whole runs of a host: attempts of every scope, each with its ledger, its
    containers and its transaction on the shared proxy, and reconciler ticks in
    between.  What the ledger calls current, what the proxy serves and what the
    containers run are one release. */
module ReleaseRuns {
  import opened Outcomes
  import opened Ledger
  import N = NginxState
  import NR = NginxRuns
  import R = NginxReconcile
  import LR = LedgerRuns
  import D = Deployment

  datatype Platform = Platform(hosts: map<N.Scope, Host>, proxy: N.State)

  /** `Elsewhere` is any transaction of a scope this model does not follow:
      one that is retired, or being retired. */
  datatype Step =
    | Attempt(scope: N.Scope, op: LR.Operation, id: Id, plan: N.Plan)
    | Elsewhere(plan: N.Plan)
    | Tick(pass: R.Pass, fault: bool, outcome: Outcome, changed: bool)

  /** What one operation of a scope does to its host and to the proxy; the plan
      is built for that scope and for the id of the record. */
  ghost predicate Operates(h: Host, s: N.State, step: Step, h': Host, s': N.State)
    requires step.Attempt?
  {
    && step.plan.scope == step.scope && step.plan.releaseId == IdText(step.id)
    && match step.op
       case Deploy(request) => D.DeploysJointly(h, s, request, step.id, step.plan, h', s')
       case Rollback(tag) => D.RollsBackJointly(h, s, tag, step.id, step.plan, h', s')
  }

  ghost predicate Next(p: Platform, step: Step, p': Platform) {
    match step
    case Attempt(scope, _, _, _) =>
      && scope in p.hosts && p'.hosts.Keys == p.hosts.Keys
      && (forall other <- p.hosts | other != scope :: p'.hosts[other] == p.hosts[other])
      && Operates(p.hosts[scope], p.proxy, step, p'.hosts[scope], p'.proxy)
    case Elsewhere(plan) =>
      p'.hosts == p.hosts && plan.scope !in p.hosts && N.Transacted(p.proxy, plan, p'.proxy)
    case Tick(pass, fault, o, changed) =>
      p'.hosts == p.hosts && R.Reconciled(p.proxy, pass, fault, p'.proxy, o, changed)
  }

  ghost predicate IsRun(platforms: seq<Platform>, steps: seq<Step>) {
    && |platforms| == |steps| + 1
    && Pristine(platforms[0])
    && forall i | 0 <= i < |steps| :: StepAt(platforms, steps, i)
  }

  ghost predicate StepAt(platforms: seq<Platform>, steps: seq<Step>, i: nat)
    requires |platforms| == |steps| + 1 && i < |steps|
  {
    Next(platforms[i], steps[i], platforms[i + 1])
  }

  /** Nothing was ever deployed, and the proxy is in order. */
  ghost predicate Pristine(p: Platform) {
    NR.Safe(p.proxy) && forall scope <- p.hosts ::
        p.hosts[scope] == Host([], Down) && scope !in p.proxy.disk.tree.owners
  }

  // ------------------------------------------------------ the invariant

  ghost predicate Inv(p: Platform) {
    NR.Safe(p.proxy) && forall scope <- p.hosts :: LR.Inv(p.hosts[scope])
  }

  /** A deploy that made a record. */
  lemma SettledDeploy(h: Host, s: N.State, request: Request, id: Id, plan: N.Plan, h': Host, s': N.State)
    returns (prepared: Record, final: Record)
    requires D.DeploysJointly(h, s, request, id, plan, h', s') && h' != h
    ensures D.SettlesJointly(h, s, prepared, plan, final, h', s')
    ensures final.id == id && forall r <- h.records :: r.updated < final.updated
  {
    var current := LatestDeployed(h.records);
    var now :| Fresh(h.records, id, now)
             && D.AttemptedJointly(h, s, PreparedRelease(request, id, now, current), plan, h', s');
    prepared := PreparedRelease(request, id, now, current);
    final :| D.SettlesJointly(h, s, prepared, plan, final, h', s');
  }

  lemma SettledRollback(h: Host, s: N.State, tag: string, id: Id, plan: N.Plan, h': Host, s': N.State)
    returns (prepared: Record, final: Record)
    requires D.RollsBackJointly(h, s, tag, id, plan, h', s') && h' != h
    ensures D.SettlesJointly(h, s, prepared, plan, final, h', s')
    ensures final.id == id && forall r <- h.records :: r.updated < final.updated
  {
    var now :| Fresh(h.records, id, now) && D.AttemptedJointly(h, s, D.RollbackOf(h, tag, id, now), plan, h', s');
    prepared := D.RollbackOf(h, tag, id, now);
    final :| D.SettlesJointly(h, s, prepared, plan, final, h', s');
  }

  /** An attempt that made a record, whichever kind it was. */
  lemma Settled(h: Host, s: N.State, step: Step, h': Host, s': N.State) returns (prepared: Record, final: Record)
    requires step.Attempt? && Operates(h, s, step, h', s') && h' != h
    ensures D.SettlesJointly(h, s, prepared, step.plan, final, h', s')
    ensures final.id == step.id && forall r <- h.records :: r.updated < final.updated
  {
    match step.op
    case Deploy(request) => prepared, final := SettledDeploy(h, s, request, step.id, step.plan, h', s');
    case Rollback(tag) => prepared, final := SettledRollback(h, s, tag, step.id, step.plan, h', s');
  }

  lemma HostKeepsInv(h: Host, s: N.State, step: Step, h': Host, s': N.State)
    requires step.Attempt? && Operates(h, s, step, h', s') && LR.Inv(h)
    ensures LR.Inv(h') && N.Transacted(s, step.plan, s')
  {
    match step.op {
      case Deploy(request) => D.JointDeployIsBoth(h, s, request, step.id, step.plan, h', s');
      case Rollback(tag) => D.JointRollbackIsBoth(h, s, tag, step.id, step.plan, h', s');
    }
    LR.StepKeepsInv(h, step.op, h');
  }

  lemma StepKeepsInv(p: Platform, step: Step, p': Platform)
    requires Inv(p) && Next(p, step, p')
    ensures Inv(p') && (p.proxy.disk.pending ==> p'.proxy.disk.pending)
  {
    match step
    case Attempt(scope, _, _, plan) =>
      HostKeepsInv(p.hosts[scope], p.proxy, step, p'.hosts[scope], p'.proxy);
      NR.StepKeepsSafe(p.proxy, NR.Transact(plan), p'.proxy);
    case Elsewhere(plan) =>
      NR.StepKeepsSafe(p.proxy, NR.Transact(plan), p'.proxy);
    case Tick(pass, fault, o, changed) =>
      NR.StepKeepsSafe(p.proxy, NR.Tick(pass, fault, o, changed), p'.proxy);
      R.ReconcilerLeavesTreesAlone(p.proxy, pass, fault, p'.proxy, o, changed);
  }

  /** Every ledger, with its containers, and the shared proxy keep their own
      invariants together. */
  lemma {:induction false} EveryReachablePlatform(platforms: seq<Platform>, steps: seq<Step>, i: nat)
    requires IsRun(platforms, steps) && i < |platforms|
    ensures Inv(platforms[i]) && platforms[i].hosts.Keys == platforms[0].hosts.Keys
  {
    if i > 0 {
      EveryReachablePlatform(platforms, steps, i - 1);
      assert StepAt(platforms, steps, i - 1);
      StepKeepsInv(platforms[i - 1], steps[i - 1], platforms[i]);
    }
  }

  // ------------------------------------------------ what the proxy serves

  /** Step `k` is the attempt that made this record of the scope. */
  ghost predicate Made(platforms: seq<Platform>, steps: seq<Step>, k: nat, scope: N.Scope, r: Record)
    requires |platforms| == |steps| + 1 && k < |steps|
  {
    && steps[k].Attempt? && steps[k].scope == scope && steps[k].id == r.id
    && scope in platforms[k].hosts && scope in platforms[k + 1].hosts
    && platforms[k + 1].hosts[scope].records == platforms[k].hosts[scope].records + [r]
  }

  /** And the plan of that attempt is what the tree holds for the scope, owned
      under the record's id. */
  ghost predicate MadeAndServed(platforms: seq<Platform>, steps: seq<Step>, k: nat, scope: N.Scope, r: Record,
      tree: N.Tree)
    requires |platforms| == |steps| + 1 && k < |steps|
  {
    && Made(platforms, steps, k, scope, r)
    && steps[k].plan.scope == scope && steps[k].plan.releaseId == IdText(r.id)
    && NR.Live(tree, steps[k].plan)
  }

  /** The newest deployed release of the scope is served by the plan of its own
      attempt, or there is none and the proxy owns nothing for the scope. */
  ghost predicate Agrees(platforms: seq<Platform>, steps: seq<Step>, i: nat, scope: N.Scope)
    requires |platforms| == |steps| + 1 && i <= |steps| && scope in platforms[i].hosts
  {
    var tree := platforms[i].proxy.disk.tree;
    match LatestDeployed(platforms[i].hosts[scope].records)
    case None => scope !in tree.owners
    case Some(r) => exists k | 0 <= k < i :: MadeAndServed(platforms, steps, k, scope, r, tree)
  }

  /** Whatever another scope's transaction does, without a marker afterwards
      this scope's files and ownership stand. */
  lemma OthersStand(s: N.State, plan: N.Plan, s': N.State, scope: N.Scope)
    requires NR.Safe(s) && N.Transacted(s, plan, s') && !s.disk.pending && !s'.disk.pending && plan.scope != scope
    ensures forall other: N.Plan | other.scope == scope && NR.Live(s.disk.tree, other) :: NR.Live(s'.disk.tree, other)
    ensures scope !in s.disk.tree.owners ==> scope !in s'.disk.tree.owners
  {
    forall other: N.Plan | other.scope == scope && NR.Live(s.disk.tree, other)
      ensures NR.Live(s'.disk.tree, other)
    {
      if s'.disk.tree != s.disk.tree {
        NR.CommitKeepsOthersLive(s.disk.tree, plan, other);
      }
    }
  }

  /** What one step does for one scope: its ledger and what stands for it stay,
      or the step is its attempt and ends deployed with its own plan live, or it
      is its attempt, ends otherwise, and the tree stays. */
  lemma StepForScope(p: Platform, step: Step, p': Platform, scope: N.Scope) returns (made: Option<Record>)
    requires Inv(p) && Next(p, step, p') && scope in p.hosts
    requires !p.proxy.disk.pending && !p'.proxy.disk.pending
    ensures made.Some? ==>
              && step.Attempt? && step.scope == scope && made.value.id == step.id
              && step.plan.scope == scope && step.plan.releaseId == IdText(step.id)
              && p'.hosts[scope].records == p.hosts[scope].records + [made.value]
              && (forall r <- p.hosts[scope].records :: r.updated < made.value.updated)
    ensures made.None? ==> p'.hosts[scope].records == p.hosts[scope].records
    ensures made.Some? && made.value.status == Deployed ==> NR.Live(p'.proxy.disk.tree, step.plan)
    ensures !(made.Some? && made.value.status == Deployed) ==>
              && (scope !in p.proxy.disk.tree.owners ==> scope !in p'.proxy.disk.tree.owners)
              && forall other: N.Plan | other.scope == scope && NR.Live(p.proxy.disk.tree, other) ::
                  NR.Live(p'.proxy.disk.tree, other)
  {
    made := None;
    match step {
      case Attempt(actor, _, _, plan) =>
        var h, h' := p.hosts[actor], p'.hosts[actor];
        if actor == scope {
          if h' != h {
            var prepared, final := Settled(h, p.proxy, step, h', p'.proxy);
            made := Some(final);
          }
        } else {
          HostKeepsInv(h, p.proxy, step, h', p'.proxy);
          OthersStand(p.proxy, plan, p'.proxy, scope);
        }
      case Elsewhere(plan) =>
        OthersStand(p.proxy, plan, p'.proxy, scope);
      case Tick(pass, fault, o, changed) =>
        R.ReconcilerLeavesTreesAlone(p.proxy, pass, fault, p'.proxy, o, changed);
    }
  }

  lemma StepKeepsAgreement(platforms: seq<Platform>, steps: seq<Step>, i: nat, scope: N.Scope)
    requires IsRun(platforms, steps) && i < |steps| && scope in platforms[i].hosts && scope in platforms[i + 1].hosts
    requires Inv(platforms[i]) && !platforms[i].proxy.disk.pending && !platforms[i + 1].proxy.disk.pending
    requires Agrees(platforms, steps, i, scope)
    ensures Agrees(platforms, steps, i + 1, scope)
  {
    var p, step, p' := platforms[i], steps[i], platforms[i + 1];
    assert StepAt(platforms, steps, i);
    var made := StepForScope(p, step, p', scope);
    if made.Some? {
      LR.LatestAfter(p.hosts[scope].records, made.value);
    }
    if made.Some? && made.value.status == Deployed {
      assert MadeAndServed(platforms, steps, i, scope, made.value, p'.proxy.disk.tree);
    } else {
      var latest := LatestDeployed(p.hosts[scope].records);
      if latest.Some? {
        var k :| 0 <= k < i && MadeAndServed(platforms, steps, k, scope, latest.value, p.proxy.disk.tree);
        assert MadeAndServed(platforms, steps, k, scope, latest.value, p'.proxy.disk.tree);
      }
    }
  }

  /** In every reachable state without a marker, the proxy serves each scope,
      byte for byte and under the record's id, the plan of the very attempt that
      made its latest deployed record, and owns nothing for a scope without
      one. */
  lemma {:induction false} LedgerAndProxyAgree(platforms: seq<Platform>, steps: seq<Step>, i: nat, scope: N.Scope)
    requires IsRun(platforms, steps) && i < |platforms| && !platforms[i].proxy.disk.pending
    requires scope in platforms[i].hosts
    ensures Agrees(platforms, steps, i, scope)
  {
    if i > 0 {
      EveryReachablePlatform(platforms, steps, i);
      EveryReachablePlatform(platforms, steps, i - 1);
      MarkerWasNotThere(platforms, steps, i - 1);
      LedgerAndProxyAgree(platforms, steps, i - 1, scope);
      StepKeepsAgreement(platforms, steps, i - 1, scope);
    }
  }

  lemma MarkerWasNotThere(platforms: seq<Platform>, steps: seq<Step>, i: nat)
    requires IsRun(platforms, steps) && i < |steps| && Inv(platforms[i]) && !platforms[i + 1].proxy.disk.pending
    ensures !platforms[i].proxy.disk.pending
  {
    assert StepAt(platforms, steps, i);
    StepKeepsInv(platforms[i], steps[i], platforms[i + 1]);
  }

  /** So a release that reboot recovery names is the one whose containers run
      and the one whose plan the proxy serves. */
  lemma RecoveryNamesTheServedRelease(platforms: seq<Platform>, steps: seq<Step>, i: nat, scope: N.Scope)
    requires IsRun(platforms, steps) && i < |platforms| && !platforms[i].proxy.disk.pending
    requires scope in platforms[i].hosts && SelectRecovery(platforms[i].hosts[scope].records).Recover?
    ensures var r := SelectRecovery(platforms[i].hosts[scope].records).release;
            && platforms[i].hosts[scope].containers == Runs(r.id)
            && exists k | 0 <= k < i :: MadeAndServed(platforms, steps, k, scope, r, platforms[i].proxy.disk.tree)
  {
    EveryReachablePlatform(platforms, steps, i);
    LedgerAndProxyAgree(platforms, steps, i, scope);
    assert LR.RecoveryIsTrue(platforms[i].hosts[scope]);
  }

  /** No other release's id is in the ownership file: ids are spelled apart. */
  lemma OwnershipNamesOneRelease(platforms: seq<Platform>, steps: seq<Step>, i: nat, scope: N.Scope, id: Id)
    requires IsRun(platforms, steps) && i < |platforms| && !platforms[i].proxy.disk.pending
    requires scope in platforms[i].hosts && scope in platforms[i].proxy.disk.tree.owners
    requires platforms[i].proxy.disk.tree.owners[scope].Owns?
    requires platforms[i].proxy.disk.tree.owners[scope].releaseId == IdText(id)
    ensures var latest := LatestDeployed(platforms[i].hosts[scope].records);
            latest.Some? && latest.value.id == id
  {
    LedgerAndProxyAgree(platforms, steps, i, scope);
    var latest := LatestDeployed(platforms[i].hosts[scope].records);
    if latest.Some? {
      IdTextIsInjective(latest.value.id, id);
    }
  }
}
