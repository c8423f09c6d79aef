/** Whole runs of all scopes of a host between purges: attempts of different
    scopes interleave step by step with one another, with anybody's retention
    passes, with reboots and with the recovery after them.  Whatever any pass
    removed, each scope's latest deployed release keeps its image and its bundle,
    and its decrypted secrets too unless it still awaits recovery. */
module RetentionRuns {
  import opened Outcomes
  import opened Ledger
  import opened NginxState
  import opened Retention
  import opened Sequences
  import LR = LedgerRuns
  import D = Deployment

  /** Where the holder of a scope's lock is.  A killed attempt is `Idle`: its
      lock is free and its record stays as it was. */
  datatype Phase = Idle | Underway(record: Record, started: bool) | JustDeployed

  /** `awaiting`: since the last reboot the scope was neither recovered nor
      deployed. */
  datatype ScopeState = ScopeState(
    ledger: Records,
    phase: Phase,
    holds: set<string>,
    bundles: set<string>,
    secrets: set<Id>,
    awaiting: bool)

  datatype Fleet = Fleet(scopes: map<Scope, ScopeState>, images: set<string>)

  datatype Step =
    | Acquire(own: Scope)
    | Write(own: Scope, record: Record)
    | Start(own: Scope)
    | Touch(own: Scope)
    | Update(own: Scope, record: Record)
    | Commit(own: Scope, record: Record)
    | Retain(own: Scope, depth: nat)
    | Stop(own: Scope)
    | RecoverSecrets(own: Scope)
    | Reboot
    | End(own: Scope)

  ghost function LedgersOf(f: Fleet): Ledgers {
    map s <- f.scopes :: f.scopes[s].ledger
  }

  /** Images some running container holds: Docker will not remove them. */
  ghost function Held(f: Fleet): set<string> {
    set s <- f.scopes, image <- f.scopes[s].holds :: image
  }

  /** One step of the scope that holds its own lock: from `a` to `b`, with the
      shared images going from `f.images` to `images`. */
  ghost predicate ScopeStep(f: Fleet, step: Step, a: ScopeState, b: ScopeState, images: set<string>) {
    match step
    case Acquire(_) =>  // stage the bundle, pull the image, decrypt the secrets
      && b == a.(bundles := b.bundles, secrets := b.secrets) && a.phase.Idle?
      && a.bundles <= b.bundles && a.secrets <= b.secrets && f.images <= images
    case Write(_, p) =>
      && a.phase.Idle? && images == f.images
      && b == a.(ledger := a.ledger + [p], phase := Underway(p, false))
      && p.status == Prepared && p.previous == LR.IdOf(LatestDeployed(a.ledger)) && Pinned(p.image)
      && (forall r <- a.ledger :: r.updated < p.updated && r.id != p.id)
      && p.bundle in a.bundles && p.id in a.secrets
    case Start(_) =>  // needs the image it starts
      && a.phase.Underway? && images == f.images && a.phase.record.image.reference in f.images
      && b == a.(phase := Underway(a.phase.record, true), holds := {a.phase.record.image.reference})
    case Touch(_) =>  // a start that failed, or an undo: containers may be anything
      && a.phase.Underway? && images == f.images
      && b == a.(phase := Underway(a.phase.record, false), holds := b.holds)
    case Update(_, r) =>
      && a.phase.Underway? && images == f.images && a.ledger != []
      && b == a.(ledger := Front(a.ledger) + [r])
      && SameIdentity(Last(a.ledger), r) && r.status != Deployed && Last(a.ledger).updated <= r.updated
    case Commit(_, r) =>
      && a.phase.Underway? && a.phase.started && images == f.images && a.ledger != []
      && b == a.(ledger := Front(a.ledger) + [r], phase := JustDeployed, awaiting := false)
      && SameIdentity(Last(a.ledger), r) && Successful(r) && Last(a.ledger).updated <= r.updated
    case Retain(own, n) =>  // any part of what the pass may remove
      && a.phase.JustDeployed? && n >= 1 && a.ledger != [] && own in f.scopes
      && b == a.(phase := Idle, bundles := b.bundles, secrets := b.secrets)
      && Spares(LedgersOf(f), own, Last(a.ledger).id, n, a.bundles, b.bundles, a.secrets, b.secrets)
      && SparesImages(LedgersOf(f), own, n, Held(f), f.images, images)
    case Stop(_) =>  // retire takes an idle scope's containers down
      b == a.(holds := b.holds) && a.phase.Idle? && b.holds <= a.holds && images == f.images
    case RecoverSecrets(_) =>  // writes the secrets of the release it selects, if it selects one
      && a.phase.Idle? && images == f.images
      && b == Recovered(a)
    case Reboot => false  // not a step of one scope
    case End(_) =>
      b == a.(phase := Idle) && images == f.images
  }

  /** The secrets of the release that recovery selects are written again; when it
      selects none, or refuses, nothing is. */
  ghost function Recovered(s: ScopeState): ScopeState {
    match SelectRecovery(s.ledger)
    case Recover(r) => s.(secrets := s.secrets + {r.id}, awaiting := false)
    case _ => s
  }

  /** The processes die and the runtime secrets, kept in memory, are gone;
      Docker starts the containers again as they were. */
  ghost function Rebooted(s: ScopeState): ScopeState {
    s.(phase := Idle, secrets := {}, awaiting := true)
  }

  ghost predicate Next(f: Fleet, step: Step, f': Fleet) {
    f'.scopes.Keys == f.scopes.Keys &&
    if step.Reboot? then
      f'.images == f.images && forall s <- f.scopes :: f'.scopes[s] == Rebooted(f.scopes[s])
    else
      && step.own in f.scopes
      && (forall s <- f.scopes | s != step.own :: f'.scopes[s] == f.scopes[s])
      && ScopeStep(f, step, f.scopes[step.own], f'.scopes[step.own], f'.images)
  }

  ghost predicate IsRun(fleets: seq<Fleet>, steps: seq<Step>) {
    && |fleets| == |steps| + 1
    && (forall s <- fleets[0].scopes ::
         fleets[0].scopes[s].ledger == [] && fleets[0].scopes[s].phase.Idle? && !fleets[0].scopes[s].awaiting)
    && forall i | 0 <= i < |steps| :: StepAt(fleets, steps, i)
  }

  ghost predicate StepAt(fleets: seq<Fleet>, steps: seq<Step>, i: nat)
    requires |fleets| == |steps| + 1 && i < |steps|
  {
    Next(fleets[i], steps[i], fleets[i + 1])
  }

  // ------------------------------------------------------ the invariant

  /** Everything a restore of this release reaches for is on the host. */
  ghost predicate Available(s: ScopeState, images: set<string>, r: Record) {
    Kept(s, images, r) && r.id in s.secrets
  }

  /** What a reboot leaves. */
  ghost predicate Kept(s: ScopeState, images: set<string>, r: Record) {
    r.image.reference in images && r.bundle in s.bundles
  }

  ghost predicate AvailableUnlessAwaiting(s: ScopeState, images: set<string>, r: Record) {
    Kept(s, images, r) && (!s.awaiting ==> r.id in s.secrets)
  }

  ghost predicate LedgerSound(records: Records) {
    && (forall r <- records :: Pinned(r.image) && (r.status == Deployed ==> r.health == Succeeded))
    && (forall i, j | 0 <= i < j < |records| :: records[i].id != records[j].id)
  }

  ghost predicate PhaseSound(s: ScopeState, images: set<string>) {
    match s.phase
    case Idle => true
    case JustDeployed => !s.awaiting && s.ledger != [] && LatestDeployed(s.ledger) == Some(Last(s.ledger))
    case Underway(p, started) =>
      && s.ledger != [] && SameIdentity(p, Last(s.ledger)) && Last(s.ledger).status != Deployed
      && (forall r <- Front(s.ledger) :: r.updated < Last(s.ledger).updated)
      && p.previous == LR.IdOf(LatestDeployed(Front(s.ledger)))
      && p.bundle in s.bundles && p.id in s.secrets
      && (started ==> p.image.reference in images && p.image.reference in s.holds)
  }

  ghost predicate ScopeSound(s: ScopeState, images: set<string>) {
    && LedgerSound(s.ledger)
    && PhaseSound(s, images)
    && (LatestDeployed(s.ledger).Some? ==> AvailableUnlessAwaiting(s, images, LatestDeployed(s.ledger).value))
  }

  ghost predicate Inv(f: Fleet) {
    forall s <- f.scopes :: ScopeSound(f.scopes[s], f.images)
  }

  /** Every step but retention leaves images alone or adds some; then only the
      acting scope has anything to show. */
  lemma OrdinaryStep(f: Fleet, step: Step, a: ScopeState, b: ScopeState, images: set<string>)
    requires ScopeSound(a, f.images) && ScopeStep(f, step, a, b, images) && !step.Retain?
    ensures ScopeSound(b, images) && f.images <= images
  {
    match step
    case Write(_, p) => WriteIsSound(a, p);
    case Update(_, r) => ReplaceIsSound(a, r);
    case Commit(_, r) => ReplaceIsSound(a, r);
    case _ =>
  }

  lemma WriteIsSound(a: ScopeState, p: Record)
    requires LedgerSound(a.ledger) && Pinned(p.image) && p.status == Prepared
    requires forall r <- a.ledger :: r.updated < p.updated && r.id != p.id
    ensures LedgerSound(a.ledger + [p]) && LatestDeployed(a.ledger + [p]) == LatestDeployed(a.ledger)
    ensures Front(a.ledger + [p]) == a.ledger && Last(a.ledger + [p]) == p
  {
  }

  lemma ReplaceIsSound(a: ScopeState, r: Record)
    requires LedgerSound(a.ledger) && a.ledger != [] && SameIdentity(Last(a.ledger), r)
    requires Last(a.ledger).status != Deployed && Last(a.ledger).updated <= r.updated
    requires forall x <- Front(a.ledger) :: x.updated < Last(a.ledger).updated
    requires r.status == Deployed ==> r.health == Succeeded
    ensures var ledger := Front(a.ledger) + [r];
            && LedgerSound(ledger) && Front(ledger) == Front(a.ledger) && Last(ledger) == r
            && LatestDeployed(ledger) == (if r.status == Deployed then Some(r) else LatestDeployed(a.ledger))
            && LatestDeployed(a.ledger) == LatestDeployed(Front(a.ledger))
  {
  }

  /** A pass cannot take another scope's latest image, nor a started one. */
  lemma RetentionSparesOthers(f: Fleet, own: Scope, n: nat, images: set<string>, other: Scope)
    requires own in f.scopes && other in f.scopes && n >= 1
    requires ScopeSound(f.scopes[other], f.images) && LedgerSound(f.scopes[own].ledger)
    requires SparesImages(LedgersOf(f), own, n, Held(f), f.images, images)
    ensures LatestDeployed(f.scopes[other].ledger).Some? ==>
            LatestDeployed(f.scopes[other].ledger).value.image.reference in images
    ensures f.scopes[other].phase.Underway? && f.scopes[other].phase.started ==>
            f.scopes[other].phase.record.image.reference in images
  {
    var s, ledgers := f.scopes[other], LedgersOf(f);
    var current := LatestDeployed(s.ledger);
    if current.Some? {
      RetentionHasNoDuplicates(s.ledger, DepthFor(other, own, n));
      ProtectedIsNotOffered(ledgers, own, n, other, current.value.image);
    }
    if s.phase.Underway? && s.phase.started {
      assert s.phase.record.image.reference in Held(f);
    }
  }

  lemma RetentionSparesItself(f: Fleet, step: Step, a: ScopeState, b: ScopeState, images: set<string>)
    requires step.Retain? && step.own in f.scopes && a == f.scopes[step.own]
    requires ScopeSound(a, f.images) && ScopeStep(f, step, a, b, images)
    ensures ScopeSound(b, images)
  {
    RetentionSparesOthers(f, step.own, step.depth, images, step.own);
    RetentionHasNoDuplicates(a.ledger, step.depth);
    var current := Last(a.ledger);
    assert current in SuccessfulReleases(a.ledger);
    assert current.bundle in RetainedBundles(a.ledger, step.depth);
    assert Available(a, f.images, current);
    assert current.id !in a.secrets - b.secrets && current.bundle !in a.bundles - b.bundles;
  }

  lemma ScopeStaysSound(f: Fleet, step: Step, f': Fleet, s: Scope)
    requires !step.Reboot? && Next(f, step, f') && s in f.scopes
    requires ScopeSound(f.scopes[s], f.images) && ScopeSound(f.scopes[step.own], f.images)
    ensures ScopeSound(f'.scopes[s], f'.images)
  {
    var own := step.own;
    if !step.Retain? {
      OrdinaryStep(f, step, f.scopes[own], f'.scopes[own], f'.images);
    } else if s == own {
      RetentionSparesItself(f, step, f.scopes[own], f'.scopes[own], f'.images);
    } else {
      RetentionSparesOthers(f, own, step.depth, f'.images, s);
    }
  }

  lemma RebootStaysSound(s: ScopeState, images: set<string>)
    requires ScopeSound(s, images)
    ensures ScopeSound(Rebooted(s), images)
  {
  }

  lemma StepKeepsInv(f: Fleet, step: Step, f': Fleet)
    requires Inv(f) && Next(f, step, f')
    ensures Inv(f')
  {
    forall s | s in f'.scopes
      ensures ScopeSound(f'.scopes[s], f'.images)
    {
      assert ScopeSound(f.scopes[s], f.images);
      if step.Reboot? {
        RebootStaysSound(f.scopes[s], f.images);
      } else {
        assert ScopeSound(f.scopes[step.own], f.images);
        ScopeStaysSound(f, step, f', s);
      }
    }
  }

  lemma {:induction false} EveryReachableFleet(fleets: seq<Fleet>, steps: seq<Step>, i: nat)
    requires IsRun(fleets, steps) && i < |fleets|
    ensures Inv(fleets[i])
  {
    if i > 0 {
      EveryReachableFleet(fleets, steps, i - 1);
      assert StepAt(fleets, steps, i - 1);
      StepKeepsInv(fleets[i - 1], steps[i - 1], fleets[i]);
    }
  }

  lemma SerialIdsAreUnique(records: Records)
    requires forall i, j | 0 <= i < j < |records| :: records[i].id != records[j].id
    ensures UniqueIds(records)
  {
  }

  /** `find_release_by_id` on a ledger of distinct ids. */
  lemma FindByIdIs(records: Records, r: Record)
    requires UniqueIds(records) && r in records
    ensures FindById(records, Some(r.id)) == Some(r)
  {
  }

  /** Each scope's latest deployed release always has its image and its staged
      bundle on the host, and its decrypted secrets unless the scope awaits
      recovery. */
  lemma LatestIsAlwaysAvailable(fleets: seq<Fleet>, steps: seq<Step>, i: nat, scope: Scope)
    requires IsRun(fleets, steps) && i < |fleets| && scope in fleets[i].scopes
    ensures var s := fleets[i].scopes[scope];
            LatestDeployed(s.ledger).Some? ==>
                AvailableUnlessAwaiting(s, fleets[i].images, LatestDeployed(s.ledger).value)
  {
    EveryReachableFleet(fleets, steps, i);
  }

  /** Only a reboot makes a scope await recovery. */
  lemma {:induction false} AwaitingMeansRebooted(fleets: seq<Fleet>, steps: seq<Step>, j: nat, i: nat, scope: Scope)
    requires IsRun(fleets, steps) && j <= i < |fleets| && scope in fleets[j].scopes
    requires !fleets[j].scopes[scope].awaiting && forall k | j <= k < i :: !steps[k].Reboot?
    ensures scope in fleets[i].scopes && !fleets[i].scopes[scope].awaiting
    decreases i
  {
    if j < i {
      AwaitingMeansRebooted(fleets, steps, j, i - 1, scope);
      assert StepAt(fleets, steps, i - 1);
    }
  }

  /** Between reboots the latest deployed release is available whole: from the
      start of the run, and after a reboot from the moment recovery selected a
      release. */
  lemma AvailableBetweenReboots(fleets: seq<Fleet>, steps: seq<Step>, j: nat, i: nat, scope: Scope)
    requires IsRun(fleets, steps) && j <= i < |fleets| && scope in fleets[j].scopes
    requires || j == 0
             || (steps[j - 1] == RecoverSecrets(scope) && scope in fleets[j - 1].scopes
                 && SelectRecovery(fleets[j - 1].scopes[scope].ledger).Recover?)
    requires forall k | j <= k < i :: !steps[k].Reboot?
    ensures scope in fleets[i].scopes
    ensures var s := fleets[i].scopes[scope];
            LatestDeployed(s.ledger).Some? ==> Available(s, fleets[i].images, LatestDeployed(s.ledger).value)
  {
    if j > 0 {
      assert StepAt(fleets, steps, j - 1);
    }
    AwaitingMeansRebooted(fleets, steps, j, i, scope);
    LatestIsAlwaysAvailable(fleets, steps, i, scope);
  }

  /** So when an attempt fails at any point, `restore_previous_release` finds the
      previous record in the list the attempt read, its image and its bundle, and
      its secrets unless the scope awaits recovery. */
  lemma RestoreFindsEverything(fleets: seq<Fleet>, steps: seq<Step>, i: nat, scope: Scope)
    requires IsRun(fleets, steps) && i < |fleets| && scope in fleets[i].scopes
    requires fleets[i].scopes[scope].phase.Underway? && fleets[i].scopes[scope].phase.record.previous.Some?
    ensures fleets[i].scopes[scope].ledger != []
    ensures var s := fleets[i].scopes[scope];
            var previous := FindById(Front(s.ledger), s.phase.record.previous);
            previous.Some? && Successful(previous.value) && AvailableUnlessAwaiting(s, fleets[i].images, previous.value)
  {
    EveryReachableFleet(fleets, steps, i);
    var s := fleets[i].scopes[scope];
    assert ScopeSound(s, fleets[i].images);
    ReplaceIsSound(s, Last(s.ledger));
    var front := Front(s.ledger);
    SerialIdsAreUnique(s.ledger);
    assert forall r <- front :: r in s.ledger;
    FindByIdIs(front, LatestDeployed(front).value);
  }

  /** On every reachable ledger the retained list respects the depth: the extra
      append for the current release never fires. */
  lemma DepthIsExact(fleets: seq<Fleet>, steps: seq<Step>, i: nat, scope: Scope, n: nat)
    requires IsRun(fleets, steps) && i < |fleets| && scope in fleets[i].scopes && n >= 1
    ensures |RetainedDigests(fleets[i].scopes[scope].ledger, n)| <= n
  {
    EveryReachableFleet(fleets, steps, i);
    var records := fleets[i].scopes[scope].ledger;
    assert LedgerSound(records);
    SerialIdsAreUnique(records);
    RetentionIsBoundedByDepth(records, n);
  }

  // ------------------------------------ the engine's attempts are such steps

  /** The fleet's view of a scope whose attempt at `p` stands at host `h`. */
  ghost predicate Tracks(a: ScopeState, h: Host, p: Record) {
    && a.ledger == h.records && a.ledger != [] && SameIdentity(p, Last(a.ledger))
    && a.phase == (if Last(a.ledger).status == Deployed then JustDeployed else Underway(p, h.containers == Runs(p.id)))
    && (h.containers == Runs(p.id) ==> a.holds == {p.image.reference})
  }

  /** Writing the prepared record is a `Write`. */
  lemma BeginningIsAWrite(f: Fleet, own: Scope, a: ScopeState, containers: Containers, p: Record)
    requires a.phase.Idle? && LR.WellPrepared(a.ledger, p) && Pinned(p.image)
    requires p.bundle in a.bundles && p.id in a.secrets && containers != Runs(p.id)
    ensures var b := a.(ledger := a.ledger + [p], phase := Underway(p, false));
            ScopeStep(f, Write(own, p), a, b, f.images) && Tracks(b, Host(a.ledger + [p], containers), p)
  {
  }

  /** Every later moment of the engine's trail is a `Start`, a `Touch`, an
      `Update` or a `Commit`; a start works only with its image on the host. */
  lemma AttemptStepIsFleetStep(f: Fleet, own: Scope, a: ScopeState, h: Host, h': Host, p: Record)
    returns (step: Step, b: ScopeState)
    requires Tracks(a, h, p) && D.HostStep(h, h') && |h'.records| == |h.records| && h' != h
    requires h'.containers == Runs(p.id) ==> p.image.reference in f.images
    ensures (step.Start? || step.Touch? || step.Update? || step.Commit?) && step.own == own
    ensures ScopeStep(f, step, a, b, f.images) && Tracks(b, h', p)
  {
    if h'.records == h.records {
      if h'.containers == Runs(p.id) {
        step, b := Start(own), a.(phase := Underway(p, true), holds := {p.image.reference});
      } else {
        step, b := Touch(own), a.(phase := Underway(p, false));
      }
    } else {
      var r := Last(h'.records);
      assert h'.records == Front(h.records) + [r];
      if r.status == Deployed {
        step, b := Commit(own, r), a.(ledger := h'.records, phase := JustDeployed, awaiting := false);
      } else {
        step, b := Update(own, r), a.(ledger := h'.records);
      }
    }
  }

  lemma LedgerNeverShrinks(trail: seq<Host>, a: nat, b: nat)
    requires D.LegalTrail(trail) && a <= b < |trail|
    ensures |trail[a].records| <= |trail[b].records|
  {
    if trail[a].records != [] {
      D.RecordsOnlyMoveForward(trail, a, b, |trail[a].records| - 1);
    }
  }

  /** Fleets that follow one another by these steps. */
  ghost predicate IsPath(fleets: seq<Fleet>, steps: seq<Step>) {
    |fleets| == |steps| + 1 && forall i | 0 <= i < |steps| :: StepAt(fleets, steps, i)
  }

  lemma OneStepOn(f: Fleet, own: Scope, h: Host, h': Host, p: Record) returns (step: Step, f': Fleet)
    requires own in f.scopes && Tracks(f.scopes[own], h, p)
    requires D.HostStep(h, h') && |h'.records| == |h.records| && h' != h
    requires h'.containers == Runs(p.id) ==> p.image.reference in f.images
    ensures Next(f, step, f') && own in f'.scopes && Tracks(f'.scopes[own], h', p) && f'.images == f.images
  {
    var b: ScopeState;
    step, b := AttemptStepIsFleetStep(f, own, f.scopes[own], h, h', p);
    f' := f.(scopes := f.scopes[own := b]);
  }

  /** From its prepared record to its end, when the ledger has no more records
      than that, an engine's attempt is a path of the fleet: what
      `EveryReachableFleet` says of steps it says of the engine. */
  lemma {:induction false} AttemptIsAFleetPath(f: Fleet, own: Scope, trail: seq<Host>, p: Record)
    returns (fleets: seq<Fleet>, steps: seq<Step>)
    requires own in f.scopes && trail != [] && Tracks(f.scopes[own], trail[0], p) && D.LegalTrail(trail)
    requires |Last(trail).records| == |trail[0].records|
    requires forall k | 0 <= k < |trail| && trail[k].containers == Runs(p.id) :: p.image.reference in f.images
    ensures IsPath(fleets, steps) && fleets[0] == f && own in Last(fleets).scopes
    ensures Tracks(Last(fleets).scopes[own], Last(trail), p)
    decreases |trail|
  {
    if |trail| == 1 {
      fleets, steps := [f], [];
    } else {
      var rest := trail[1..];
      assert D.HostStep(trail[0], trail[1]);
      LedgerNeverShrinks(trail, 0, 1);
      LedgerNeverShrinks(trail, 1, |trail| - 1);
      assert forall k | 0 < k < |rest| :: rest[k - 1] == trail[k] && rest[k] == trail[k + 1];
      if trail[1] == trail[0] {
        fleets, steps := AttemptIsAFleetPath(f, own, rest, p);
      } else {
        var step, f' := OneStepOn(f, own, trail[0], trail[1], p);
        fleets, steps := AttemptIsAFleetPath(f', own, rest, p);
        PathFrom(f, step, fleets, steps);
        fleets, steps := [f] + fleets, [step] + steps;
      }
    }
  }

  lemma PathFrom(f: Fleet, step: Step, fleets: seq<Fleet>, steps: seq<Step>)
    requires IsPath(fleets, steps) && Next(f, step, fleets[0])
    ensures IsPath([f] + fleets, [step] + steps)
  {
    var all, more := [f] + fleets, [step] + steps;
    forall i | 0 <= i < |more|
      ensures StepAt(all, more, i)
    {
      if i > 0 {
        assert StepAt(fleets, steps, i - 1);
        assert all[i] == fleets[i - 1] && more[i] == steps[i - 1] && all[i + 1] == fleets[i];
      }
    }
  }
}
