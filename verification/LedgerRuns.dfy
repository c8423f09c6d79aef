/** Whole runs of deploys and rollbacks on one scope that is never retired.

    The scope lock makes a run a sequence of attempts; each may be refused, fail
    at any oracle or die between any two writes (`Ledger.Settles`).  A record
    stuck in `deploying` does not block a deploy under another tag, and nothing
    here assumes that it does. */
module LedgerRuns {
  import opened Outcomes
  import opened Ledger

  datatype Operation = Deploy(request: Request) | Rollback(tag: string)

  ghost predicate Next(h: Host, op: Operation, h': Host) {
    match op
    case Deploy(request) => Deploys(h, request, h')
    case Rollback(tag) => RollsBack(h, tag, h')
  }

  ghost predicate IsRun(hosts: seq<Host>, ops: seq<Operation>) {
    && |hosts| == |ops| + 1
    && hosts[0] == Host([], Down)
    && forall i | 0 <= i < |ops| :: Next(hosts[i], ops[i], hosts[i + 1])
  }

  // ------------------------------------------------------ the invariant

  /** Attempts are serial: each is over, updates included, before the next one
      is created. */
  ghost predicate Serial(records: Records) {
    && (forall i | 0 <= i < |records| :: records[i].created <= records[i].updated)
    && (forall i, j | 0 <= i < j < |records| ::
         records[i].updated < records[j].created && records[i].id != records[j].id)
  }

  ghost predicate SuccessIsProven(records: Records) {
    forall i | 0 <= i < |records| && records[i].status == Deployed ::
      records[i].health == Succeeded && (records[i].migration == Succeeded || records[i].migration == NotRequired)
  }

  function IdOf(r: Option<Record>): Option<Id> {
    if r.Some? then Some(r.value.id) else None
  }

  ghost predicate PreviousIsCurrent(records: Records) {
    forall i | 0 <= i < |records| :: PreviousAt(records, i)
  }

  /** The previous id of record `i` is that of the release current before it. */
  ghost predicate PreviousAt(records: Records, i: nat)
    requires i < |records|
  {
    records[i].previous == IdOf(LatestDeployed(records[..i]))
  }

  /** A tag never names two things. */
  ghost predicate TagsAreFunctional(records: Records) {
    forall i, j | 0 <= i < |records| && 0 <= j < |records| && records[i].tag == records[j].tag ::
      MatchesRequest(records[i], records[j].image.reference, records[j].bundle)
  }

  /** The rollback target of record `i` is an earlier success with the same
      image and bundle. */
  ghost predicate TargetsAt(records: Records, i: nat, j: nat)
    requires i < |records| && j < |records|
  {
    j < i && Targets(records[j], records[i])
  }

  ghost predicate RollbacksHaveTargets(records: Records) {
    forall i | 0 <= i < |records| && records[i].rollbackOf.Some? ::
      records[i].migration == NotRequired && exists j | 0 <= j < |records| :: TargetsAt(records, i, j)
  }

  /** Recovery never names a release that is not the running one, and names
      nothing only when nothing runs. */
  ghost predicate RecoveryIsTrue(h: Host) {
    match SelectRecovery(h.records)
    case Refuse => true
    case Nothing => h.containers == Down
    case Recover(release) => h.containers == Runs(release.id)
  }

  ghost predicate Inv(h: Host) {
    && Serial(h.records)
    && SuccessIsProven(h.records)
    && PreviousIsCurrent(h.records)
    && TagsAreFunctional(h.records)
    && RollbacksHaveTargets(h.records)
    && RecoveryIsTrue(h)
  }

  // ------------------------------------------------- one attempt keeps it

  predicate Targets(r: Record, p: Record) {
    Some(r.id) == p.rollbackOf && Successful(r) && r.image == p.image && r.bundle == p.bundle
  }

  /** What both kinds of attempt write first. */
  ghost predicate WellPrepared(records: Records, p: Record) {
    && p.status == Prepared && p.updated == p.created
    && (forall r <- records :: r.updated < p.created && r.id != p.id)
    && p.previous == IdOf(LatestDeployed(records))
    && (forall r <- records | r.tag == p.tag :: MatchesRequest(r, p.image.reference, p.bundle))
    && (p.rollbackOf.Some? ==> p.migration == NotRequired && exists r <- records :: Targets(r, p))
  }

  lemma DeploysArePrepared(records: Records, request: Request, id: Id, now: nat)
    requires DeployProceeds(records, request) && Fresh(records, id, now) && TagsAreFunctional(records)
    ensures WellPrepared(records, PreparedRelease(request, id, now, LatestDeployed(records)))
  {
    FindByTagIsNewest(records, request.tag);
  }

  lemma RollbacksArePrepared(records: Records, tag: string, id: Id, now: nat)
    requires RollbackProceeds(records, tag) && Fresh(records, id, now)
    ensures WellPrepared(records,
            RollbackRelease(SelectRollback(records, tag).value, LatestDeployed(records).value, id, now))
  {
    SelectRollbackIsNewest(records, tag);
    var target := SelectRollback(records, tag).value;
    assert target in records && Targets(target, RollbackRelease(target, LatestDeployed(records).value, id, now));
  }

  /** The newest record decides who is current exactly when it is deployed. */
  lemma LatestAfter(records: Records, final: Record)
    requires forall r <- records :: r.updated < final.updated
    ensures LatestDeployed(records + [final]) == if final.status == Deployed then Some(final)
            else LatestDeployed(records)
  {
  }

  /** Every search recovery makes, with one more record at the end. */
  lemma SearchesAfter(records: Records, final: Record, current: Record)
    ensures AnyDeploying(records + [final]) <==> AnyDeploying(records) || final.status == Deploying
    ensures AnyUnsuccessful(records + [final]) <==>
            AnyUnsuccessful(records) || final.status == Failed || final.status == RolledBack
    ensures AmbiguousTime(records + [final], current) <==>
            AmbiguousTime(records, current)
                || (final != current && final.status == Deployed && final.updated == current.updated)
    ensures FailureSince(records + [final], current) <==>
            FailureSince(records, current) || (final.updated >= current.updated && final.status == Failed)
    ensures StrayRollbackSince(records + [final], current) <==>
            StrayRollbackSince(records, current)
                || (final.updated >= current.updated && final.status == RolledBack
                     && final.previous != Some(current.id))
  {
  }

  /** What one attempt does to the recovery decision: `prepared` and
      `rolled_back` keep it, `deployed` moves it, the rest make it refuse. */
  lemma RecoveryAfterAttempt(h: Host, p: Record, final: Record, now: Containers)
    requires Serial(h.records) && SuccessIsProven(h.records) && WellPrepared(h.records, p)
    requires Settles(p, h.containers, final, now)
    ensures var was, after := SelectRecovery(h.records), SelectRecovery(h.records + [final]);
            match final.status
            case Prepared => after == was
            case RolledBack => after == was && !was.Nothing?
            case Deployed => after == if AnyDeploying(h.records) then Refuse else Recover(final)
            case _ => after == Refuse
  {
    var records := h.records;
    assert forall r <- records :: r.updated < final.updated;
    LatestAfter(records, final);
    SearchesAfter(records, final, final);
    var current := LatestDeployed(records);
    if current.Some? {
      SearchesAfter(records, final, current.value);
    }
  }

  lemma AttemptKeepsRecovery(h: Host, p: Record, final: Record, now: Containers)
    requires Serial(h.records) && SuccessIsProven(h.records) && RecoveryIsTrue(h)
    requires WellPrepared(h.records, p) && Settles(p, h.containers, final, now)
    ensures RecoveryIsTrue(Host(h.records + [final], now))
  {
    RecoveryAfterAttempt(h, p, final, now);
    LatestAfter(h.records, final);
  }

  lemma AttemptKeepsSerial(h: Host, p: Record, final: Record, now: Containers)
    requires Serial(h.records) && SuccessIsProven(h.records)
    requires WellPrepared(h.records, p) && Settles(p, h.containers, final, now)
    ensures Serial(h.records + [final]) && SuccessIsProven(h.records + [final])
  {
  }

  lemma AttemptKeepsPrevious(records: Records, p: Record, final: Record)
    requires PreviousIsCurrent(records) && p.previous == IdOf(LatestDeployed(records)) && SameIdentity(p, final)
    ensures PreviousIsCurrent(records + [final])
  {
    var records' := records + [final];
    forall i | 0 <= i < |records'|
      ensures PreviousAt(records', i)
    {
      assert i < |records| ==> PreviousAt(records, i);
      assert records'[..i] == if i < |records| then records[..i] else records;
    }
  }

  lemma AttemptKeepsTags(records: Records, p: Record, final: Record)
    requires TagsAreFunctional(records) && WellPrepared(records, p) && SameIdentity(p, final)
    ensures TagsAreFunctional(records + [final])
  {
  }

  lemma AttemptKeepsTargets(records: Records, p: Record, final: Record)
    requires RollbacksHaveTargets(records) && WellPrepared(records, p) && SameIdentity(p, final)
    requires p.migration == NotRequired <==> final.migration == NotRequired
    ensures RollbacksHaveTargets(records + [final])
  {
    var records' := records + [final];
    forall i | 0 <= i < |records'| && records'[i].rollbackOf.Some?
      ensures exists j | 0 <= j < |records'| :: TargetsAt(records', i, j)
    {
      if i < |records| {
        var j :| 0 <= j < |records| && TargetsAt(records, i, j);
        assert TargetsAt(records', i, j);
      } else {
        var r :| r in records && Targets(r, p);
        var j :| 0 <= j < |records| && records[j] == r;
        assert TargetsAt(records', i, j);
      }
    }
  }

  lemma StepKeepsInv(h: Host, op: Operation, h': Host)
    requires Inv(h) && Next(h, op, h')
    ensures Inv(h')
  {
    if h' != h {
      var id, now :| Fresh(h.records, id, now) && Attempted(h, PreparedOf(h.records, op, id, now), h');
      var p := PreparedOf(h.records, op, id, now);
      match op {
        case Deploy(request) => DeploysArePrepared(h.records, request, id, now);
        case Rollback(tag) => RollbacksArePrepared(h.records, tag, id, now);
      }
      var final :| h'.records == h.records + [final] && Settles(p, h.containers, final, h'.containers);
      AttemptKeepsSerial(h, p, final, h'.containers);
      AttemptKeepsPrevious(h.records, p, final);
      AttemptKeepsTags(h.records, p, final);
      AttemptKeepsTargets(h.records, p, final);
      AttemptKeepsRecovery(h, p, final, h'.containers);
    }
  }

  /** The record an admitted operation writes first. */
  ghost function PreparedOf(records: Records, op: Operation, id: Id, now: nat): Record
    requires op.Rollback? ==> RollbackProceeds(records, op.tag)
  {
    match op
    case Deploy(request) => PreparedRelease(request, id, now, LatestDeployed(records))
    case Rollback(tag) => RollbackRelease(SelectRollback(records, tag).value, LatestDeployed(records).value, id, now)
  }

  // ---------------------------------------------------- every reachable one

  lemma {:induction false} EveryReachableLedger(hosts: seq<Host>, ops: seq<Operation>, i: nat)
    requires IsRun(hosts, ops) && i < |hosts|
    ensures Inv(hosts[i])
  {
    if i > 0 {
      EveryReachableLedger(hosts, ops, i - 1);
      StepKeepsInv(hosts[i - 1], ops[i - 1], hosts[i]);
    }
  }

  /** Whenever reboot recovery names a release, its containers are the ones that
      run; whenever it names none and does not refuse, nothing runs. */
  lemma RecoveryNamesTheRunningRelease(hosts: seq<Host>, ops: seq<Operation>, i: nat)
    requires IsRun(hosts, ops) && i < |hosts|
    ensures SelectRecovery(hosts[i].records).Recover? ==>
            hosts[i].containers == Runs(SelectRecovery(hosts[i].records).release.id)
    ensures SelectRecovery(hosts[i].records).Nothing? ==> hosts[i].containers == Down
  {
    EveryReachableLedger(hosts, ops, i);
  }

  /** All records of a tag carry one image reference and one bundle, although a
      deploy compares only with the newest of them. */
  lemma TagNamesOneThing(hosts: seq<Host>, ops: seq<Operation>, i: nat, a: Record, b: Record)
    requires IsRun(hosts, ops) && i < |hosts|
    requires a in hosts[i].records && b in hosts[i].records && a.tag == b.tag
    ensures a.image.reference == b.image.reference && a.bundle == b.bundle
  {
    EveryReachableLedger(hosts, ops, i);
  }

  lemma StepAppends(h: Host, op: Operation, h': Host)
    requires Next(h, op, h')
    ensures h'.records == h.records || exists final :: h'.records == h.records + [final]
  {
  }

  /** The ledger only grows at its end: no later attempt rewrites a record. */
  lemma {:induction false} LedgerOnlyGrows(hosts: seq<Host>, ops: seq<Operation>, i: nat, j: nat)
    requires IsRun(hosts, ops) && i <= j < |hosts|
    ensures hosts[i].records <= hosts[j].records
    decreases j
  {
    if i < j {
      LedgerOnlyGrows(hosts, ops, i, j - 1);
      StepAppends(hosts[j - 1], ops[j - 1], hosts[j]);
    }
  }

  // ------------------------------ the decisions, read off the records alone

  /** Record `c` is the last one that was deployed. */
  ghost predicate LastDeployedAt(records: Records, c: nat) {
    c < |records| && records[c].status == Deployed && forall j | c < j < |records| :: records[j].status != Deployed
  }

  lemma LatestIsLastDeployed(records: Records, c: nat)
    requires Serial(records) && LastDeployedAt(records, c)
    ensures LatestDeployed(records) == Some(records[c])
  {
    var i :| 0 <= i < |records| && records[i] == LatestDeployed(records).value;
  }

  lemma SomeDeployedIsLast(records: Records)
    requires Serial(records) && LatestDeployed(records).Some?
    ensures exists c: nat :: LastDeployedAt(records, c) && LatestDeployed(records) == Some(records[c])
  {
    var c :| 0 <= c < |records| && records[c] == LatestDeployed(records).value;
    assert LastDeployedAt(records, c);
  }

  /** Recovery has nothing to do exactly when no attempt got past `prepared`. */
  lemma NothingToRecoverIff(records: Records)
    ensures SelectRecovery(records).Nothing? <==> forall r <- records :: r.status == Prepared
  {
  }

  /** Record `c` was deployed, nothing after it came to more than an undo, and
      nothing is stuck. */
  ghost predicate StandsAt(records: Records, c: nat) {
    && c < |records| && records[c].status == Deployed
    && (forall j | 0 <= j < c :: records[j].status != Deploying)
    && (forall j | c < j < |records| :: records[j].status == Prepared || records[j].status == RolledBack)
  }

  /** And it was healthy, and every undo after it went back to it. */
  ghost predicate RecoverableAt(records: Records, c: nat) {
    && StandsAt(records, c) && records[c].health == Succeeded
    && forall j | c < j < |records| && records[j].status == RolledBack :: records[j].previous == Some(records[c].id)
  }

  /** The release recovery names, on any ledger of attempts that did not overlap. */
  lemma RecoversIff(records: Records, r: Record)
    requires Serial(records)
    ensures SelectRecovery(records) == Recover(r) <==> exists c: nat :: RecoverableAt(records, c) && records[c] == r
  {
    if SelectRecovery(records) == Recover(r) {
      RecoveredStands(records, r);
    }
    if c: nat :| RecoverableAt(records, c) && records[c] == r {
      StandingIsRecovered(records, c);
    }
  }

  lemma RecoveredStands(records: Records, r: Record)
    requires Serial(records) && SelectRecovery(records) == Recover(r)
    ensures exists c: nat :: RecoverableAt(records, c) && records[c] == r
  {
    var c :| 0 <= c < |records| && records[c] == r;
    forall j | c < j < |records|
      ensures records[j].status == Prepared || (records[j].status == RolledBack && records[j].previous == Some(r.id))
    {
      assert records[j] in records && r.updated < records[j].updated;
    }
    assert RecoverableAt(records, c);
  }

  lemma StandingIsRecovered(records: Records, c: nat)
    requires Serial(records) && RecoverableAt(records, c)
    ensures SelectRecovery(records) == Recover(records[c])
  {
    var current := records[c];
    LatestIsLastDeployed(records, c);
    forall j | 0 <= j < |records|
      ensures Unobjectionable(records[j], current)
    {
      if j < c {
        assert records[j].updated < records[c].created <= current.updated;
      }
    }
    NoObjection(records, current);
  }

  /** Nothing in the record keeps recovery from naming `current`. */
  ghost predicate Unobjectionable(r: Record, current: Record) {
    && r.status != Deploying
    && (r == current || r.updated < current.updated || r.status == Prepared
         || (r.status == RolledBack && r.previous == Some(current.id)))
  }

  lemma NoObjection(records: Records, current: Record)
    requires forall j | 0 <= j < |records| :: Unobjectionable(records[j], current)
    requires current.status == Deployed && current.health == Succeeded && LatestDeployed(records) == Some(current)
    ensures SelectRecovery(records) == Recover(current)
  {
    assert forall r <- records :: Unobjectionable(r, current);
  }

  /** Every record after the standing one was prepared over it. */
  lemma UndoneOver(records: Records, c: nat)
    requires Serial(records) && PreviousIsCurrent(records) && StandsAt(records, c)
    ensures forall j | c < j < |records| :: records[j].previous == Some(records[c].id)
  {
    forall j | c < j < |records|
      ensures records[j].previous == Some(records[c].id)
    {
      assert PreviousAt(records, j);
      PreparedOver(records, c, j);
    }
  }

  lemma PreparedOver(records: Records, c: nat, j: nat)
    requires Serial(records) && StandsAt(records, c) && c < j < |records|
    requires records[j].previous == IdOf(LatestDeployed(records[..j]))
    ensures records[j].previous == Some(records[c].id)
  {
    var before := records[..j];
    assert forall k | 0 <= k < j :: before[k] == records[k];
    assert Serial(before) && LastDeployedAt(before, c);
    LatestIsLastDeployed(before, c);
  }

  /** What reboot recovery answers on any ledger a run can leave: nothing, one
      release, or a refusal of everything else. */
  lemma RecoveryIsExactInEveryRun(hosts: seq<Host>, ops: seq<Operation>, i: nat)
    requires IsRun(hosts, ops) && i < |hosts|
    ensures var records := hosts[i].records;
            match SelectRecovery(records)
            case Nothing => forall r <- records :: r.status == Prepared
            case Recover(r) => exists c: nat :: StandsAt(records, c) && records[c] == r
            case Refuse => (exists r <- records :: r.status != Prepared) && forall c: nat :: !StandsAt(records, c)
  {
    EveryReachableLedger(hosts, ops, i);
    RecoveryIsExact(hosts[i].records);
  }

  /** The three answers exclude one another, so each condition is exact. */
  lemma RecoveryIsExact(records: Records)
    requires Serial(records) && SuccessIsProven(records) && PreviousIsCurrent(records)
    ensures match SelectRecovery(records)
            case Nothing => forall r <- records :: r.status == Prepared
            case Recover(r) => exists c: nat :: StandsAt(records, c) && records[c] == r
            case Refuse => (exists r <- records :: r.status != Prepared) && forall c: nat :: !StandsAt(records, c)
  {
    NothingToRecoverIff(records);
    match SelectRecovery(records)
    case Nothing =>
    case Recover(r) => RecoveredStands(records, r);
    case Refuse =>
      if c: nat :| StandsAt(records, c) {
        UndoneOver(records, c);
        StandingIsRecovered(records, c);
      }
  }

  /** Record `i` is the newest of its tag, whatever became of it. */
  ghost predicate NewestOfTag(records: Records, tag: string, i: nat) {
    i < |records| && records[i].tag == tag && forall j | i < j < |records| :: records[j].tag != tag
  }

  /** A deploy makes an attempt exactly when its tag is new, or when the newest
      record of the tag names the same image and bundle, is not stuck, and is not
      the running release. */
  lemma DeployProceedsIff(records: Records, request: Request)
    requires Serial(records)
    ensures DeployProceeds(records, request) <==>
              || (forall r <- records :: r.tag != request.tag)
              || (exists i: nat ::
                   && NewestOfTag(records, request.tag, i)
                   && records[i].image.reference == request.image.reference && records[i].bundle == request.bundle
                   && records[i].status != Deploying && !LastDeployedAt(records, i))
  {
    var found := FindByTag(records, request.tag);
    FindByTagIsNewest(records, request.tag);
    if found.Some? {
      var i :| 0 <= i < |records| && records[i] == found.value && NewestOfTag(records, request.tag, i);
      assert forall k: nat | NewestOfTag(records, request.tag, k) :: k == i;
      assert records[i].tag == request.tag;
      CurrentIsLastDeployed(records, i);
    }
  }

  lemma CurrentIsLastDeployed(records: Records, i: nat)
    requires Serial(records) && i < |records|
    ensures IsCurrent(records[i], LatestDeployed(records)) <==> LastDeployedAt(records, i)
  {
    if IsCurrent(records[i], LatestDeployed(records)) {
      SomeDeployedIsLast(records);
    }
    if LastDeployedAt(records, i) {
      LatestIsLastDeployed(records, i);
    }
  }

  /** A rollback makes an attempt exactly when no record is stuck, some healthy
      release runs under another tag, and the tag was deployed in health once. */
  lemma RollbackProceedsIff(records: Records, tag: string)
    requires Serial(records)
    ensures RollbackProceeds(records, tag) <==>
              && (forall r <- records :: r.status != Deploying)
              && (exists c: nat ::
                   LastDeployedAt(records, c) && records[c].health == Succeeded && records[c].tag != tag)
              && (exists r <- records :: r.tag == tag && r.status == Deployed && r.health == Succeeded)
  {
    SelectRollbackIsNewest(records, tag);
    if LatestDeployed(records).Some? {
      SomeDeployedIsLast(records);
      var c: nat :| LastDeployedAt(records, c) && LatestDeployed(records) == Some(records[c]);
      if SelectRollback(records, tag).Some? && records[c].health == Succeeded {
        OwnTagIsSelected(records, tag, c);
      }
      assert forall k: nat | LastDeployedAt(records, k) :: k == c;
      forall r | r in records && r.tag == tag && r.status == Deployed && r.health == Succeeded
        ensures SelectRollback(records, tag).Some?
      {
        assert Successful(r);
      }
    }
  }

  /** The target is the running release exactly when the tag is its own. */
  lemma OwnTagIsSelected(records: Records, tag: string, c: nat)
    requires Serial(records) && LastDeployedAt(records, c) && records[c].health == Succeeded
    requires SelectRollback(records, tag).Some?
    ensures SelectRollback(records, tag).value.id == records[c].id <==> records[c].tag == tag
  {
    SelectRollbackIsNewest(records, tag);
    var i :| 0 <= i < |records| && records[i] == SelectRollback(records, tag).value && records[i].tag == tag
      && Successful(records[i])
      && forall j | i < j < |records| :: !(records[j].tag == tag && Successful(records[j]));
    assert Successful(records[c]);
    assert i <= c;
  }

  /** Both gates of the scope, on any ledger a run can leave. */
  lemma GatesAreExactInEveryRun(hosts: seq<Host>, ops: seq<Operation>, i: nat, request: Request, tag: string)
    requires IsRun(hosts, ops) && i < |hosts|
    ensures var records := hosts[i].records;
            && (DeployProceeds(records, request) <==>
                  || (forall r <- records :: r.tag != request.tag)
                  || (exists k: nat ::
                       && NewestOfTag(records, request.tag, k)
                       && records[k].image.reference == request.image.reference
                       && records[k].bundle == request.bundle
                       && records[k].status != Deploying && !LastDeployedAt(records, k)))
            && (RollbackProceeds(records, tag) <==>
                  && (forall r <- records :: r.status != Deploying)
                  && (exists c: nat :: LastDeployedAt(records, c) && records[c].tag != tag)
                  && (exists r <- records :: r.tag == tag && r.status == Deployed))
  {
    EveryReachableLedger(hosts, ops, i);
    DeployProceedsIff(hosts[i].records, request);
    RollbackProceedsIff(hosts[i].records, tag);
  }

  // ------------------------------------------------------------ provenance

  ghost function TargetOf(records: Records, i: nat): (j: nat)
    requires RollbacksHaveTargets(records) && i < |records| && records[i].rollbackOf.Some?
    ensures j < |records| && TargetsAt(records, i, j)
  {
    var j :| 0 <= j < |records| && TargetsAt(records, i, j);
    j
  }

  /** Follow `rollback_of_release_id` from record `i` to the end. */
  ghost function Provenance(records: Records, i: nat): seq<nat>
    requires RollbacksHaveTargets(records) && i < |records|
    decreases i
  {
    if records[i].rollbackOf.None? then [i] else [i] + Provenance(records, TargetOf(records, i))
  }

  /** The chain of any record, rollbacks of rollbacks included, goes strictly
      back in time through successful deployments and ends at a record made by
      a deploy with the same image and bundle. */
  lemma {:induction false} ProvenanceEndsAtADeploy(records: Records, i: nat)
    requires RollbacksHaveTargets(records) && i < |records|
    ensures var chain := Provenance(records, i);
            && chain != [] && chain[0] == i
            && (forall k | 0 <= k < |chain| :: chain[k] < |records|
                  && records[chain[k]].image == records[i].image && records[chain[k]].bundle == records[i].bundle)
            && (forall k | 0 < k < |chain| :: chain[k] < chain[k - 1] && Successful(records[chain[k]])
                  && records[chain[k - 1]].rollbackOf == Some(records[chain[k]].id))
            && records[chain[|chain| - 1]].rollbackOf.None?
    decreases i
  {
    if records[i].rollbackOf.Some? {
      var j := TargetOf(records, i);
      ProvenanceEndsAtADeploy(records, j);
      var rest := Provenance(records, j);
      var chain := Provenance(records, i);
      assert chain == [i] + rest;
      forall k | 0 < k < |chain|
        ensures chain[k] < chain[k - 1] && Successful(records[chain[k]])
                && records[chain[k - 1]].rollbackOf == Some(records[chain[k]].id)
      {
        assert chain[k] == rest[k - 1];
        assert k > 1 ==> chain[k - 1] == rest[k - 2];
      }
    }
  }
}
