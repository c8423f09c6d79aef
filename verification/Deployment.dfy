/** Executing a prepared release: ledger updates, migration, containers and the
    nginx transaction, one step at a time, with every oracle free to fail and
    the process free to die between any two writes. */
module Deployment {
  import opened Outcomes
  import opened Ledger
  import opened Sequences
  import N = NginxState
  import T = NginxTransaction

  datatype Event =
    | DumpTaken(id: Id)
    | DumpFailed(id: Id)
    | MigrationRun(id: Id, owned: bool)
    | ContainersTouched(id: Id)

  /** Every migration of a platform-owned database comes after a successful dump
      of the same attempt. */
  ghost predicate DumpsFirst(events: seq<Event>) {
    forall i | 0 <= i < |events| && events[i].MigrationRun? && events[i].owned ::
      DumpTaken(events[i].id) in events[..i]
  }

  /** The events before the first container moves. */
  ghost predicate StartEvents(es: seq<Event>, record: Record, owned: bool) {
    || es == [] || es == DumpEvents(record, owned) || es == MigrationEvents(record, owned)
    || (es == [DumpFailed(record.id)] && owned && record.migration != NotRequired)
  }

  /** The events of one attempt: a dump that failed, or a prefix of dump,
      migration, containers up, containers back. */
  ghost predicate AttemptEvents(es: seq<Event>, record: Record, owned: bool) {
    var migrated := MigrationEvents(record, owned);
    || StartEvents(es, record, owned)
    || es == migrated + [ContainersTouched(record.id)]
    || es == migrated + [ContainersTouched(record.id), ContainersTouched(record.id)]
  }

  // ------------------------------------------------------ ledger updates

  predicate StatusMoves(a: Status, b: Status) {
    || (a == b && (a == Prepared || a == Deploying))
    || (a == Prepared && (b == Failed || b == Deploying))
    || (a == Deploying && (b == Failed || b == RolledBack || b == Deployed))
  }

  /** One replacement of one record. */
  ghost predicate LegalUpdate(a: Record, b: Record) {
    && SameIdentity(a, b)
    && a.updated < b.updated
    && StatusMoves(a.status, b.status)
    && (b.status == Deployed ==> b.health == Succeeded && (b.migration == Succeeded || b.migration == NotRequired))
    && (b.status == RolledBack ==> b.previous.Some?)
  }

  ghost predicate Appends(a: Records, b: Records) {
    |b| == |a| + 1 && a <= b && b[|a|].status == Prepared
  }

  ghost predicate ReplacesLast(a: Records, b: Records) {
    a != [] && |b| == |a| && Front(b) == Front(a) && LegalUpdate(Last(a), Last(b))
  }

  /** The two verdicts that say which release runs are true of the containers. */
  predicate VerdictHolds(r: Record, containers: Containers) {
    && (r.status == Deployed ==> containers == Runs(r.id))
    && (r.status == RolledBack ==> r.previous.Some? && containers == Runs(r.previous.value))
  }

  /** The last record is being deployed: only then may containers move. */
  predicate Moving(records: Records) {
    records != [] && Last(records).status == Deploying
  }

  /** The host after one more step: nothing, containers changed, `prepared` was
      appended, or the last record was replaced legally and truly. */
  ghost predicate HostStep(a: Host, b: Host) {
    || b == a
    || (b.records == a.records && Moving(a.records))
    || (b.containers == a.containers && Appends(a.records, b.records))
    || (b.containers == a.containers && ReplacesLast(a.records, b.records)
         && VerdictHolds(Last(b.records), b.containers))
  }

  ghost predicate LegalTrail(trail: seq<Host>) {
    forall i | 0 < i < |trail| :: HostStep(trail[i - 1], trail[i])
  }

  /** Where a status may be some updates later. */
  predicate StatusReaches(a: Status, b: Status) {
    a == b || a == Prepared || (a == Deploying && b != Prepared)
  }

  /** Over any trail of legal steps a record keeps its place and its identity,
      its status only moves forward and its time never goes back. */
  lemma {:induction false} RecordsOnlyMoveForward(trail: seq<Host>, a: nat, b: nat, i: nat)
    requires LegalTrail(trail) && a <= b < |trail| && i < |trail[a].records|
    ensures i < |trail[b].records| && SameIdentity(trail[a].records[i], trail[b].records[i])
    ensures StatusReaches(trail[a].records[i].status, trail[b].records[i].status)
    ensures trail[a].records[i].updated <= trail[b].records[i].updated
    decreases b
  {
    if a < b {
      RecordsOnlyMoveForward(trail, a, b - 1, i);
      assert HostStep(trail[b - 1], trail[b]);
      SameOrReplaced(trail[b - 1], trail[b], i);
    }
  }

  /** One step leaves a record as it is, or replaces it because it is the last. */
  lemma SameOrReplaced(a: Host, b: Host, i: nat)
    requires HostStep(a, b) && i < |a.records|
    ensures i < |b.records|
    ensures b.records[i] == a.records[i] ||
            (i == |a.records| - 1 && LegalUpdate(a.records[i], b.records[i])
                && VerdictHolds(b.records[i], b.containers))
  {
    if a.records != [] && |b.records| == |a.records| && Front(b.records) == Front(a.records) && i < |a.records| - 1 {
      assert Front(b.records)[i] == Front(a.records)[i];
    }
  }

  /** At this moment record `i` had the status and the containers were these. */
  ghost predicate Witnessed(h: Host, i: nat, status: Status, containers: Containers) {
    i < |h.records| && h.records[i].status == status && h.containers == containers
  }

  /** No trail claims a success or a clean undo that was not reached: when the
      verdict was written the release it names was the one that ran. */
  lemma {:induction false} VerdictsAreProven(trail: seq<Host>, b: nat, i: nat)
    requires LegalTrail(trail) && b < |trail| && trail[0].records == [] && i < |trail[b].records|
    ensures var r := trail[b].records[i];
            && (r.status == Deployed ==>
                  && r.health == Succeeded && (r.migration == Succeeded || r.migration == NotRequired)
                  && exists k | 0 <= k <= b :: Witnessed(trail[k], i, Deployed, Runs(r.id)))
            && (r.status == RolledBack ==>
                  && r.previous.Some?
                  && exists k | 0 <= k <= b :: Witnessed(trail[k], i, RolledBack, Runs(r.previous.value)))
  {
    if b > 0 {
      assert HostStep(trail[b - 1], trail[b]);
      if i < |trail[b - 1].records| {
        VerdictsAreProven(trail, b - 1, i);
        SameOrReplaced(trail[b - 1], trail[b], i);
        if trail[b].records[i] != trail[b - 1].records[i] {
          assert Witnessed(trail[b], i, trail[b].records[i].status, trail[b].containers);
        }
      }
    }
  }

  // ---------------------------------------- ledger and proxy of an attempt

  /** How the proxy stands when an attempt ended with this status. */
  ghost predicate ProxySettles(s: N.State, plan: N.Plan, status: Status, s': N.State) {
    && N.Transacted(s, plan, s')
    && (status == Deployed ==> s'.disk.tree == N.Committed(s.disk.tree, plan) && N.LoadedIsDisk(s'))
    && (status == RolledBack ==> s'.disk.tree == s.disk.tree && N.LoadedIsDisk(s'))
    && (!s'.disk.pending && s'.disk.tree != s.disk.tree ==> status == Deployed)
  }

  /** Record and containers settle, and the proxy stands as the record says. */
  ghost predicate SettlesJointly(h: Host, s: N.State, prepared: Record, plan: N.Plan, final: Record, h': Host,
      s': N.State) {
    && h'.records == h.records + [final]
    && Settles(prepared, h.containers, final, h'.containers)
    && ProxySettles(s, plan, final.status, s')
  }

  ghost predicate AttemptedJointly(h: Host, s: N.State, prepared: Record, plan: N.Plan, h': Host, s': N.State) {
    exists final :: SettlesJointly(h, s, prepared, plan, final, h', s')
  }

  /** `Ledger.Deploys` and `NginxState.Transacted`, of one and the same attempt. */
  ghost predicate DeploysJointly(h: Host, s: N.State, request: Request, id: Id, plan: N.Plan, h': Host, s': N.State) {
    || (h' == h && s' == s)
    || (&& DeployProceeds(h.records, request)
        && exists now :: Fresh(h.records, id, now)
             && AttemptedJointly(h, s, PreparedRelease(request, id, now, LatestDeployed(h.records)), plan, h', s'))
  }

  /** The record a rollback over this host prepares. */
  ghost function RollbackOf(h: Host, tag: string, id: Id, now: nat): Record
    requires RollbackProceeds(h.records, tag)
  {
    RollbackRelease(SelectRollback(h.records, tag).value, LatestDeployed(h.records).value, id, now)
  }

  ghost predicate RollsBackJointly(h: Host, s: N.State, tag: string, id: Id, plan: N.Plan, h': Host, s': N.State) {
    || (h' == h && s' == s)
    || (&& RollbackProceeds(h.records, tag)
        && exists now :: Fresh(h.records, id, now)
             && AttemptedJointly(h, s, RollbackOf(h, tag, id, now), plan, h', s'))
  }

  /** What outcome, events and final record of an attempt say of one another:
      success means deployed, deployed means that dump, migration and start all
      happened, a handled failure never leaves `deploying`, and a failed dump
      leads to its verdict. */
  ghost predicate Concludes(es: seq<Event>, record: Record, owned: bool, o: Outcome, unhandled: bool, final: Record) {
    && AttemptEvents(es, record, owned)
    && (o.Done? ==> final.status == Deployed)
    && (final.status == Deployed ==> es == MigrationEvents(record, owned) + [ContainersTouched(record.id)])
    && (o.Raised? && !unhandled ==> final.status != Deploying)
    && DumpVerdict(es, record, o, unhandled, final)
  }

  /** The previous release runs again and the record says so, or there was none
      and nothing runs. */
  predicate WentBack(r: Record, containers: Containers) {
    if r.previous.Some? then containers == Runs(r.previous.value) && r.status == RolledBack
    else containers == Down && r.status == Failed
  }

  /** After a failure that could be undone: nothing had been touched yet, or
      containers and proxy are back and nginx runs what is on the disk. */
  ghost predicate Mended(was: Containers, s: N.State, final: Record, now: Containers, s': N.State) {
    || (now == was && s' == s && final.status != RolledBack && final.status != Deploying)
    || (WentBack(final, now) && s'.disk.tree == s.disk.tree && !s'.disk.pending && N.LoadedIsDisk(s'))
  }

  lemma DeployIsJoint(h: Host, s: N.State, request: Request, id: Id, now: nat, plan: N.Plan, final: Record, h': Host,
      s': N.State)
    requires DeployProceeds(h.records, request) && Fresh(h.records, id, now)
    requires SettlesJointly(h, s, PreparedRelease(request, id, now, LatestDeployed(h.records)), plan, final, h', s')
    ensures DeploysJointly(h, s, request, id, plan, h', s')
  {
  }

  lemma RollbackIsJoint(h: Host, s: N.State, tag: string, id: Id, now: nat, plan: N.Plan, final: Record, h': Host,
      s': N.State)
    requires RollbackProceeds(h.records, tag) && Fresh(h.records, id, now)
    requires SettlesJointly(h, s, RollbackOf(h, tag, id, now), plan, final, h', s')
    ensures RollsBackJointly(h, s, tag, id, plan, h', s')
  {
  }

  /** Of the record only its id and whether it migrates matter. */
  lemma SameConclusion(es: seq<Event>, a: Record, b: Record, owned: bool, o: Outcome, unhandled: bool, final: Record)
    requires a.id == b.id && a.migration == b.migration && Concludes(es, a, owned, o, unhandled, final)
    ensures Concludes(es, b, owned, o, unhandled, final)
  {
    assert DumpEvents(a, owned) == DumpEvents(b, owned) && MigrationEvents(a, owned) == MigrationEvents(b, owned);
  }

  /** Dump before migration before containers, whichever of the three happened. */
  ghost predicate InOrder(es: seq<Event>, id: Id, owned: bool) {
    && (forall i | 0 <= i < |es| && es[i].ContainersTouched? :: MigrationRun(id, owned) in es[..i])
    && (forall i | 0 <= i < |es| && es[i].MigrationRun? && owned :: DumpTaken(id) in es[..i])
  }

  /** The new record `r` is of what was asked for, and what happened is what a
      request with or without a migration asks for. */
  ghost predicate DeploysWhatWasAsked(request: Request, id: Id, es: seq<Event>, r: Record) {
    && r.id == id && r.tag == request.tag && r.image == request.image && r.bundle == request.bundle
    && r.rollbackOf == None
    && (request.migrates ==> r.migration != NotRequired && InOrder(es, id, request.owned))
    && (request.migrates && r.status == Deployed ==>
         r.migration == Succeeded && MigrationRun(id, request.owned) in es)
    && (!request.migrates ==> r.migration == NotRequired && forall e <- es :: e == ContainersTouched(id))
  }

  lemma AskedForDeploy(h: Host, s: N.State, request: Request, id: Id, now: nat, plan: N.Plan, es: seq<Event>,
      o: Outcome, unhandled: bool, final: Record, h': Host, s': N.State)
    requires SettlesJointly(h, s, PreparedRelease(request, id, now, LatestDeployed(h.records)), plan, final, h', s')
    requires Concludes(es, PreparedRelease(request, id, now, LatestDeployed(h.records)), request.owned, o, unhandled,
                 final)
    ensures DeploysWhatWasAsked(request, id, es, final)
  {
    var record := PreparedRelease(request, id, now, LatestDeployed(h.records));
    NoDumpNothingHappens(es, record, request.owned);
    if request.migrates {
      MigrationsComeAfterDumps(es, record, request.owned);
    }
  }

  lemma MigrationsComeAfterDumps(es: seq<Event>, record: Record, owned: bool)
    requires AttemptEvents(es, record, owned) && record.migration != NotRequired
    ensures forall i | 0 <= i < |es| && es[i].MigrationRun? && owned :: DumpTaken(record.id) in es[..i]
    ensures es != [] && Last(es).ContainersTouched? ==> MigrationRun(record.id, owned) in es
  {
    var dump := DumpEvents(record, owned);
    forall i | 0 <= i < |es| && es[i].MigrationRun? && owned
      ensures DumpTaken(record.id) in es[..i]
    {
      assert es[..i][0] == DumpTaken(record.id);
    }
    if es != [] && Last(es).ContainersTouched? {
      assert es[|dump|] == MigrationRun(record.id, owned);
    }
  }

  /** Record `i` is the newest success under the tag. */
  ghost predicate NewestSuccess(records: Records, tag: string, i: nat) {
    && i < |records| && records[i].tag == tag && records[i].status == Deployed && records[i].health == Succeeded
    && forall j | i < j < |records| :: !(records[j].tag == tag && records[j].status == Deployed
                                          && records[j].health == Succeeded)
  }

  /** The new record `r` repeats record `i` under a tag of its own. */
  ghost predicate Repeats(records: Records, tag: string, id: Id, r: Record, i: nat) {
    && NewestSuccess(records, tag, i)
    && r.id == id && r.tag == "rollback-" + IdText(id) && r.rollbackOf == Some(records[i].id)
    && r.image == records[i].image && r.bundle == records[i].bundle && r.migration == NotRequired
  }

  ghost predicate RollsBackWhatWasAsked(records: Records, tag: string, id: Id, r: Record) {
    exists i: nat :: Repeats(records, tag, id, r, i)
  }

  lemma AskedForRollback(h: Host, s: N.State, tag: string, id: Id, now: nat, plan: N.Plan, final: Record, h': Host,
      s': N.State)
    requires RollbackProceeds(h.records, tag)
    requires SettlesJointly(h, s, RollbackOf(h, tag, id, now), plan, final, h', s')
    ensures RollsBackWhatWasAsked(h.records, tag, id, final)
  {
    SelectRollbackIsNewest(h.records, tag);
    var i :| 0 <= i < |h.records| && h.records[i] == SelectRollback(h.records, tag).value
      && NewestSuccess(h.records, tag, i);
    assert Repeats(h.records, tag, id, final, i);
  }

  /** All that is said of a deploy that made a record, or of a rollback that did. */
  lemma DeployConcludes(h: Host, s: N.State, request: Request, id: Id, now: nat, plan: N.Plan, es: seq<Event>,
      o: Outcome, unhandled: bool, final: Record, h': Host, s': N.State)
    requires DeployProceeds(h.records, request) && Fresh(h.records, id, now)
    requires SettlesJointly(h, s, PreparedRelease(request, id, now, LatestDeployed(h.records)), plan, final, h', s')
    requires Concludes(es, PreparedRelease(request, id, now, LatestDeployed(h.records)), request.owned, o, unhandled,
                 final)
    ensures DeploysJointly(h, s, request, id, plan, h', s')
    ensures Concludes(es, PreparedRelease(request, id, 0, None), request.owned, o, unhandled, final)
    ensures DeploysWhatWasAsked(request, id, es, final)
  {
    DeployIsJoint(h, s, request, id, now, plan, final, h', s');
    SameConclusion(es, PreparedRelease(request, id, now, LatestDeployed(h.records)),
        PreparedRelease(request, id, 0, None), request.owned, o, unhandled, final);
    AskedForDeploy(h, s, request, id, now, plan, es, o, unhandled, final, h', s');
  }

  /** All that is said of a rollback that made a record. */
  ghost predicate RollbackEnds(h: Host, s: N.State, tag: string, id: Id, plan: N.Plan, es: seq<Event>, o: Outcome,
      unhandled: bool, h': Host, s': N.State)
    requires h'.records != []
  {
    var final := Last(h'.records);
    && RollsBackJointly(h, s, tag, id, plan, h', s')
    && RollsBackWhatWasAsked(h.records, tag, id, final)
    && (forall e <- es :: e == ContainersTouched(id))
    && (o.Done? ==> final.status == Deployed)
    && (o.Raised? && !unhandled ==> final.status != Deploying)
  }

  lemma RollbackConcludes(h: Host, s: N.State, tag: string, id: Id, now: nat, plan: N.Plan, es: seq<Event>,
      owned: bool, o: Outcome, unhandled: bool, h': Host, s': N.State)
    requires RollbackProceeds(h.records, tag) && Fresh(h.records, id, now) && h'.records != []
    requires SettlesJointly(h, s, RollbackOf(h, tag, id, now), plan, Last(h'.records), h', s')
    requires Concludes(es, RollbackOf(h, tag, id, now), owned, o, unhandled, Last(h'.records))
    ensures RollbackEnds(h, s, tag, id, plan, es, o, unhandled, h', s')
  {
    RollbackIsJoint(h, s, tag, id, now, plan, Last(h'.records), h', s');
    AskedForRollback(h, s, tag, id, now, plan, Last(h'.records), h', s');
    NoDumpNothingHappens(es, RollbackOf(h, tag, id, now), owned);
  }

  lemma JointDeployIsBoth(h: Host, s: N.State, request: Request, id: Id, plan: N.Plan, h': Host, s': N.State)
    requires DeploysJointly(h, s, request, id, plan, h', s')
    ensures Deploys(h, request, h') && N.Transacted(s, plan, s')
  {
  }

  lemma JointRollbackIsBoth(h: Host, s: N.State, tag: string, id: Id, plan: N.Plan, h': Host, s': N.State)
    requires RollsBackJointly(h, s, tag, id, plan, h', s')
    ensures RollsBack(h, tag, h') && N.Transacted(s, plan, s')
  {
  }

  /** The verdict a failed dump leads to. */
  ghost predicate DumpVerdict(es: seq<Event>, record: Record, o: Outcome, unhandled: bool, final: Record) {
    es == [DumpFailed(record.id)] ==>
      !o.Done? && final.health == Waiting
          && (o.Raised? && !unhandled ==> final.status == Failed && final.migration == Broken)
  }

  function IndexOf(records: Records, id: Id): (i: nat)
    ensures i <= |records|
    ensures i < |records| ==> records[i].id == id
    ensures forall j | 0 <= j < i :: records[j].id != id
  {
    FirstIndex(records, (r: Record) => r.id == id)
  }

  /** The fields `replace_release_record` compares with the file. */
  predicate SameFile(a: Record, b: Record) {
    a.id == b.id && a.tag == b.tag && a.created == b.created
  }

  function Updated(record: Record, now: nat, status: Option<Status>, migration: Option<Progress>,
      health: Option<Progress>): Record {
    record.(status := if status.Some? then status.value else record.status,
            migration := if migration.Some? then migration.value else record.migration,
            health := if health.Some? then health.value else record.health,
            updated := now)
  }

  /** The answer of `run_deploy`'s tag check: refuse, reuse the running release,
      or make an attempt. */
  datatype Gate = Refused | Reused | Opened

  class Engine {
    /** On a calm machine (`proxy.calm`) no command fails; on one that mends, none
        that undoes a failure or records it. */
    const proxy: T.ProxyHost
    var records: Records
    var containers: Containers
    var clock: nat
    ghost var events: seq<Event>
    /** Every state ledger and containers went through, the present one last. */
    ghost var trail: seq<Host>
    /** Some exception of the running attempt met no handler that writes a
        verdict: a ledger write that raised, or an exception of a kind the caller
        does not catch.  Cleared when an attempt begins. */
    ghost var unhandled: bool

    ghost predicate Valid()
      reads this
    {
      Consistent() && Traced() && DumpsFirst(events)
    }

    ghost predicate Consistent()
      reads this
    {
      && proxy.Valid()
      && (forall r <- records :: r.created <= clock && r.updated <= clock)
      && (forall i, j | 0 <= i < j < |records| :: records[i].id != records[j].id)
    }

    ghost predicate Traced()
      reads this
    {
      trail != [] && trail[0] == Host([], Down) && Last(trail) == Now() && LegalTrail(trail)
    }

    ghost function Now(): Host
      reads this
    {
      Host(records, containers)
    }

    constructor (proxy: T.ProxyHost)
      requires proxy.Valid()
      ensures Valid() && this.proxy == proxy && Now() == Host([], Down)
    {
      this.proxy := proxy;
      records, containers, clock, events, unhandled := [], Down, 0, [], false;
      trail := [Host([], Down)];
    }

    // ------------------------------------------------------ single steps

    /** A command on the host: it works, fails, or is where the process dies. */
    method Command(sure: bool) returns (o: Outcome)
      ensures sure ==> o.Done?
    {
      o := Call(sure);
    }

    method Timestamp() returns (now: nat)
      modifies this`clock
      ensures old(clock) < now == clock
    {
      var elapsed: int := *;
      clock := if elapsed > 0 then clock + elapsed else clock + 1;
      now := clock;
    }

    /** One more moment of the trail. */
    ghost method Leave()
      requires trail != [] && trail[0] == Host([], Down) && LegalTrail(trail) && HostStep(Last(trail), Now())
      modifies this`trail
      ensures Traced() && trail == old(trail) + [Now()]
    {
      trail := trail + [Now()];
    }

    /** `os.rename` of a new file; refuses an id that exists. */
    method WriteReleaseRecord(record: Record) returns (o: Outcome)
      requires Valid() && record.status == Prepared && record.created <= clock && record.updated <= clock
      modifies this`records, this`trail
      ensures Valid()
      ensures records == old(records) + [record] || (!o.Done? && records == old(records))
      ensures IndexOf(old(records), record.id) < |old(records)| ==> records == old(records)
      ensures trail == if records == old(records) then old(trail) else old(trail) + [Now()]
      ensures proxy.calm && IndexOf(old(records), record.id) == |old(records)| ==> o.Done?
    {
      if IndexOf(records, record.id) < |records| {
        return Raised;
      }
      o := Command(proxy.calm);
      if o.Done? {
        records := records + [record];
        Leave();
        var after := Command(proxy.calm);
        o := if after.Crashed? then Crashed else Done;
      }
    }

    /** Replace one existing record by an update of it. */
    method UpdateReleaseState(record: Record, status: Option<Status>, migration: Option<Progress>,
        health: Option<Progress>, sure: bool)
      returns (o: Outcome, updated: Record)
      requires Consistent()
      requires record in records
      modifies this`records, this`clock, this`unhandled
      ensures Consistent() && unhandled == (old(unhandled) || o.Raised?)
      ensures updated == Updated(record, updated.updated, status, migration, health) && old(clock) < updated.updated
      ensures forall i | 0 <= i < |old(records)| && old(records)[i] == record ::
                records == old(records)[i := updated] || (!o.Done? && records == old(records))
      ensures o.Raised? ==> records == old(records)
      ensures sure ==> o.Done?
    {
      var now := Timestamp();
      updated := Updated(record, now, status, migration, health);
      var i := IndexOf(records, record.id);
      var refused := i == |records| || !SameFile(updated, records[i]);
      o := Command(sure);
      if o.Done? && refused {
        o := Raised;
      }
      unhandled := unhandled || o.Raised?;
      if o.Done? {
        records := records[i := updated];
        var after := Command(sure);
        o := if after.Crashed? then Crashed else Done;
      }
    }

    /** `UpdateReleaseState` on the record of the running attempt, the last one. */
    method Advance(ghost before: Records, record: Record, status: Option<Status>, migration: Option<Progress>,
        health: Option<Progress>, sure: bool)
      returns (o: Outcome, updated: Record)
      requires Valid() && records == before + [record]
      requires forall now | clock < now ::
                 var b := Updated(record, now, status, migration, health);
                 LegalUpdate(record, b) && VerdictHolds(b, containers)
      modifies this`records, this`clock, this`trail, this`unhandled
      ensures Valid() && unhandled == (old(unhandled) || o.Raised?) && old(trail) <= trail
      ensures updated == Updated(record, updated.updated, status, migration, health) && old(clock) < updated.updated
      ensures records == before + [updated] || (!o.Done? && records == before + [record])
      ensures o.Raised? ==> records == before + [record]
      ensures sure ==> o.Done?
    {
      assert records[|before|] == record;
      o, updated := UpdateReleaseState(record, status, migration, health, sure);
      assert (before + [record])[|before| := updated] == before + [updated];
      assert Front(before + [updated]) == before == Front(before + [record]);
      Leave();
    }

    method Record(event: Event)
      requires event.MigrationRun? && event.owned ==> DumpTaken(event.id) in events
      requires DumpsFirst(events)
      modifies this`events
      ensures events == old(events) + [event] && DumpsFirst(events)
    {
      events := events + [event];
      assert forall i | 0 <= i < |old(events)| :: events[..i] == old(events)[..i];
      assert events[..|old(events)|] == old(events);
    }

    /** `start_release`, `stop_release` or the restore of the previous release:
        containers are unsettled until the command reports success.  A failure
        may be one the caller catches or one it does not. */
    method ChangeContainers(id: Id, target: Containers, sure: bool) returns (o: Outcome, caught: bool)
      requires DumpsFirst(events) && Traced() && Moving(records)
      modifies this`containers, this`events, this`trail, this`unhandled
      ensures events == old(events) + [ContainersTouched(id)] && DumpsFirst(events)
      ensures Traced() && old(trail) <= trail
      ensures if o.Done? then containers == target && caught else containers == Unsettled
      ensures unhandled == (old(unhandled) || (o.Raised? && !caught))
      ensures sure ==> o.Done?
    {
      Record(ContainersTouched(id));
      containers := Unsettled;
      Leave();
      caught := *;
      o := Command(sure);
      if o.Done? {
        containers, caught := target, true;
        Leave();
      }
      unhandled := unhandled || (o.Raised? && !caught);
    }

    // ----------------------------------------- the body of the nginx block

    /** A failed dump or migration ends the attempt as `failed`. */
    method FailMigration(ghost before: Records, record: Record) returns (o: Outcome, r: Record)
      requires Valid() && records == before + [record] && record.status == Deploying
      modifies this`records, this`clock, this`trail, this`unhandled
      ensures Valid() && records == before + [r] && !o.Done? && (old(unhandled) ==> unhandled) && old(trail) <= trail
      ensures o.Raised? && !unhandled ==> r.status == Failed && r.migration == Broken
      ensures SameIdentity(record, r) && record.updated <= r.updated && r.health == record.health
      ensures r == record || (r.status == Failed && r.migration == Broken)
      ensures proxy.mends ==> o.Raised? && unhandled == old(unhandled)
      ensures proxy.mends ==> r.status == Failed
    {
      o, r := Advance(before, record, Some(Failed), Some(Broken), None, proxy.mends);
      o := if o.Crashed? then Crashed else Raised;
      r := records[|records| - 1];
    }

    /** The dump is a precondition of the destructive step: no dump, no step. */
    method PreMigrationBackup(ghost before: Records, record: Record, owned: bool, hasBackupRunner: bool)
      returns (o: Outcome, r: Record)
      requires Valid() && records == before + [record] && record.status == Deploying
      modifies this`records, this`clock, this`trail, this`events, this`unhandled
      ensures Valid() && records == before + [r] && (old(unhandled) ==> unhandled) && old(trail) <= trail
      ensures SameIdentity(record, r) && record.updated <= r.updated && r.health == record.health
      ensures r == record || (!o.Done? && r.status == Failed && r.migration == Broken)
      ensures o.Raised? && !unhandled ==> r.status == Failed
      ensures o.Done? && owned ==> events == old(events) + [DumpTaken(record.id)]
      ensures o.Raised? && owned && hasBackupRunner ==> events == old(events) + [DumpFailed(record.id)]
      ensures events == old(events) || (o.Done? && owned && events == old(events) + [DumpTaken(record.id)])
              || (!o.Done? && owned && events == old(events) + [DumpFailed(record.id)])
      ensures events == old(events) + [DumpFailed(record.id)] && o.Raised? && !unhandled ==>
              r.status == Failed && r.migration == Broken
      ensures proxy.calm && (owned ==> hasBackupRunner) ==> o.Done?
    {
      r := record;
      if !owned {
        return Done, r;
      }
      if !hasBackupRunner {
        unhandled := true;
        return Raised, r;  // the source would call None here
      }
      o := Command(proxy.calm);
      if o.Raised? {
        Record(DumpFailed(record.id));
        o, r := FailMigration(before, r);
      } else if o.Done? {
        Record(DumpTaken(record.id));
      }
    }

    method RunMigration(ghost before: Records, record: Record, owned: bool) returns (o: Outcome, r: Record)
      requires Valid() && records == before + [record] && record.status == Deploying
      requires owned ==> DumpTaken(record.id) in events
      modifies this`records, this`clock, this`trail, this`events, this`unhandled
      ensures Valid() && records == before + [r] && (old(unhandled) ==> unhandled) && old(trail) <= trail
      ensures SameIdentity(record, r) && record.updated <= r.updated && r.health == record.health
      ensures r == record || r.migration != NotRequired
      ensures o.Raised? && !unhandled ==> r.status == Failed
      ensures r.status == Deploying || (!o.Done? && r.status == Failed)
      ensures o.Done? ==> r.migration == Succeeded
      ensures events == old(events) || events == old(events) + [MigrationRun(record.id, owned)]
      ensures o.Done? ==> events == old(events) + [MigrationRun(record.id, owned)]
      ensures proxy.calm ==> o.Done?
    {
      o, r := Advance(before, record, None, Some(Running), None, proxy.calm);
      r := records[|records| - 1];
      if !o.Done? {
        return;
      }
      Record(MigrationRun(record.id, owned));
      o := Command(proxy.calm);
      if o.Raised? {
        o, r := FailMigration(before, r);
      } else if o.Done? {
        o, r := Advance(before, r, None, Some(Succeeded), None, proxy.calm);
        r := records[|records| - 1];
      }
    }

    /** The dump of an owned database, then the migration. */
    method DumpAndMigrate(ghost before: Records, record: Record, owned: bool, hasBackupRunner: bool)
      returns (o: Outcome, r: Record)
      requires Valid() && records == before + [record] && record.status == Deploying && record.migration != NotRequired
      modifies this`records, this`clock, this`trail, this`events, this`unhandled
      ensures Valid() && records == before + [r] && (old(unhandled) ==> unhandled) && old(trail) <= trail
      ensures SameIdentity(record, r) && record.updated <= r.updated && r.health == record.health
              && r.migration != NotRequired
      ensures o.Raised? && !unhandled ==> r.status == Failed
      ensures r.status == Deploying || (!o.Done? && r.status == Failed)
      ensures o.Done? ==> r.status == Deploying && r.migration == Succeeded
      ensures old(events) <= events
      ensures var es := events[|old(events)|..];
              && StartEvents(es, record, owned)
              && (o.Done? ==> es == MigrationEvents(record, owned))
              && (es == [DumpFailed(record.id)] ==>
                   !o.Done? && (o.Raised? && !unhandled ==> r.status == Failed && r.migration == Broken))
      ensures proxy.calm && (owned ==> hasBackupRunner) ==> o.Done?
    {
      o, r := PreMigrationBackup(before, record, owned, hasBackupRunner);
      if o.Done? {
        o, r := RunMigration(before, r, owned);
      }
    }

    /** From `prepared` to the moment the first container may be touched. */
    method PrepareStart(ghost before: Records, record: Record, owned: bool, hasBackupRunner: bool)
      returns (o: Outcome, r: Record)
      requires Valid() && records == before + [record]
      requires record.status == Prepared && record.health == Waiting
              && (record.migration == Waiting || record.migration == NotRequired)
      modifies this`records, this`clock, this`trail, this`events, this`unhandled
      ensures Valid() && records == before + [r] && (old(unhandled) ==> unhandled) && old(trail) <= trail
      ensures SameIdentity(record, r) && record.updated <= r.updated
              && (r.migration == NotRequired <==> record.migration == NotRequired)
      ensures o.Raised? && !unhandled ==> r.status == Failed
      ensures r == record || r.status == Deploying || (!o.Done? && r.status == Failed && r.health == Waiting)
      ensures o.Done? ==> r.status == Deploying && r.health == Running
      ensures o.Done? ==> r.migration == Succeeded || r.migration == NotRequired
      ensures old(events) <= events
      ensures var es := events[|old(events)|..];
              && StartEvents(es, record, owned)
              && (o.Done? ==> es == MigrationEvents(record, owned))
              && DumpVerdict(es, record, o, unhandled, r)
      ensures proxy.calm && (owned && record.migration != NotRequired ==> hasBackupRunner) ==> o.Done?
    {
      o, r := Advance(before, record, Some(Deploying), None, None, proxy.calm);
      r := records[|records| - 1];
      if !o.Done? {
        return;
      }
      if record.migration != NotRequired {
        o, r := DumpAndMigrate(before, r, owned, hasBackupRunner);
        if !o.Done? {
          return;
        }
      }
      o, r := Advance(before, r, None, None, Some(Running), proxy.calm);
      r := records[|records| - 1];
    }

    /** The two undo steps; `clean` when both succeeded. */
    method UndoSteps(t: T.Transaction, id: Id, target: Containers) returns (o: Outcome, clean: bool)
      requires DumpsFirst(events) && Traced() && Moving(records) && target != Unsettled
      requires t.Valid() && t.host == proxy && t.staged && !t.activated && !t.restored && !t.spoiled
      modifies this`containers, this`events, this`trail, this`unhandled, proxy, proxy.vhosts, proxy.auth, t
      ensures DumpsFirst(events) && Traced() && events == old(events) + [ContainersTouched(id)]
      ensures (old(unhandled) ==> unhandled) && old(trail) <= trail && (o.Raised? ==> unhandled)
      ensures o.Done? ==> (clean <==> containers == target && t.restored)
      ensures t.Valid() && !t.spoiled && !t.activated
      ensures proxy.mends ==> o.Done? && clean && unhandled == old(unhandled)
    {
      var caught: bool;
      o, caught := ChangeContainers(id, target, proxy.mends);
      clean := o.Done?;
      if o.Done? || (o.Raised? && caught) {
        o := t.Rollback();
        clean := clean && o.Done?;
        if o.Raised? {
          o := Done;  // collected as a cleanup error
        }
      }
    }

    /** `rolled_back` after a clean undo to a previous release, else `failed`. */
    method WriteVerdict(ghost before: Records, record: Record, clean: bool) returns (o: Outcome, r: Record)
      requires Valid() && records == before + [record] && record.status == Deploying
      requires clean ==> record.previous.Some? && containers == Runs(record.previous.value)
      modifies this`records, this`clock, this`trail, this`unhandled
      ensures Valid() && records == before + [r] && !o.Done?
      ensures (old(unhandled) ==> unhandled) && old(trail) <= trail
      ensures SameIdentity(record, r) && record.updated <= r.updated && r.migration == record.migration
      ensures r == record || (r.health == Broken && r.status == if clean then RolledBack else Failed)
      ensures o.Raised? && !unhandled ==> r.status == if clean then RolledBack else Failed
      ensures proxy.mends ==> o.Raised? && unhandled == old(unhandled)
      ensures proxy.mends ==> r.status == if clean then RolledBack else Failed
    {
      var verdict := if clean then RolledBack else Failed;
      o, r := Advance(before, record, Some(verdict), None, Some(Broken), proxy.mends);
      o := if o.Crashed? then Crashed else Raised;
      r := records[|records| - 1];
    }

    /** Undo a start or an activation that failed, then write the verdict:
        `rolled_back` only when a previous release existed and both undo steps
        succeeded. */
    method Undo(t: T.Transaction, ghost before: Records, record: Record, previous: Option<Record>)
      returns (o: Outcome, r: Record)
      requires Valid() && records == before + [record] && record.status == Deploying
      requires record.previous == if previous.Some? then Some(previous.value.id) else None
      requires t.Valid() && t.host == proxy && t.staged && !t.activated && !t.restored && !t.spoiled
      modifies this, proxy, proxy.vhosts, proxy.auth, t
      ensures Valid() && t.Valid() && !t.spoiled && !t.activated && !o.Done?
      ensures records == before + [r] && SameIdentity(record, r) && record.updated <= r.updated
              && r.migration == record.migration
      ensures r == record || (r.health == Broken && (r.status == Failed || r.status == RolledBack))
      ensures r.status == RolledBack ==> previous.Some? && containers == Runs(previous.value.id) && t.restored
      ensures (old(unhandled) ==> unhandled) && old(trail) <= trail
      ensures o.Raised? && !unhandled ==>
                r.status == if previous.Some? && containers == Runs(previous.value.id) && t.restored
                            then RolledBack else Failed
      ensures events == old(events) + [ContainersTouched(record.id)]
      ensures proxy.mends ==> o.Raised? && unhandled == old(unhandled) && t.restored && WentBack(r, containers)
    {
      r := record;
      var clean: bool;
      o, clean := UndoSteps(t, record.id, if previous.None? then Down else Runs(previous.value.id));
      if o.Done? {
        o, r := WriteVerdict(before, record, previous.Some? && clean);
      }
    }

    /** The `try` of the block: stage, start, activate. */
    method StartAndActivate(t: T.Transaction, id: Id) returns (o: Outcome, caught: bool)
      requires DumpsFirst(events) && Traced() && Moving(records)
      requires t.Valid() && t.host == proxy && !t.staged && !t.activated && !t.restored && !t.spoiled
      modifies this`containers, this`events, this`trail, this`unhandled, proxy, proxy.vhosts, proxy.auth, t
      ensures DumpsFirst(events) && Traced()
      ensures (old(unhandled) ==> unhandled) && old(trail) <= trail && (o.Raised? && !caught ==> unhandled)
      ensures t.Valid() && !t.restored && !t.spoiled && t.activated == o.Done?
      ensures o.Done? ==> containers == Runs(id)
      ensures o.Raised? && caught ==> t.staged && events == old(events) + [ContainersTouched(id)]
      ensures o.Done? ==> events == old(events) + [ContainersTouched(id)]
      ensures events == old(events) || events == old(events) + [ContainersTouched(id)]
      ensures proxy.calm ==> o.Done?
    {
      o := t.Stage();
      caught := false;  // an OSError from staging is not a caught error
      unhandled := unhandled || o.Raised?;
      if o.Done? {
        o, caught := ChangeContainers(id, Runs(id), proxy.calm);
        if o.Done? {
          o := t.Activate();
        }
      }
    }

    /** The last update of a success, made while the nginx lock is still held. */
    method CommitRelease(ghost before: Records, record: Record) returns (o: Outcome, r: Record)
      requires Valid() && records == before + [record] && containers == Runs(record.id)
      requires record.status == Deploying && (record.migration == Succeeded || record.migration == NotRequired)
      modifies this`records, this`clock, this`trail, this`unhandled
      ensures Valid() && records == before + [r]
      ensures unhandled == (old(unhandled) || o.Raised?) && old(trail) <= trail
      ensures SameIdentity(record, r) && record.updated <= r.updated && r.migration == record.migration
      ensures r == record || (r.status == Deployed && r.health == Succeeded)
      ensures o.Done? ==> r.status == Deployed
      ensures o.Raised? ==> r == record
      ensures proxy.calm ==> o.Done?
    {
      o, r := Advance(before, record, Some(Deployed), None, Some(Succeeded), proxy.calm);
      r := records[|records| - 1];
    }

    /** The `try`, its handler, and the commit of the ledger while the nginx
        lock is still held. */
    method Switch(t: T.Transaction, ghost before: Records, record: Record, previous: Option<Record>)
      returns (o: Outcome, r: Record)
      requires Valid() && records == before + [record]
      requires record.status == Deploying && (record.migration == Succeeded || record.migration == NotRequired)
      requires record.previous == if previous.Some? then Some(previous.value.id) else None
      requires t.Valid() && t.host == proxy && !t.staged && !t.activated && !t.restored && !t.spoiled
      modifies this, proxy, proxy.vhosts, proxy.auth, t
      ensures Valid() && t.Valid() && !t.spoiled
      ensures records == before + [r] && SameIdentity(record, r) && record.updated <= r.updated
              && r.migration == record.migration
      ensures o.Done? ==> r.status == Deployed
      ensures r.status == Deployed ==> r.health == Succeeded && containers == Runs(record.id) && t.activated
      ensures r.status == Deployed ==> events == old(events) + [ContainersTouched(record.id)]
      ensures r.status == RolledBack ==>
              previous.Some? && containers == Runs(previous.value.id) && t.restored && r.health == Broken
                  && !t.activated
      ensures r == record || r.status == Deployed
              || (!o.Done? && r.health == Broken && (r.status == Failed || r.status == RolledBack))
      ensures o.Raised? ==> r.status != Deployed
      ensures (old(unhandled) ==> unhandled) && old(trail) <= trail
              && (o.Raised? && !unhandled ==> r.status == Failed || r.status == RolledBack)
      ensures old(events) <= events
      ensures events == old(events) || events == old(events) + [ContainersTouched(record.id)]
              || events == old(events) + [ContainersTouched(record.id)] + [ContainersTouched(record.id)]
      ensures proxy.calm ==> o.Done?
      ensures proxy.mends && o.Raised? && !unhandled ==> t.restored && WentBack(r, containers)
    {
      r := record;
      var caught: bool;
      o, caught := StartAndActivate(t, record.id);
      if o.Raised? && caught {
        o, r := Undo(t, before, record, previous);
      } else if o.Done? {
        o, r := CommitRelease(before, record);
      }
    }

    /** Everything inside the block, once the transaction is prepared. */
    method InsideBlock(t: T.Transaction, ghost before: Records, record: Record, previous: Option<Record>, owned: bool,
        hasBackupRunner: bool)
      returns (o: Outcome, r: Record)
      requires Valid() && records == before + [record]
      requires record.status == Prepared && record.health == Waiting
              && (record.migration == Waiting || record.migration == NotRequired)
      requires record.previous == if previous.Some? then Some(previous.value.id) else None
      requires t.Valid() && t.host == proxy && !t.staged && !t.activated && !t.restored && !t.spoiled
      modifies this, proxy, proxy.vhosts, proxy.auth, t
      ensures Valid() && t.Valid() && !t.spoiled
      ensures records == before + [r] && Settles(record, old(containers), r, containers)
      ensures o.Done? ==> r.status == Deployed
      ensures o.Raised? ==> r.status != Deployed
      ensures r.status == Deployed ==> t.activated
      ensures r.status == RolledBack ==> t.restored && !t.activated
      ensures r.status != Deployed && r.status != RolledBack ==> !o.Done?
      ensures (old(unhandled) ==> unhandled) && old(trail) <= trail
              && (o.Raised? && !unhandled ==> r.status == Failed || r.status == RolledBack)
      ensures old(events) <= events && AttemptEvents(events[|old(events)|..], record, owned)
      ensures DumpVerdict(events[|old(events)|..], record, o, unhandled, r)
      ensures r.status == Deployed ==>
                events[|old(events)|..] == MigrationEvents(record, owned) + [ContainersTouched(record.id)]
      ensures proxy.calm && (owned && record.migration != NotRequired ==> hasBackupRunner) ==> o.Done?
      ensures proxy.mends && o.Raised? && !unhandled ==>
                || (t.restored && WentBack(r, containers))
                || (&& !t.restored && r.status == Failed
                    && containers == old(containers) && proxy.Now() == old(proxy.Now()))
    {
      o, r := PrepareStart(before, record, owned, hasBackupRunner);
      if o.Done? {
        ghost var started := events;
        o, r := Switch(t, before, r, previous);
        AddedInTwo(old(events), started, events);
      }
    }

    // ------------------------------------------------- the whole attempt

    /** One attempt at a prepared record.  Whatever fails and wherever the
        process dies, record and containers settle together, the proxy ends as
        `Transacted` says, and the two verdicts that claim success or a clean
        undo are true of the live proxy. */
    method ExecutePreparedRelease(ghost before: Records, record: Record, previous: Option<Record>, owned: bool,
        hasBackupRunner: bool, plan: N.Plan)
      returns (o: Outcome)
      requires Valid() && records == before + [record]
      requires record.status == Prepared && record.health == Waiting
              && (record.migration == Waiting || record.migration == NotRequired)
      requires record.previous == if previous.Some? then Some(previous.value.id) else None
      modifies this, proxy, proxy.vhosts, proxy.auth
      ensures Valid()
      ensures records != []
              && SettlesJointly(Host(before, old(containers)), old(proxy.Now()), record, plan, Last(records), Now(),
                  proxy.Now())
      ensures (old(unhandled) ==> unhandled) && old(trail) <= trail && old(events) <= events
      ensures Concludes(events[|old(events)|..], record, owned, o, unhandled, Last(records))
      ensures (&& proxy.calm && N.Admitted(old(proxy.Now()).disk, plan)
               && (owned && record.migration != NotRequired ==> hasBackupRunner)) ==> o.Done?
      ensures proxy.mends && o.Raised? && !unhandled && Last(records).status != Deployed ==>
                Mended(old(containers), old(proxy.Now()), Last(records), containers, proxy.Now())
    {
      var r: Record;
      o := Command(proxy.calm);  // validate_release_compose
      if o.Raised? {
        o, r := Advance(before, record, Some(Failed), None, Some(Broken), proxy.mends);
        o := if o.Crashed? then Crashed else Raised;
      } else if o.Done? {
        o := Command(proxy.calm);  // build_plan, and the wait for the lock
        if o.Done? {
          o := UnderNginxLock(before, record, previous, owned, hasBackupRunner, plan);
        }
      }
      assert records == before + [Last(records)];
    }

    /** The `with nginx_manager.prepare(plan)` block. */
    method UnderNginxLock(ghost before: Records, record: Record, previous: Option<Record>, owned: bool,
        hasBackupRunner: bool, plan: N.Plan)
      returns (o: Outcome)
      requires Valid() && records == before + [record]
      requires record.status == Prepared && record.health == Waiting
              && (record.migration == Waiting || record.migration == NotRequired)
      requires record.previous == if previous.Some? then Some(previous.value.id) else None
      modifies this, proxy, proxy.vhosts, proxy.auth
      ensures Valid()
      ensures records != []
              && SettlesJointly(Host(before, old(containers)), old(proxy.Now()), record, plan, Last(records), Now(),
                  proxy.Now())
      ensures (old(unhandled) ==> unhandled) && old(trail) <= trail && old(events) <= events
      ensures Concludes(events[|old(events)|..], record, owned, o, unhandled, Last(records))
      ensures (&& proxy.calm && N.Admitted(old(proxy.Now()).disk, plan)
               && (owned && record.migration != NotRequired ==> hasBackupRunner)) ==> o.Done?
      ensures proxy.mends && o.Raised? && !unhandled && Last(records).status != Deployed ==>
                Mended(old(containers), old(proxy.Now()), Last(records), containers, proxy.Now())
    {
      var t: T.Transaction?;
      o, t := proxy.Prepare(plan);
      if t == null {
        return;
      }
      var r: Record;
      o, r := InsideBlock(t, before, record, previous, owned, hasBackupRunner);
      if o.Crashed? {
        t.CrashInsideIsTransacted();
      } else {
        o := t.Close(o.Raised?);
      }
      assert records == before + [Last(records)];
    }

    // --------------------------------------------- the two entry points

    /** `run_deploy`, from the lock on.  `id` is the id a fresh uuid will give,
        `plan` what build_plan makes of the manifest. */
    method RunDeploy(request: Request, id: Id, plan: N.Plan) returns (o: Outcome)
      requires Valid()
      requires forall r <- records :: r.id != id && r.tag != RollbackTag(id)
      modifies this, proxy, proxy.vhosts, proxy.auth
      ensures Valid()
      ensures DeploysJointly(old(Now()), old(proxy.Now()), request, id, plan, Now(), proxy.Now())
      ensures !DeployProceeds(old(records), request) ==>
              Now() == old(Now()) && proxy.Now() == old(proxy.Now()) && events == old(events)
      ensures old(events) <= events && old(trail) <= trail
      ensures if records == old(records) then events == old(events)
              else records != []
                   && Concludes(events[|old(events)|..], PreparedRelease(request, id, 0, None), request.owned, o,
                                unhandled, Last(records))
                   && DeploysWhatWasAsked(request, id, events[|old(events)|..], Last(records))
      ensures o.Done? && records == old(records) ==>  // the running release is reused
                exists r <- records :: && r.tag == request.tag && r.image.reference == request.image.reference
                                       && r.bundle == request.bundle && r.status == Deployed
      ensures proxy.calm && N.Admitted(old(proxy.Now()).disk, plan) && DeployProceeds(old(records), request) ==>
                o.Done? && records != old(records)
      ensures proxy.mends && o.Raised? && !unhandled && records != old(records) && Last(records).status != Deployed ==>
                Mended(old(containers), old(proxy.Now()), Last(records), containers, proxy.Now())
    {
      unhandled := false;
      var gate := DeployGate(request);
      if gate.Refused? {
        return Raised;
      }
      o := Command(proxy.calm);  // stage or find the bundle, pull, decrypt, ensure the database
      if gate.Reused? || !o.Done? {
        FindByTagIsNewest(records, request.tag);
        return;
      }
      o := StartDeploy(request, id, plan);
    }

    /** What `run_deploy` makes of the newest record of the tag. */
    method DeployGate(request: Request) returns (gate: Gate)
      ensures gate.Opened? <==> DeployProceeds(records, request)
      ensures gate.Reused? <==> var existing := FindByTag(records, request.tag);
                                 && existing.Some?
                                 && MatchesRequest(existing.value, request.image.reference, request.bundle)
                                 && IsCurrent(existing.value, LatestDeployed(records))
    {
      var existing := FindByTag(records, request.tag);
      if existing.None? {
        return Opened;
      }
      if !MatchesRequest(existing.value, request.image.reference, request.bundle)
          || existing.value.status == Deploying {
        return Refused;
      }
      gate := if IsCurrent(existing.value, LatestDeployed(records)) then Reused else Opened;
    }

    method StartDeploy(request: Request, id: Id, plan: N.Plan) returns (o: Outcome)
      requires Valid() && DeployProceeds(records, request)
      requires forall r <- records :: r.id != id && r.tag != RollbackTag(id)
      modifies this, proxy, proxy.vhosts, proxy.auth
      ensures Valid()
      ensures DeploysJointly(old(Now()), old(proxy.Now()), request, id, plan, Now(), proxy.Now())
      ensures old(events) <= events && old(trail) <= trail
      ensures if records == old(records) then events == old(events) && !o.Done?
              else records != []
                   && Concludes(events[|old(events)|..], PreparedRelease(request, id, 0, None), request.owned, o,
                                unhandled, Last(records))
                   && DeploysWhatWasAsked(request, id, events[|old(events)|..], Last(records))
      ensures proxy.calm && N.Admitted(old(proxy.Now()).disk, plan) ==> o.Done?
      ensures proxy.mends && o.Raised? && !unhandled && records != old(records) && Last(records).status != Deployed ==>
                Mended(old(containers), old(proxy.Now()), Last(records), containers, proxy.Now())
    {
      var now := Timestamp();
      var current := LatestDeployed(records);
      var record := PreparedRelease(request, id, now, current);
      o := Attempt(record, current, request.owned, true, plan);
      if records != old(records) {
        DeployConcludes(old(Now()), old(proxy.Now()), request, id, now, plan, events[|old(events)|..], o, unhandled,
            Last(records), Now(), proxy.Now());
      }
    }

    /** Write the prepared record and execute it. */
    method Attempt(record: Record, current: Option<Record>, owned: bool, hasBackupRunner: bool, plan: N.Plan)
      returns (o: Outcome)
      requires Valid()
      requires record.status == Prepared && record.health == Waiting
              && (record.migration == Waiting || record.migration == NotRequired)
      requires record.created <= clock && record.updated <= clock
      requires forall r <- records :: r.id != record.id
      requires current.Some? ==> current.value in records
      requires record.previous == if current.Some? then Some(current.value.id) else None
      modifies this, proxy, proxy.vhosts, proxy.auth
      ensures Valid()
      ensures || (&& Now() == old(Now()) && proxy.Now() == old(proxy.Now()) && events == old(events)
                  && trail == old(trail) && !o.Done?)
              || (&& old(trail) + [Host(old(records) + [record], old(containers))] <= trail
                  && old(events) <= events && records != []
                  && SettlesJointly(old(Now()), old(proxy.Now()), record, plan, Last(records), Now(), proxy.Now())
                  && Concludes(events[|old(events)|..], record, owned, o, unhandled, Last(records)))
      ensures (&& proxy.calm && N.Admitted(old(proxy.Now()).disk, plan)
               && (owned && record.migration != NotRequired ==> hasBackupRunner)) ==> o.Done?
      ensures proxy.mends && o.Raised? && !unhandled && records != old(records) && Last(records).status != Deployed ==>
                Mended(old(containers), old(proxy.Now()), Last(records), containers, proxy.Now())
    {
      ghost var before := records;
      o := WriteReleaseRecord(record);
      if !o.Done? {
        assert records != before ==> Last(records) == record;
        return;
      }
      var listed := records[..|records| - 1];
      PreviousIsFound(listed, current);
      var previous := FindById(listed, record.previous);
      o := ExecutePreparedRelease(before, record, previous, owned, hasBackupRunner, plan);
    }

    /** `run_rollback`, from the lock on.  It passes no backup runner, and never
        needs one, whoever owns the database: a rollback record requires no
        migration. */
    method RunRollback(tag: string, id: Id, retired: bool, owned: bool, plan: N.Plan) returns (o: Outcome)
      requires Valid()
      requires forall r <- records :: r.id != id && r.tag != RollbackTag(id)
      modifies this, proxy, proxy.vhosts, proxy.auth
      ensures Valid()
      ensures RollsBackJointly(old(Now()), old(proxy.Now()), tag, id, plan, Now(), proxy.Now())
      ensures retired || !RollbackProceeds(old(records), tag) ==>
                !o.Done? && Now() == old(Now()) && proxy.Now() == old(proxy.Now()) && events == old(events)
      ensures old(events) <= events && old(trail) <= trail
      ensures forall e <- events[|old(events)|..] :: e == ContainersTouched(id)
      ensures records != old(records) ==>
              records != [] && (o.Raised? && !unhandled ==> Last(records).status != Deploying)
                  && RollsBackWhatWasAsked(old(records), tag, id, Last(records))
      ensures o.Done? ==> records != old(records) && Last(records).status == Deployed
      ensures proxy.calm && N.Admitted(old(proxy.Now()).disk, plan) && !retired && RollbackProceeds(old(records), tag)
              ==> o.Done?
      ensures proxy.mends && o.Raised? && !unhandled && records != old(records) && Last(records).status != Deployed ==>
                Mended(old(containers), old(proxy.Now()), Last(records), containers, proxy.Now())
    {
      unhandled := false;
      var target, current := RollbackGate(tag, retired);
      if target.None? || current.None? {
        return Raised;
      }
      o := Command(proxy.calm);  // saved bundles, images, secrets, databases, compose of the current release
      if !o.Done? {
        return;
      }
      o := StartRollback(tag, id, owned, plan);
    }

    method StartRollback(tag: string, id: Id, owned: bool, plan: N.Plan) returns (o: Outcome)
      requires Valid() && RollbackProceeds(records, tag)
      requires forall r <- records :: r.id != id && r.tag != RollbackTag(id)
      modifies this, proxy, proxy.vhosts, proxy.auth
      ensures Valid()
      ensures old(events) <= events && old(trail) <= trail
      ensures if records == old(records) then
                !o.Done? && Now() == old(Now()) && proxy.Now() == old(proxy.Now()) && events == old(events)
              else
                records != [] && RollbackEnds(old(Now()), old(proxy.Now()), tag, id, plan, events[|old(events)|..], o,
                    unhandled, Now(), proxy.Now())
      ensures proxy.calm && N.Admitted(old(proxy.Now()).disk, plan) ==> o.Done?
      ensures proxy.mends && o.Raised? && !unhandled && records != old(records) && Last(records).status != Deployed ==>
                Mended(old(containers), old(proxy.Now()), Last(records), containers, proxy.Now())
    {
      var now := Timestamp();
      var target, current := SelectRollback(records, tag).value, LatestDeployed(records).value;
      ghost var h, s := Now(), proxy.Now();
      var record := RollbackRelease(target, current, id, now);
      o := Attempt(record, Some(current), owned, false, plan);
      if records != h.records {
        RollbackConcludes(h, s, tag, id, now, plan, events[|old(events)|..], owned, o, unhandled, Now(), proxy.Now());
      }
    }

    /** The refusals of `run_rollback`, in its order. */
    method RollbackGate(tag: string, retired: bool) returns (target: Option<Record>, current: Option<Record>)
      ensures target.Some? && current.Some? <==> !retired && RollbackProceeds(records, tag)
      ensures target.Some? && current.Some? ==>
              target == SelectRollback(records, tag) && current == LatestDeployed(records)
    {
      current := LatestDeployed(records);
      if AnyDeploying(records) || current.None? || retired {
        return None, None;
      }
      target := SelectRollback(records, tag);
      if target.None? || target.value.id == current.value.id || current.value.health != Succeeded {
        return None, None;
      }
    }
  }

  /** `find_release_by_id` gives back the release the record was prepared over. */
  lemma PreviousIsFound(records: Records, current: Option<Record>)
    requires forall i, j | 0 <= i < j < |records| :: records[i].id != records[j].id
    requires current.Some? ==> current.value in records
    ensures FindById(records, if current.Some? then Some(current.value.id) else None) == current
  {
  }

  function DumpEvents(record: Record, owned: bool): seq<Event> {
    if record.migration != NotRequired && owned then [DumpTaken(record.id)] else []
  }

  function MigrationEvents(record: Record, owned: bool): seq<Event> {
    DumpEvents(record, owned) + if record.migration != NotRequired then [MigrationRun(record.id, owned)] else []
  }

  /** What `AttemptEvents` rules out: without a dump of its own an attempt whose
      release migrates a platform-owned database does nothing destructive, no
      container of a migrating release moves before its migration, and a release
      without migration neither dumps nor migrates. */
  lemma NoDumpNothingHappens(es: seq<Event>, record: Record, owned: bool)
    requires AttemptEvents(es, record, owned)
    ensures record.migration != NotRequired && owned && DumpTaken(record.id) !in es ==>
            es == [] || es == [DumpFailed(record.id)]
    ensures DumpFailed(record.id) in es ==> es == [DumpFailed(record.id)] && owned && record.migration != NotRequired
    ensures record.migration != NotRequired ==>
              forall i | 0 <= i < |es| && es[i].ContainersTouched? :: MigrationRun(record.id, owned) in es[..i]
    ensures record.migration == NotRequired ==> forall e <- es :: e == ContainersTouched(record.id)
  {
    var dump, migrated := DumpEvents(record, owned), MigrationEvents(record, owned);
    if record.migration != NotRequired {
      assert owned ==> dump[0] == DumpTaken(record.id);
      assert migrated[|dump|] == MigrationRun(record.id, owned);
      if es != [] && es != dump && es != [DumpFailed(record.id)] {
        assert es[|dump|] == MigrationRun(record.id, owned);
        assert owned ==> es[0] == DumpTaken(record.id);
        assert forall i | |dump| < i <= |es| :: es[..i][|dump|] == es[|dump|];
      }
    }
  }
}
