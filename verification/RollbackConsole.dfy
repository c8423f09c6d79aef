/** The operator console's own reading of the status document, against what the
    host's rollback gate decides from the ledger. */
module RollbackConsole {
  import opened Outcomes
  import opened Ledger
  import opened Sequences
  import LR = LedgerRuns

  datatype Summary = Summary(id: Id, tag: string, status: Status, health: Progress, migration: Progress, updated: nat)

  datatype Document = Document(history: seq<Summary>, currentTag: Option<string>)

  datatype Target = Target(tag: string, updated: nat, migration: Progress)

  function Summarize(r: Record): Summary {
    Summary(r.id, r.tag, r.status, r.health, r.migration, r.updated)
  }

  /** The history is newest first. */
  function StatusDocument(records: Records): Document {
    Document(seq(|records|, i requires 0 <= i < |records| => Summarize(records[|records| - 1 - i])),
             if LatestDeployed(records).Some? then Some(LatestDeployed(records).value.tag) else None)
  }

  predicate BlockedByDeploying(document: Document) {
    exists e <- document.history :: e.status == Deploying
  }

  // ---------------------------------------------------- eligible targets

  predicate Acceptable(document: Document, e: Summary) {
    e.tag != "" && Some(e.tag) != document.currentTag && e.status == Deployed && e.health == Succeeded
  }

  /** Entry `i` is the first acceptable one of its tag. */
  predicate Picked(document: Document, i: nat)
    requires i < |document.history|
  {
    && Acceptable(document, document.history[i])
    && forall j | 0 <= j < i && document.history[j].tag == document.history[i].tag ::
        !Acceptable(document, document.history[j])
  }

  function TargetOf(e: Summary): Target {
    Target(e.tag, e.updated, e.migration)
  }

  /** The picked ones among the first `n` entries, in order. */
  function PickedTargets(document: Document, n: nat): seq<Target>
    requires n <= |document.history|
  {
    if n == 0 then []
    else PickedTargets(document, n - 1) + if Picked(document, n - 1) then [TargetOf(document.history[n - 1])] else []
  }

  method EligibleTargets(document: Document) returns (targets: seq<Target>)
    ensures targets == PickedTargets(document, |document.history|)
  {
    var seen: set<string> := {};
    targets := [];
    var i := 0;
    while i < |document.history|
      invariant 0 <= i <= |document.history|
      invariant forall tag :: tag in seen <==>
              exists j | 0 <= j < i :: document.history[j].tag == tag && Acceptable(document, document.history[j])
      invariant targets == PickedTargets(document, i)
    {
      var entry := document.history[i];
      if entry.tag == "" || entry.tag in seen || Some(entry.tag) == document.currentTag {
        assert !Picked(document, i);
      } else if entry.status != Deployed || entry.health != Succeeded {
        assert !Picked(document, i);
      } else {
        seen := seen + {entry.tag};
        targets := targets + [TargetOf(entry)];
      }
      i := i + 1;
    }
  }

  /** Entry `i` is picked and shown as this target. */
  predicate PickedAs(document: Document, i: nat, t: Target)
    requires i < |document.history|
  {
    Picked(document, i) && TargetOf(document.history[i]) == t
  }

  lemma PickedIsLast(document: Document, n: nat, t: Target)
    requires 0 < n <= |document.history|
    ensures t in PickedTargets(document, n) <==> t in PickedTargets(document, n - 1) || PickedAs(document, n - 1, t)
  {
    var before, last := PickedTargets(document, n - 1), TargetOf(document.history[n - 1]);
    if Picked(document, n - 1) {
      assert PickedTargets(document, n) == before + [last];
    } else {
      assert PickedTargets(document, n) == before;
    }
  }

  lemma {:induction false} TargetsAreThePicked(document: Document, n: nat, t: Target)
    requires n <= |document.history|
    ensures t in PickedTargets(document, n) <==> exists i | 0 <= i < n :: PickedAs(document, i, t)
  {
    if n > 0 {
      TargetsAreThePicked(document, n - 1, t);
      PickedIsLast(document, n, t);
      if exists i | 0 <= i < n - 1 :: PickedAs(document, i, t) {
        var i :| 0 <= i < n - 1 && PickedAs(document, i, t);
        assert PickedAs(document, i, t);
      }
      if Picked(document, n - 1) && TargetOf(document.history[n - 1]) == t {
        assert PickedAs(document, n - 1, t);
      }
    }
  }

  /** The order is the history's, and no tag is offered twice. */
  lemma {:induction false} TargetsHaveDistinctTags(document: Document, n: nat)
    requires n <= |document.history|
    ensures forall i, j | 0 <= i < j < |PickedTargets(document, n)| ::
            PickedTargets(document, n)[i].tag != PickedTargets(document, n)[j].tag
  {
    if n > 0 {
      TargetsHaveDistinctTags(document, n - 1);
      var before := PickedTargets(document, n - 1);
      forall i | 0 <= i < |before| && Picked(document, n - 1)
        ensures before[i].tag != document.history[n - 1].tag
      {
        TargetsAreThePicked(document, n - 1, before[i]);
      }
    }
  }

  // ------------------------------------------------- against the host's gate

  /** The newest success of the current release's tag is the current release. */
  lemma CurrentTagIsCurrent(records: Records)
    requires LR.Serial(records) && LR.SuccessIsProven(records) && LatestDeployed(records).Some?
    ensures SelectRollback(records, LatestDeployed(records).value.tag) == LatestDeployed(records)
  {
  }

  /** The entry of record `k` is entry `|records| - 1 - k` of the history. */
  lemma EntryOf(records: Records, k: nat)
    requires k < |records|
    ensures StatusDocument(records).history[|records| - 1 - k] == Summarize(records[k])
  {
  }

  /** The newest success of any other tag is what the console picks for it. */
  lemma PickedIsSelected(records: Records, tag: string)
    requires tag != "" && Some(tag) != StatusDocument(records).currentTag
    ensures var document := StatusDocument(records);
            && (SelectRollback(records, tag).Some? <==>
                 exists i | 0 <= i < |document.history| :: Picked(document, i) && document.history[i].tag == tag)
            && (forall i | 0 <= i < |document.history| && Picked(document, i) && document.history[i].tag == tag ::
                  SelectRollback(records, tag).Some?
                      && document.history[i] == Summarize(SelectRollback(records, tag).value))
  {
    SelectRollbackIsNewest(records, tag);
    if SelectRollback(records, tag).Some? {
      var n := |records|;
      var k :| 0 <= k < n && records[k] == SelectRollback(records, tag).value && records[k].tag == tag
          && Successful(records[k])
               && forall j | k < j < n :: !(records[j].tag == tag && Successful(records[j]));
      NewestIsPicked(records, tag, k);
    } else {
      NothingIsPicked(records, tag);
    }
  }

  lemma NewestIsPicked(records: Records, tag: string, k: nat)
    requires tag != "" && Some(tag) != StatusDocument(records).currentTag
    requires k < |records| && records[k].tag == tag && Successful(records[k])
    requires forall j | k < j < |records| :: !(records[j].tag == tag && Successful(records[j]))
    ensures var document, i := StatusDocument(records), |records| - 1 - k;
            && Picked(document, i) && document.history[i] == Summarize(records[k])
            && forall j | 0 <= j < |records| && Picked(document, j) && document.history[j].tag == tag :: j == i
  {
    var document, n := StatusDocument(records), |records|;
    EntryOf(records, k);
    forall j | 0 <= j < n - 1 - k
      ensures !(document.history[j].tag == tag && Acceptable(document, document.history[j]))
    {
      EntryOf(records, n - 1 - j);
    }
    PickIsUnique(document, n - 1 - k, tag);
  }

  lemma NothingIsPicked(records: Records, tag: string)
    requires forall r <- records :: !(r.tag == tag && Successful(r))
    ensures var document := StatusDocument(records);
            forall i | 0 <= i < |records| && document.history[i].tag == tag :: !Picked(document, i)
  {
    forall i | 0 <= i < |records| && StatusDocument(records).history[i].tag == tag
      ensures !Picked(StatusDocument(records), i)
    {
      EntryOf(records, |records| - 1 - i);
      assert records[|records| - 1 - i] in records;
    }
  }

  lemma PickIsUnique(document: Document, k: nat, tag: string)
    requires k < |document.history| && document.history[k].tag == tag && Acceptable(document, document.history[k])
    requires forall j | 0 <= j < k :: !(document.history[j].tag == tag && Acceptable(document, document.history[j]))
    ensures Picked(document, k)
    ensures forall i | 0 <= i < |document.history| && Picked(document, i) && document.history[i].tag == tag :: i == k
  {
  }

  /** The console lists a tag exactly when the host's gate accepts it, and shows
      the very record the host would pick. */
  lemma ListIsTheGate(records: Records, tag: string)
    requires LR.Serial(records) && LR.SuccessIsProven(records) && !AnyDeploying(records)
    ensures var targets := PickedTargets(StatusDocument(records), |records|);
            && ((exists t <- targets :: t.tag == tag) <==> tag != "" && RollbackProceeds(records, tag))
            && (forall t <- targets | t.tag == tag ::
                  SelectRollback(records, tag).Some? && t == TargetOf(Summarize(SelectRollback(records, tag).value)))
  {
    var document := StatusDocument(records);
    var targets := PickedTargets(document, |records|);
    forall t | t in targets && t.tag == tag
      ensures tag != "" && RollbackProceeds(records, tag)
              && t == TargetOf(Summarize(SelectRollback(records, tag).value))
    {
      TargetsAreThePicked(document, |records|, t);
      var i :| 0 <= i < |records| && PickedAs(document, i, t);
      PickedIsSelected(records, tag);
      OtherTagsProceed(records, tag);
    }
    if tag != "" && RollbackProceeds(records, tag) {
      CurrentTagIsCurrent(records);
      PickedIsSelected(records, tag);
      var i :| 0 <= i < |records| && Picked(document, i) && document.history[i].tag == tag;
      assert PickedAs(document, i, TargetOf(document.history[i]));
      TargetsAreThePicked(document, |records|, TargetOf(document.history[i]));
    }
  }

  lemma OtherTagsProceed(records: Records, tag: string)
    requires LR.Serial(records) && LR.SuccessIsProven(records) && !AnyDeploying(records)
    requires SelectRollback(records, tag).Some? && Some(tag) != StatusDocument(records).currentTag
    ensures RollbackProceeds(records, tag)
  {
    SelectRollbackIsNewest(records, tag);
    var i :| 0 <= i < |records| && records[i] == SelectRollback(records, tag).value && records[i].tag == tag
        && Successful(records[i])
             && forall j | i < j < |records| :: !(records[j].tag == tag && Successful(records[j]));
    assert records[i] in records;
    var current := LatestDeployed(records);
    var k :| 0 <= k < |records| && records[k] == current.value;
    assert i != k;
  }

  lemma BlockedIffDeploying(records: Records)
    ensures BlockedByDeploying(StatusDocument(records)) <==> AnyDeploying(records)
  {
    var history := StatusDocument(records).history;
    forall k | 0 <= k < |records|
      ensures history[|records| - 1 - k] == Summarize(records[k]) && history[|records| - 1 - k] in history
    {
    }
    forall i | 0 <= i < |history|
      ensures history[i] == Summarize(records[|records| - 1 - i]) && records[|records| - 1 - i] in records
    {
    }
    if AnyDeploying(records) {
      var r :| r in records && r.status == Deploying;
      assert Summarize(r) in history;
    }
  }

  /** On every reachable ledger. */
  lemma ListIsExactInEveryRun(hosts: seq<Host>, ops: seq<LR.Operation>, i: nat, tag: string)
    requires LR.IsRun(hosts, ops) && i < |hosts|
    requires !BlockedByDeploying(StatusDocument(hosts[i].records))
    ensures var records := hosts[i].records;
            var targets := PickedTargets(StatusDocument(records), |records|);
            && ((exists t <- targets :: t.tag == tag) <==> tag != "" && RollbackProceeds(records, tag))
            && (forall t <- targets | t.tag == tag ::
                  SelectRollback(records, tag).Some? && t == TargetOf(Summarize(SelectRollback(records, tag).value)))
  {
    LR.EveryReachableLedger(hosts, ops, i);
    BlockedIffDeploying(hosts[i].records);
    ListIsTheGate(hosts[i].records, tag);
  }

  /** The target shows the tag, time and migration of record `k`, the newest
      success of its tag. */
  ghost predicate Shows(t: Target, records: Records, k: nat) {
    && k < |records| && records[k].status == Deployed && records[k].health == Succeeded
    && t.tag == records[k].tag && t.updated == records[k].updated && t.migration == records[k].migration
    && forall j | k < j < |records| && records[j].tag == t.tag ::
        !(records[j].status == Deployed && records[j].health == Succeeded)
  }

  /** The list in terms of the records: a tag is offered exactly when it was
      deployed and another one runs, and its entry is the newest success. */
  lemma ListReadOffTheRecords(hosts: seq<Host>, ops: seq<LR.Operation>, i: nat, tag: string)
    requires LR.IsRun(hosts, ops) && i < |hosts|
    requires forall r <- hosts[i].records :: r.status != Deploying
    ensures var records := hosts[i].records;
            var targets := PickedTargets(StatusDocument(records), |records|);
            && ((exists t <- targets :: t.tag == tag) <==>
                  && tag != "" && (exists r <- records :: r.tag == tag && r.status == Deployed)
                  && exists c: nat :: LR.LastDeployedAt(records, c) && records[c].tag != tag)
            && (forall t <- targets | t.tag == tag :: exists k: nat :: Shows(t, records, k))
  {
    var records := hosts[i].records;
    BlockedIffDeploying(records);
    ListIsExactInEveryRun(hosts, ops, i, tag);
    LR.EveryReachableLedger(hosts, ops, i);
    LR.RollbackProceedsIff(records, tag);
    SelectRollbackIsNewest(records, tag);
    forall t | t in PickedTargets(StatusDocument(records), |records|) && t.tag == tag
      ensures exists k: nat :: Shows(t, records, k)
    {
      var k :| 0 <= k < |records| && records[k] == SelectRollback(records, tag).value && records[k].tag == tag
        && Successful(records[k])
        && forall j | k < j < |records| :: !(records[j].tag == tag && Successful(records[j]));
      assert Shows(t, records, k);
    }
  }

  // --------------------------------------------------- migrations between

  /** Position of the oldest entry of the tag in an oldest-first list. */
  function OldestOf(entries: seq<Summary>, tag: string): (i: nat)
    ensures i <= |entries|
    ensures i < |entries| ==> entries[i].tag == tag
    ensures forall j | 0 <= j < i :: entries[j].tag != tag
  {
    FirstIndex(entries, (e: Summary) => e.tag == tag)
  }

  function MigratedTags(entries: seq<Summary>): seq<string> {
    if entries == [] then []
    else (if entries[0].migration == Succeeded then [entries[0].tag] else []) + MigratedTags(entries[1..])
  }

  function OldestFirst(document: Document): seq<Summary> {
    seq(|document.history|, i requires 0 <= i < |document.history| => document.history[|document.history| - 1 - i])
  }

  function MigrationsAfterOldest(entries: seq<Summary>, tag: string): seq<string> {
    var i := OldestOf(entries, tag);
    if i == |entries| then [] else MigratedTags(entries[i + 1..])
  }

  function MigrationsBetween(document: Document, tag: string): seq<string> {
    MigrationsAfterOldest(OldestFirst(document), tag)
  }

  function Summaries(records: Records): seq<Summary> {
    seq(|records|, i requires 0 <= i < |records| => Summarize(records[i]))
  }

  lemma {:induction false} MigratedTagsSplit(a: seq<Summary>, b: seq<Summary>)
    ensures MigratedTags(a + b) == MigratedTags(a) + MigratedTags(b)
  {
    if a == [] {
      assert a + b == b;
    } else {
      assert (a + b)[1..] == a[1..] + b;
      MigratedTagsSplit(a[1..], b);
    }
  }

  lemma {:induction false} MigratedTagsAreEmptyIff(entries: seq<Summary>)
    ensures MigratedTags(entries) == [] <==> forall e <- entries :: e.migration != Succeeded
  {
    if entries != [] {
      MigratedTagsAreEmptyIff(entries[1..]);
      assert entries == [entries[0]] + entries[1..];
    }
  }

  /** Everything after `first` splits at `k`, and the part up to `k` is silent
      exactly when nothing in it migrated. */
  lemma MigratedTagsAround(entries: seq<Summary>, first: nat, k: nat)
    requires first <= k < |entries|
    ensures MigratedTags(entries[first + 1..]) ==
            MigratedTags(entries[first + 1..k + 1]) + MigratedTags(entries[k + 1..])
    ensures MigratedTags(entries[first + 1..k + 1]) == [] <==>
            forall i | first < i <= k :: entries[i].migration != Succeeded
  {
    var extra := entries[first + 1..k + 1];
    assert entries[first + 1..] == extra + entries[k + 1..];
    MigratedTagsSplit(extra, entries[k + 1..]);
    MigratedTagsAreEmptyIff(extra);
    assert forall i | first < i <= k :: extra[i - first - 1] == entries[i];
  }

  lemma WarningAround(entries: seq<Summary>, tag: string, k: nat)
    requires k < |entries| && entries[k].tag == tag
    ensures var first := OldestOf(entries, tag);
            && first <= k
            && MigrationsAfterOldest(entries, tag) ==
                MigratedTags(entries[first + 1..k + 1]) + MigratedTags(entries[k + 1..])
            && (MigratedTags(entries[first + 1..k + 1]) == [] <==>
                 forall i | first < i <= k :: entries[i].migration != Succeeded)
  {
    MigratedTagsAround(entries, OldestOf(entries, tag), k);
  }

  lemma OldestFirstIsTheLedger(records: Records)
    ensures OldestFirst(StatusDocument(records)) == Summaries(records)
  {
  }

  /** The warning misses no migration after the record the host would pick; what
      it adds are the migrations from the tag's first attempt up to that record,
      so it is exact when there are none. */
  lemma WarningMissesNoMigration(records: Records, tag: string, k: nat)
    requires k < |records| && SelectRollback(records, tag) == Some(records[k])
    ensures var entries := Summaries(records);
            var first := OldestOf(entries, tag);
            && first <= k
            && MigrationsBetween(StatusDocument(records), tag) ==
                MigratedTags(entries[first + 1..k + 1]) + MigratedTags(entries[k + 1..])
            && (MigratedTags(entries[first + 1..k + 1]) == [] <==>
                 forall i | first < i <= k :: entries[i].migration != Succeeded)
  {
    SelectRollbackIsNewest(records, tag);
    OldestFirstIsTheLedger(records);
    WarningAround(Summaries(records), tag, k);
  }

  lemma {:induction false} ListedMigrated(entries: seq<Summary>, tag: string)
    requires tag in MigratedTags(entries)
    ensures exists e <- entries :: e.tag == tag && e.migration == Succeeded
  {
    if tag in MigratedTags(entries[1..]) {
      ListedMigrated(entries[1..], tag);
      assert entries == [entries[0]] + entries[1..];
    } else {
      assert entries[0] in entries;
    }
  }

  lemma ListedAfter(entries: seq<Summary>, first: nat, named: string)
    requires first < |entries| && named in MigratedTags(entries[first + 1..])
    ensures exists j | first < j < |entries| :: entries[j].tag == named && entries[j].migration == Succeeded
  {
    var rest := entries[first + 1..];
    ListedMigrated(rest, named);
    var j :| 0 <= j < |rest| && rest[j].tag == named && rest[j].migration == Succeeded;
    assert entries[first + 1 + j] == rest[j];
  }

  /** Nothing is named that did not migrate after the tag's first attempt. */
  lemma OnlyMigrationsAreNamed(records: Records, tag: string, named: string)
    requires named in MigrationsBetween(StatusDocument(records), tag)
    ensures exists i, j | 0 <= i < j < |records| ::
              records[i].tag == tag && records[j].tag == named && records[j].migration == Succeeded
  {
    OldestFirstIsTheLedger(records);
    var entries := Summaries(records);
    var first := OldestOf(entries, tag);
    assert named in MigrationsAfterOldest(entries, tag);
    ListedAfter(entries, first, named);
    var j :| first < j < |entries| && entries[j].tag == named && entries[j].migration == Succeeded;
    assert entries[first] == Summarize(records[first]) && entries[j] == Summarize(records[j]);
  }

  lemma {:induction false} EveryMigrationIsListed(entries: seq<Summary>, i: nat)
    requires i < |entries| && entries[i].migration == Succeeded
    ensures entries[i].tag in MigratedTags(entries)
  {
    if i > 0 {
      EveryMigrationIsListed(entries[1..], i - 1);
    }
  }

  lemma LaterMigrationIsListed(entries: seq<Summary>, k: nat, j: nat)
    requires k < j < |entries| && entries[j].migration == Succeeded
    ensures entries[j].tag in MigratedTags(entries[k + 1..])
  {
    assert entries[k + 1..][j - k - 1] == entries[j];
    EveryMigrationIsListed(entries[k + 1..], j - k - 1);
  }

  /** Whatever migrated after the record the host would pick is in the warning. */
  lemma NoMigrationIsMissed(records: Records, tag: string, k: nat, j: nat)
    requires k < j < |records| && SelectRollback(records, tag) == Some(records[k]) && records[j].migration == Succeeded
    ensures records[j].tag in MigrationsBetween(StatusDocument(records), tag)
  {
    WarningMissesNoMigration(records, tag, k);
    LaterMigrationIsListed(Summaries(records), k, j);
  }
}
