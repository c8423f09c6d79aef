/** The release ledger: records, the searches over them, and what one locked
    deploy or rollback attempt may leave behind. */
module Ledger {
  import opened Outcomes

  /** 32 hexadecimal digits; as a number it orders the same way. */
  type Id = nat

  datatype Status = Prepared | Deploying | Deployed | Failed | RolledBack

  /** Status of the migration or the healthcheck of one attempt. */
  datatype Progress = Waiting | NotRequired | Running | Succeeded | Broken

  datatype Image = Image(reference: string, digest: string)

  datatype Record = Record(
    id: Id,
    tag: string,
    image: Image,
    bundle: string,
    status: Status,
    created: nat,
    updated: nat,
    previous: Option<Id>,
    rollbackOf: Option<Id>,
    migration: Progress,
    health: Progress)

  /** A ledger as `list_release_records` returns it: by creation time. */
  type Records = seq<Record>

  // ------------------------------------------------------------- searches

  function FindByTag(records: Records, tag: string): Option<Record> {
    if records == [] then None
    else if records[|records| - 1].tag == tag then Some(records[|records| - 1])
    else FindByTag(records[..|records| - 1], tag)
  }

  function FindById(records: Records, id: Option<Id>): Option<Record> {
    if records == [] then None
    else if Some(records[0].id) == id then Some(records[0])
    else FindById(records[1..], id)
  }

  predicate Successful(r: Record) {
    r.status == Deployed && r.health == Succeeded
  }

  /** The newest successful record of the tag; `run_rollback` refuses on None. */
  function SelectRollback(records: Records, tag: string): Option<Record> {
    if records == [] then None
    else if records[|records| - 1].tag == tag && Successful(records[|records| - 1]) then Some(records[|records| - 1])
    else SelectRollback(records[..|records| - 1], tag)
  }

  predicate MatchesRequest(r: Record, reference: string, bundle: string) {
    r.image.reference == reference && r.bundle == bundle
  }

  /** `release_order`: updated_at, then created_at, then the id. */
  predicate Before(a: Record, b: Record) {
    || a.updated < b.updated
    || (a.updated == b.updated && (a.created < b.created || (a.created == b.created && a.id < b.id)))
  }

  /** `max` by `release_order` over the deployed records. */
  function LatestDeployed(records: Records): (r: Option<Record>)
    ensures r.Some? ==> r.value in records && r.value.status == Deployed
    ensures r.None? <==> forall x <- records :: x.status != Deployed
    ensures r.Some? ==> forall x <- records | x.status == Deployed :: !Before(r.value, x)
  {
    if records == [] then None
    else
      var last := records[|records| - 1];
      var best := LatestDeployed(records[..|records| - 1]);
      if last.status != Deployed then best
      else if best.None? || Before(best.value, last) then Some(last)
      else best
  }

  predicate AnyDeploying(records: Records) {
    exists r <- records :: r.status == Deploying
  }

  /** Another deployment stamped the same moment as the current one. */
  predicate AmbiguousTime(records: Records, current: Record) {
    exists r <- records :: r != current && r.status == Deployed && r.updated == current.updated
  }

  predicate FailureSince(records: Records, current: Record) {
    exists r <- records :: r.updated >= current.updated && r.status == Failed
  }

  predicate StrayRollbackSince(records: Records, current: Record) {
    exists r <- records :: r.updated >= current.updated && r.status == RolledBack && r.previous != Some(current.id)
  }

  predicate AnyUnsuccessful(records: Records) {
    exists r <- records :: r.status == Failed || r.status == RolledBack
  }

  datatype Recovery = Refuse | Nothing | Recover(release: Record)

  /** What reboot recovery decides from the ledger alone. */
  function SelectRecovery(records: Records): Recovery {
    if AnyDeploying(records) then Refuse
    else
      match LatestDeployed(records)
      case None => if AnyUnsuccessful(records) then Refuse else Nothing
      case Some(current) =>
        if current.health != Succeeded || AmbiguousTime(records, current) then Refuse
        else if FailureSince(records, current) || StrayRollbackSince(records, current) then Refuse
        else Recover(current)
  }

  // --------------------------------------------------------- one attempt

  /** What the scope's containers are. */
  datatype Containers = Down | Runs(id: Id) | Unsettled

  datatype Host = Host(records: Records, containers: Containers)

  /** A deploy request: image and bundle, whether the manifest has a migration
      command, and whether its database is the platform's own. */
  datatype Request = Request(tag: string, image: Image, bundle: string, migrates: bool, owned: bool)

  /** Fields `replace_release_record` and every update leave alone. */
  predicate SameIdentity(a: Record, b: Record) {
    && a.id == b.id && a.tag == b.tag && a.image == b.image && a.bundle == b.bundle
    && a.created == b.created && a.previous == b.previous && a.rollbackOf == b.rollbackOf
  }

  function PreparedRelease(request: Request, id: Id, now: nat, current: Option<Record>): Record {
    Record(id, request.tag, request.image, request.bundle, Prepared, now, now,
           if current.Some? then Some(current.value.id) else None, None,
           if request.migrates then Waiting else NotRequired, Waiting)
  }

  function HexDigits(n: nat): string {
    if n < 16 then ["0123456789abcdef"[n]] else HexDigits(n / 16) + ["0123456789abcdef"[n % 16]]
  }

  /** The id as records and ownership files spell it. */
  function IdText(id: Id): string {
    seq(Padding(id), _ => '0') + HexDigits(id)
  }

  function Padding(id: Id): nat {
    if |HexDigits(id)| < 32 then 32 - |HexDigits(id)| else 0
  }

  function HexDigit(c: char): nat {
    if '0' <= c <= '9' then (c - '0') as nat else if 'a' <= c <= 'f' then (c - 'a') as nat + 10 else 0
  }

  function HexValue(s: string): nat {
    if s == [] then 0 else 16 * HexValue(s[..|s| - 1]) + HexDigit(s[|s| - 1])
  }

  lemma {:induction false} HexValueOfDigits(n: nat)
    ensures HexValue(HexDigits(n)) == n
  {
    var s := HexDigits(n);
    if n < 16 {
      assert s[..0] == [] && HexDigit("0123456789abcdef"[n]) == n;
    } else {
      HexValueOfDigits(n / 16);
      assert s[..|s| - 1] == HexDigits(n / 16);
      assert HexDigit("0123456789abcdef"[n % 16]) == n % 16;
    }
  }

  lemma {:induction false} ZerosAddNothing(n: nat, s: string)
    ensures HexValue(seq(n, _ => '0') + s) == HexValue(s)
    decreases n + |s|
  {
    var t := seq(n, _ => '0') + s;
    if s != [] {
      assert t[..|t| - 1] == seq(n, _ => '0') + s[..|s| - 1];
      ZerosAddNothing(n, s[..|s| - 1]);
    } else if n > 0 {
      assert t[..|t| - 1] == seq(n - 1, _ => '0') + [];
      ZerosAddNothing(n - 1, []);
    }
  }

  /** Two ids are never spelled alike. */
  lemma IdTextIsInjective(a: Id, b: Id)
    requires IdText(a) == IdText(b)
    ensures a == b
  {
    HexValueOfDigits(a);
    HexValueOfDigits(b);
    ZerosAddNothing(Padding(a), HexDigits(a));
    ZerosAddNothing(Padding(b), HexDigits(b));
  }

  lemma {:induction false} DigitsAreHex(n: nat)
    ensures forall c <- HexDigits(n) :: c in "0123456789abcdef"
    ensures HexDigits(n) != []
  {
    if n >= 16 {
      DigitsAreHex(n / 16);
    }
    assert forall k | 0 <= k < 16 :: "0123456789abcdef"[k] in "0123456789abcdef";
  }

  /** An id of at most 32 digits is spelled with exactly 32, all of them
      lower-case hexadecimal, and they are its value. */
  lemma IdTextIsHex(id: Id)
    requires |HexDigits(id)| <= 32
    ensures |IdText(id)| == 32 && HexValue(IdText(id)) == id
    ensures forall c <- IdText(id) :: c in "0123456789abcdef"
  {
    HexValueOfDigits(id);
    ZerosAddNothing(Padding(id), HexDigits(id));
    DigitsAreHex(id);
    assert "0123456789abcdef"[0] == '0';
  }

  function RollbackTag(id: Id): string {
    "rollback-" + IdText(id)
  }

  function RollbackRelease(target: Record, current: Record, id: Id, now: nat): Record {
    target.(id := id, tag := RollbackTag(id), status := Prepared, created := now, updated := now,
            previous := Some(current.id), rollbackOf := Some(target.id),
            migration := NotRequired, health := Waiting)
  }

  /** Clocks move forward and generated ids are new. */
  ghost predicate Fresh(records: Records, id: Id, now: nat) {
    forall r <- records :: r.updated < now && r.created < now && r.id != id && r.tag != RollbackTag(id)
  }

  /** What an attempt that wrote `prepared` may make of it, whichever oracle
      failed and wherever it died. */
  ghost predicate Settles(prepared: Record, was: Containers, final: Record, now: Containers) {
    && SameIdentity(prepared, final)
    && prepared.updated <= final.updated
    && (prepared.migration == NotRequired <==> final.migration == NotRequired)
    && (final.health == Waiting ==> now == was)  // nothing is started before the ledger says so
    && match final.status
       case Prepared => final == prepared && now == was
       case Deploying => true
       case Failed => true
       case RolledBack => final.previous.Some? && now == Runs(final.previous.value) && final.health == Broken
       case Deployed => now == Runs(final.id) && final.health == Succeeded
                        && (final.migration == Succeeded || final.migration == NotRequired)
  }

  ghost predicate Attempted(h: Host, prepared: Record, h': Host) {
    exists final :: h'.records == h.records + [final] && Settles(prepared, h.containers, final, h'.containers)
  }

  /** `run_deploy` starts an attempt unless the tag is somebody else's, stuck in
      deploying, or already the running release. */
  ghost predicate DeployProceeds(records: Records, request: Request) {
    var existing, current := FindByTag(records, request.tag), LatestDeployed(records);
    existing.None? ||
    (&& MatchesRequest(existing.value, request.image.reference, request.bundle)
     && existing.value.status != Deploying
     && !IsCurrent(existing.value, current))
  }

  predicate IsCurrent(existing: Record, current: Option<Record>) {
    existing.status == Deployed && current.Some? && current.value.id == existing.id
  }

  ghost predicate Deploys(h: Host, request: Request, h': Host) {
    || h' == h
    || (&& DeployProceeds(h.records, request)
        && exists id, now ::
            Fresh(h.records, id, now) && Attempted(h, PreparedRelease(request, id, now, LatestDeployed(h.records)), h'))
  }

  /** The gate of `run_rollback` on a scope that is not retired. */
  ghost predicate RollbackProceeds(records: Records, tag: string) {
    && !AnyDeploying(records)
    && LatestDeployed(records).Some?
    && SelectRollback(records, tag).Some?
    && SelectRollback(records, tag).value.id != LatestDeployed(records).value.id
    && LatestDeployed(records).value.health == Succeeded
  }

  ghost predicate RollsBack(h: Host, tag: string, h': Host) {
    || h' == h
    || (&& RollbackProceeds(h.records, tag)
        && exists id, now :: Fresh(h.records, id, now) &&
             Attempted(h, RollbackRelease(SelectRollback(h.records, tag).value, LatestDeployed(h.records).value, id,
                 now), h'))
  }

  // ------------------------------------------- facts about the searches

  lemma {:induction false} FindByTagIsNewest(records: Records, tag: string)
    ensures FindByTag(records, tag).None? <==> forall r <- records :: r.tag != tag
    ensures FindByTag(records, tag).Some? ==>
              exists i | 0 <= i < |records| :: records[i] == FindByTag(records, tag).value && records[i].tag == tag
                && forall j | i < j < |records| :: records[j].tag != tag
  {
    if records != [] && records[|records| - 1].tag != tag {
      var rest := records[..|records| - 1];
      FindByTagIsNewest(rest, tag);
      assert records == rest + [records[|records| - 1]];
      assert forall r :: r in rest ==> r in records;
    }
  }

  lemma {:induction false} SelectRollbackIsNewest(records: Records, tag: string)
    ensures SelectRollback(records, tag).None? <==> forall r <- records :: !(r.tag == tag && Successful(r))
    ensures SelectRollback(records, tag).Some? ==>
              exists i | 0 <= i < |records| ::
                records[i] == SelectRollback(records, tag).value && records[i].tag == tag && Successful(records[i])
                && forall j | i < j < |records| :: !(records[j].tag == tag && Successful(records[j]))
  {
    if records != [] && !(records[|records| - 1].tag == tag && Successful(records[|records| - 1])) {
      var rest := records[..|records| - 1];
      SelectRollbackIsNewest(rest, tag);
      assert records == rest + [records[|records| - 1]];
      assert forall r :: r in rest ==> r in records;
    }
  }

  /** The current release was updated last of all deployed ones; of several
      updated at that moment it was created last, and of those it has the
      greatest id. */
  lemma LatestIsMaximal(records: Records, r: Record, x: Record)
    requires LatestDeployed(records) == Some(r) && x in records && x.status == Deployed
    ensures x.updated <= r.updated
    ensures x.updated == r.updated ==> x.created <= r.created
    ensures x.updated == r.updated && x.created == r.created ==> x.id <= r.id
  {
  }

  lemma {:induction false} FindByIdFinds(records: Records, id: Id)
    ensures FindById(records, Some(id)).Some? <==> exists r <- records :: r.id == id
    ensures FindById(records, Some(id)).Some? ==>
            FindById(records, Some(id)).value in records && FindById(records, Some(id)).value.id == id
  {
    if records != [] {
      FindByIdFinds(records[1..], id);
      assert records == [records[0]] + records[1..];
    }
  }

  lemma {:induction false} NoIdNoRecord(records: Records)
    ensures FindById(records, None) == None
  {
    if records != [] {
      NoIdNoRecord(records[1..]);
    }
  }
}
