/** Which artefacts of superseded releases may go: the newest distinct image
    digests of every ledger stay, and so does what rolling back to them needs. */
module Retention {
  import opened Outcomes
  import opened Ledger
  import opened NginxState

  const DEFAULT_RETAINED_IMAGES: nat := 5

  // ------------------------------------------------------ newest first

  /** `r` put into a newest-first list. */
  function Insert(r: Record, s: Records): (t: Records)
    ensures forall x :: x in t <==> x == r || x in s
  {
    if s == [] || Before(s[0], r) then [r] + s
    else
      var rest := Insert(r, s[1..]);
      assert s == [s[0]] + s[1..];
      [s[0]] + rest
  }

  /** The rollback candidates, newest first. */
  function SuccessfulReleases(records: Records): (s: Records)
    ensures forall x :: x in s <==> x in records && Successful(x)
  {
    if records == [] then []
    else
      var last := records[|records| - 1];
      var rest := SuccessfulReleases(records[..|records| - 1]);
      assert records == records[..|records| - 1] + [last];
      if Successful(last) then Insert(last, rest) else rest
  }

  ghost predicate NewestFirst(s: Records) {
    forall i, j | 0 <= i < j < |s| :: !Before(s[i], s[j])
  }

  lemma {:induction false} InsertKeepsNewestFirst(r: Record, s: Records)
    requires NewestFirst(s)
    ensures NewestFirst(Insert(r, s))
  {
    if s != [] && !Before(s[0], r) {
      InsertKeepsNewestFirst(r, s[1..]);
      var rest := Insert(r, s[1..]);
      forall j | 0 <= j < |rest|
        ensures !Before(s[0], rest[j])
      {
        assert rest[j] in rest;
        if rest[j] != r {
          assert rest[j] in s[1..];
        }
      }
    }
  }

  lemma {:induction false} SuccessfulAreNewestFirst(records: Records)
    ensures NewestFirst(SuccessfulReleases(records))
  {
    if records != [] {
      SuccessfulAreNewestFirst(records[..|records| - 1]);
      InsertKeepsNewestFirst(records[|records| - 1], SuccessfulReleases(records[..|records| - 1]));
    }
  }

  // -------------------------------------------------- retained digests

  /** The first `n` distinct digests met from the front. */
  function NewestDigests(s: Records, n: nat, kept: seq<string>): seq<string> {
    if s == [] then kept
    else if s[0].image.digest in kept then NewestDigests(s[1..], n, kept)
    else if |kept| + 1 >= n then kept + [s[0].image.digest]
    else NewestDigests(s[1..], n, kept + [s[0].image.digest])
  }

  function WithCurrent(digests: seq<string>, current: Option<Record>): seq<string> {
    if current.Some? && current.value.image.digest !in digests then digests + [current.value.image.digest] else digests
  }

  function RetainedDigests(records: Records, n: nat): seq<string> {
    WithCurrent(NewestDigests(SuccessfulReleases(records), n, []), LatestDeployed(records))
  }

  method RetainedImageDigests(records: Records, n: nat) returns (digests: seq<string>)
    requires n >= 1
    ensures digests == RetainedDigests(records, n)
  {
    digests := [];
    var candidates := SuccessfulReleases(records);
    var i := 0;
    while i < |candidates|
      invariant 0 <= i <= |candidates| && |digests| < n
      invariant NewestDigests(candidates, n, []) == NewestDigests(candidates[i..], n, digests)
    {
      var digest := candidates[i].image.digest;
      if digest !in digests {
        digests := digests + [digest];
        if |digests| >= n {
          break;
        }
      }
      i := i + 1;
    }
    digests := WithCurrent(digests, LatestDeployed(records));
  }

  ghost predicate NoDuplicates(s: seq<string>) {
    forall i, j | 0 <= i < j < |s| :: s[i] != s[j]
  }

  /** Release `i` of the list carries `d`, and everything whose digest was left
      out comes later. */
  ghost predicate Leads(s: Records, kept: seq<string>, d: string, i: nat)
    requires i < |s|
  {
    s[i].image.digest == d && (forall j | 0 <= j < |s| && s[j].image.digest !in kept :: i < j)
  }

  ghost predicate KeepsTheFront(s: Records, kept: seq<string>) {
    forall d <- kept :: exists i | 0 <= i < |s| :: Leads(s, kept, d, i)
  }

  lemma {:induction false} NewestDigestsKeepTheFront(s: Records, n: nat, front: Records, kept: seq<string>)
    requires NoDuplicates(kept) && |kept| < n
    requires forall r <- front :: r.image.digest in kept
    requires forall d <- kept :: exists i | 0 <= i < |front| :: front[i].image.digest == d
    ensures var all := NewestDigests(s, n, kept);
            && NoDuplicates(all) && |all| <= n && kept <= all
            && KeepsTheFront(front + s, all)
            && (|all| < n ==> forall r <- front + s :: r.image.digest in all)
            && (s != [] ==> s[0].image.digest in all)
    decreases |s|
  {
    var all := NewestDigests(s, n, kept);
    if s == [] {
      FrontIsKept(front, [], kept);
    } else {
      var front' := front + [s[0]];
      assert front + s == front' + s[1..];
      var kept' := if s[0].image.digest in kept then kept else kept + [s[0].image.digest];
      forall d | d in kept'
        ensures exists i | 0 <= i < |front'| :: front'[i].image.digest == d
      {
        if d in kept {
          var i :| 0 <= i < |front| && front[i].image.digest == d;
          assert front'[i].image.digest == d;
        } else {
          assert front'[|front|].image.digest == d;
        }
      }
      if |kept'| < n {
        NewestDigestsKeepTheFront(s[1..], n, front', kept');
      } else {
        FrontIsKept(front', s[1..], kept');
      }
    }
  }

  /** A front made of exactly the kept digests, whatever follows it. */
  lemma FrontIsKept(front: Records, rest: Records, kept: seq<string>)
    requires forall r <- front :: r.image.digest in kept
    requires forall d <- kept :: exists i | 0 <= i < |front| :: front[i].image.digest == d
    ensures KeepsTheFront(front + rest, kept)
  {
    var s := front + rest;
    assert forall j | 0 <= j < |front| :: s[j] == front[j] && front[j] in front;
    forall d | d in kept
      ensures exists i | 0 <= i < |s| :: Leads(s, kept, d, i)
    {
      var i :| 0 <= i < |front| && front[i].image.digest == d;
      assert Leads(s, kept, d, i);
    }
  }

  ghost predicate UniqueIds(records: Records) {
    forall a, b | a in records && b in records && a.id == b.id :: a == b
  }

  /** In a newest-first list whatever was left out is older than some release of
      each kept digest. */
  lemma LeftOutIsOlder(s: Records, kept: seq<string>, d: string, x: Record)
    requires NewestFirst(s) && UniqueIds(s) && KeepsTheFront(s, kept)
    requires d in kept && x in s && x.image.digest !in kept
    ensures exists y <- s :: y.image.digest == d && Before(x, y)
  {
  }

  /** Retention keeps the newest distinct digests: every success left out is
      strictly older than some release of each kept digest. */
  lemma RetentionKeepsTheNewest(records: Records, n: nat, d: string, x: Record)
    requires n >= 1 && UniqueIds(records)
    requires d in RetainedDigests(records, n)
    requires x in records && Successful(x) && x.image.digest !in RetainedDigests(records, n)
    ensures exists y <- records :: y.status == Deployed && y.image.digest == d && Before(x, y)
  {
    var s, current := SuccessfulReleases(records), LatestDeployed(records);
    var newest := NewestDigests(s, n, []);
    if d in newest {
      NewestDigestsKeepTheFront(s, n, [], []);
      assert [] + s == s;
      SuccessfulAreNewestFirst(records);
      LeftOutIsOlder(s, newest, d, x);
    } else {
      assert current.Some? && d == current.value.image.digest;
      assert !Before(current.value, x) && current.value.id != x.id;
    }
  }

  lemma RetentionHasNoDuplicates(records: Records, n: nat)
    requires n >= 1
    ensures NoDuplicates(RetainedDigests(records, n))
    ensures LatestDeployed(records).Some? ==> LatestDeployed(records).value.image.digest in RetainedDigests(records, n)
    ensures |RetainedDigests(records, n)| <= n + 1
    ensures |RetainedDigests(records, n)| < n ==>
            forall r <- records | Successful(r) :: r.image.digest in RetainedDigests(records, n)
  {
    var s := SuccessfulReleases(records);
    NewestDigestsKeepTheFront(s, n, [], []);
    assert [] + s == s;
  }

  /** On ledgers where `deployed` implies a successful healthcheck the extra
      append for the current release never fires, so the depth is exact. */
  lemma RetentionIsBoundedByDepth(records: Records, n: nat)
    requires n >= 1 && UniqueIds(records)
    requires forall r <- records | r.status == Deployed :: r.health == Succeeded
    ensures RetainedDigests(records, n) == NewestDigests(SuccessfulReleases(records), n, [])
    ensures |RetainedDigests(records, n)| <= n
  {
    var s, current := SuccessfulReleases(records), LatestDeployed(records);
    NewestDigestsKeepTheFront(s, n, [], []);
    SuccessfulAreNewestFirst(records);
    if current.Some? {
      var j :| 0 <= j < |s| && s[j] == current.value;
      assert s[0] in s;
      assert !Before(current.value, s[0]);
      assert j > 0 ==> !Before(s[0], s[j]);
      assert s[0].id == current.value.id;
    }
  }

  // ------------------------------------------------ what a pass may remove

  type Ledgers = map<Scope, Records>

  function DepthFor(scope: Scope, own: Scope, n: nat): nat {
    if scope == own then n else DEFAULT_RETAINED_IMAGES
  }

  function ScopeDigests(ledgers: Ledgers, scope: Scope, own: Scope, n: nat): set<string>
    requires scope in ledgers
  {
    if ledgers[scope] == [] then {} else set d <- RetainedDigests(ledgers[scope], DepthFor(scope, own, n))
  }

  function ProtectedBy(ledgers: Ledgers, scopes: set<Scope>, own: Scope, n: nat): set<string>
    requires scopes <= ledgers.Keys
  {
    set scope <- scopes, d <- ScopeDigests(ledgers, scope, own, n) :: d
  }

  /** Digests some ledger on the host still wants: this scope's at its own
      depth, every other scope's at the default one. */
  function Protected(ledgers: Ledgers, own: Scope, n: nat): set<string> {
    ProtectedBy(ledgers, ledgers.Keys, own, n)
  }

  lemma ProtectingOneMore(ledgers: Ledgers, scopes: set<Scope>, scope: Scope, own: Scope, n: nat)
    requires scopes <= ledgers.Keys && scope in ledgers
    ensures ProtectedBy(ledgers, scopes + {scope}, own, n) ==
            ProtectedBy(ledgers, scopes, own, n) + ScopeDigests(ledgers, scope, own, n)
  {
  }

  /** What is protected, without the definitions above: what this scope retains
      at its own depth, and what every other scope retains at five. */
  lemma ProtectedIff(ledgers: Ledgers, own: Scope, n: nat, d: string)
    requires own in ledgers
    ensures d in Protected(ledgers, own, n) <==>
              || d in RetainedDigests(ledgers[own], n)
              || exists scope <- ledgers :: scope != own && d in RetainedDigests(ledgers[scope], 5)
  {
    if d in RetainedDigests(ledgers[own], n) {
      assert d in ScopeDigests(ledgers, own, own, n);
    }
    if scope :| scope in ledgers && scope != own && d in RetainedDigests(ledgers[scope], 5) {
      assert d in ScopeDigests(ledgers, scope, own, n);
    }
  }

  /** A ledger that cannot be read aborts the pass. */
  method ProtectedImageDigests(ledgers: Ledgers, unreadable: set<Scope>, own: Scope, n: nat)
    returns (ok: bool, protected: set<string>)
    requires n >= 1 && ledgers.Keys !! unreadable
    ensures ok <==> unreadable == {}
    ensures ok ==> protected == Protected(ledgers, own, n)
    ensures ok && own in ledgers ==> forall d :: d in protected <==>
              || d in RetainedDigests(ledgers[own], n)
              || exists scope <- ledgers :: scope != own && d in RetainedDigests(ledgers[scope], 5)
  {
    protected := {};
    var todo := ledgers.Keys + unreadable;
    ghost var done: set<Scope> := {};
    while todo != {}
      invariant todo + done == ledgers.Keys + unreadable && todo !! done && done <= ledgers.Keys
      invariant protected == ProtectedBy(ledgers, done, own, n)
      decreases todo
    {
      var scope :| scope in todo;
      if scope in unreadable {
        return false, {};
      }
      var records := ledgers[scope];
      ProtectingOneMore(ledgers, done, scope, own, n);
      if records != [] {
        var digests := RetainedImageDigests(records, if scope == own then n else DEFAULT_RETAINED_IMAGES);
        protected := protected + set d <- digests;
      }
      todo, done := todo - {scope}, done + {scope};
    }
    assert done == ledgers.Keys && unreadable == {};
    if own in ledgers {
      forall d
        ensures d in Protected(ledgers, own, n) <==>
                  || d in RetainedDigests(ledgers[own], n)
                  || exists scope <- ledgers :: scope != own && d in RetainedDigests(ledgers[scope], 5)
      {
        ProtectedIff(ledgers, own, n, d);
      }
    }
    ok := true;
  }

  /** Bundles of every success whose image is kept. */
  function RetainedBundles(records: Records, n: nat): set<string> {
    set r <- SuccessfulReleases(records) | r.image.digest in RetainedDigests(records, n) :: r.bundle
  }

  /** Record `i` is the first of the ledger with its digest. */
  ghost predicate FirstUse(records: Records, i: nat)
    requires i < |records|
  {
    forall j | 0 <= j < i :: records[j].image.digest != records[i].image.digest
  }

  ghost predicate OffersAt(records: Records, protected: set<string>, reference: string, i: nat)
    requires i < |records|
  {
    FirstUse(records, i) && records[i].image.reference == reference && records[i].image.digest !in protected
  }

  /** The references `plan_retention` offers for removal: per digest nobody
      protects, the one its first record used. */
  ghost predicate Offered(records: Records, protected: set<string>, reference: string) {
    exists i | 0 <= i < |records| :: OffersAt(records, protected, reference, i)
  }

  ghost predicate FirstReferences(records: Records, n: nat, references: map<string, string>)
    requires n <= |records|
  {
    && (forall j | 0 <= j < n :: records[j].image.digest in references)
    && (forall j | 0 <= j < n && FirstUse(records, j) ::
         references[records[j].image.digest] == records[j].image.reference)
    && (forall d <- references :: exists j | 0 <= j < n :: FirstUse(records, j) && records[j].image.digest == d)
  }

  /** `references.setdefault` over the ledger. */
  method CollectReferences(records: Records) returns (references: map<string, string>)
    ensures FirstReferences(records, |records|, references)
  {
    references := map[];
    var i := 0;
    while i < |records|
      invariant 0 <= i <= |records|
      invariant FirstReferences(records, i, references)
    {
      var image := records[i].image;
      if image.digest !in references {
        assert FirstUse(records, i);
        references := references[image.digest := image.reference];
      } else {
        ghost var j :| 0 <= j < i && FirstUse(records, j) && records[j].image.digest == image.digest;
        assert !FirstUse(records, i);
      }
      i := i + 1;
    }
  }

  method PlanRetention(records: Records, n: nat, protected: set<string>)
    returns (bundles: set<string>, removable: set<string>)
    requires n >= 1
    ensures bundles == RetainedBundles(records, n)
    ensures forall reference :: reference in removable <==> Offered(records, protected, reference)
  {
    var kept := RetainedImageDigests(records, n);
    bundles := set r <- SuccessfulReleases(records) | r.image.digest in kept :: r.bundle;
    var references := CollectReferences(records);
    removable := set d <- references | d !in protected :: references[d];
    OfferedAreUnprotectedReferences(records, protected, references);
  }

  lemma OfferedAreUnprotectedReferences(records: Records, protected: set<string>, references: map<string, string>)
    requires FirstReferences(records, |records|, references)
    ensures forall reference :: (exists d <- references :: d !in protected && references[d] == reference) <==>
            Offered(records, protected, reference)
  {
    forall d | d in references && d !in protected
      ensures Offered(records, protected, references[d])
    {
      var j :| 0 <= j < |records| && FirstUse(records, j) && records[j].image.digest == d;
      assert OffersAt(records, protected, references[d], j);
    }
    forall reference | Offered(records, protected, reference)
      ensures exists d <- references :: d !in protected && references[d] == reference
    {
      var i :| 0 <= i < |records| && OffersAt(records, protected, reference, i);
      assert references[records[i].image.digest] == reference;
    }
  }

  predicate IsHex(c: char) {
    '0' <= c <= '9' || 'a' <= c <= 'f'
  }

  /** Only directories named like a bundle digest are candidates. */
  predicate BundleName(name: string) {
    |name| == 64 && forall i | 0 <= i < 64 :: IsHex(name[i])
  }

  /** A pass of `own` after `current` takes no bundle of a kept release and not
      the current release's secrets. */
  ghost predicate Spares(ledgers: Ledgers, own: Scope, current: Id, n: nat,
                         bundles: set<string>, bundles': set<string>, secrets: set<Id>, secrets': set<Id>)
    requires own in ledgers
  {
    && bundles' <= bundles && (forall b <- bundles - bundles' :: b !in RetainedBundles(ledgers[own], n))
    && secrets' <= secrets && (forall id <- secrets - secrets' :: id != current)
  }

  /** It takes only images that are offered and that no container holds. */
  ghost predicate SparesImages(ledgers: Ledgers, own: Scope, n: nat, held: set<string>, images: set<string>,
      images': set<string>)
    requires own in ledgers
  {
    images' <= images && (forall i <- images - images' ::
        i !in held && Offered(ledgers[own], Protected(ledgers, own, n), i))
  }

  /** An immutable reference ends in its digest. */
  predicate Pinned(image: Image) {
    && |image.digest| == 71
    && |image.digest| < |image.reference|
    && image.reference[|image.reference| - 71..] == image.digest
  }

  /** Some release of `own` used this reference, and no ledger on the host
      retains its digest. */
  ghost predicate Disused(ledgers: Ledgers, own: Scope, n: nat, reference: string)
    requires own in ledgers
  {
    exists r <- ledgers[own] ::
      && r.image.reference == reference
      && r.image.digest !in RetainedDigests(ledgers[own], n)
      && forall scope <- ledgers | scope != own :: r.image.digest !in RetainedDigests(ledgers[scope], 5)
  }

  lemma OfferedIsDisused(ledgers: Ledgers, own: Scope, n: nat, reference: string)
    requires own in ledgers && Offered(ledgers[own], Protected(ledgers, own, n), reference)
    ensures Disused(ledgers, own, n, reference)
  {
    var i :| 0 <= i < |ledgers[own]| && OffersAt(ledgers[own], Protected(ledgers, own, n), reference, i);
    ProtectedIff(ledgers, own, n, ledgers[own][i].image.digest);
    assert ledgers[own][i] in ledgers[own];
  }

  /** A reference that carries a retained digest is in use. */
  lemma RetainedIsInUse(ledgers: Ledgers, own: Scope, n: nat, scope: Scope, image: Image)
    requires own in ledgers && scope in ledgers
    requires Pinned(image) && forall r <- ledgers[own] :: Pinned(r.image)
    requires image.digest in RetainedDigests(ledgers[scope], if scope == own then n else 5)
    ensures !Disused(ledgers, own, n, image.reference)
  {
    forall r | r in ledgers[own] && r.image.reference == image.reference
      ensures r.image.digest == image.digest
    {
    }
  }

  /** The two halves of rolling back stay together: a success whose digest the
      pass retains loses neither its bundle nor its image, and no release any
      other scope retains loses its image. */
  ghost predicate KeepsRollbacks(ledgers: Ledgers, own: Scope, n: nat, bundles: set<string>, bundles': set<string>,
      images: set<string>, images': set<string>)
    requires own in ledgers
  {
    && (forall r <- ledgers[own] |
         r.status == Deployed && r.health == Succeeded && r.image.digest in RetainedDigests(ledgers[own], n) ::
           && (r.bundle in bundles ==> r.bundle in bundles')
           && (r.image.reference in images ==> r.image.reference in images'))
    && (forall scope <- ledgers, r <- ledgers[scope] |
         scope != own && Pinned(r.image) && r.image.digest in RetainedDigests(ledgers[scope], 5) ::
           r.image.reference in images ==> r.image.reference in images')
  }

  lemma SparedKeepsRollbacks(ledgers: Ledgers, own: Scope, n: nat, bundles: set<string>, bundles': set<string>,
      images: set<string>, images': set<string>)
    requires own in ledgers && forall r <- ledgers[own] :: Pinned(r.image)
    requires forall b <- bundles - bundles' :: b !in RetainedBundles(ledgers[own], n)
    requires forall i <- images - images' :: Disused(ledgers, own, n, i)
    ensures KeepsRollbacks(ledgers, own, n, bundles, bundles', images, images')
  {
    forall r | r in ledgers[own] && Successful(r) && r.image.digest in RetainedDigests(ledgers[own], n)
      ensures r.bundle in RetainedBundles(ledgers[own], n) && !Disused(ledgers, own, n, r.image.reference)
    {
      RetainedIsInUse(ledgers, own, n, own, r.image);
    }
    forall scope, r | scope in ledgers && r in ledgers[scope] && scope != own && Pinned(r.image)
                      && r.image.digest in RetainedDigests(ledgers[scope], 5)
      ensures !Disused(ledgers, own, n, r.image.reference)
    {
      RetainedIsInUse(ledgers, own, n, scope, r.image);
    }
  }

  /** The artefacts of one scope that are whole, and the images every scope
      shares. */
  class Artefacts {
    var bundles: set<string>
    var secrets: set<Id>
    var images: set<string>
    /** On a calm machine only Docker refuses, and only an image some container
        holds. */
    const calm: bool

    /** A removal that the operating system or Docker may refuse. */
    method Refused() returns (refused: bool)
      ensures calm ==> !refused
    {
      var o := Call(calm);
      refused := !o.Done?;
    }

    /** A refused removal of a tree may have taken part of it: what is reported
        may no longer be whole, everything else is. */
    method PruneStagedBundles(retained: set<string>) returns (removed: set<string>, warned: set<string>)
      modifies this`bundles
      ensures bundles <= old(bundles) && bundles !! removed
      ensures forall b <- old(bundles) | b !in bundles :: b in removed || b in warned
      ensures forall b :: b in removed || b in warned <==> b in old(bundles) && BundleName(b) && b !in retained
      ensures calm ==> warned == {}
    {
      removed, warned := {}, {};
      var todo := bundles;
      while todo != {}
        invariant bundles <= old(bundles) && bundles !! removed && todo <= old(bundles)
        invariant forall b <- old(bundles) | b !in bundles :: b in removed || b in warned
        invariant forall b :: b in removed || b in warned <==>
                b in old(bundles) && b !in todo && BundleName(b) && b !in retained
        invariant calm ==> warned == {}
        decreases todo
      {
        var name :| name in todo;
        todo := todo - {name};
        if BundleName(name) && name !in retained {
          var refused := Refused();
          if refused {
            var torn := Refused();
            warned := warned + {name};
            bundles := if torn then bundles - {name} else bundles;
          } else {
            bundles, removed := bundles - {name}, removed + {name};
          }
        }
      }
    }

    method PruneRuntimeSecrets(current: Id) returns (removed: set<Id>, warned: set<Id>)
      modifies this`secrets
      ensures secrets <= old(secrets) && secrets !! removed
      ensures forall id <- old(secrets) | id !in secrets :: id in removed || id in warned
      ensures forall id :: id in removed || id in warned <==> id in old(secrets) && id != current
      ensures calm ==> warned == {}
    {
      removed, warned := {}, {};
      var todo := secrets;
      while todo != {}
        invariant secrets <= old(secrets) && secrets !! removed && todo <= old(secrets)
        invariant forall id <- old(secrets) | id !in secrets :: id in removed || id in warned
        invariant forall id :: id in removed || id in warned <==> id in old(secrets) && id !in todo && id != current
        invariant calm ==> warned == {}
        decreases todo
      {
        var id :| id in todo;
        todo := todo - {id};
        if id != current {
          var refused := Refused();
          if refused {
            var torn := Refused();
            warned := warned + {id};
            secrets := if torn then secrets - {id} else secrets;
          } else {
            secrets, removed := secrets - {id}, removed + {id};
          }
        }
      }
    }

    /** Docker refuses an image a running container holds. */
    method PruneImages(removable: set<string>, held: set<string>) returns (removed: set<string>, warned: set<string>)
      modifies this`images
      ensures images == old(images) - removed && removed !! held
      ensures forall i :: i in removed || i in warned <==> i in removable
      ensures calm ==> warned <= held
    {
      removed, warned := {}, {};
      var todo := removable;
      while todo != {}
        invariant images == old(images) - removed && removed !! held && todo <= removable
        invariant forall i :: i in removed || i in warned <==> i in removable && i !in todo
        invariant calm ==> warned <= held
        decreases todo
      {
        var image :| image in todo;
        todo := todo - {image};
        var refused := Refused();
        if refused || image in held {
          warned := warned + {image};
        } else {
          images, removed := images - {image}, removed + {image};
        }
      }
    }

    /** One retention pass after `current` was committed as deployed.  What it
        could not remove it reports; everything else it may remove is gone.  An
        unreadable ledger anywhere on the host stops it before any removal. */
    method ApplyRetention(ledgers: Ledgers, unreadable: set<Scope>, own: Scope, current: Id, n: nat, held: set<string>)
      returns (ok: bool, bundlesLeft: set<string>, secretsLeft: set<Id>, imagesLeft: set<string>)
      requires n >= 1 && own in ledgers && ledgers.Keys !! unreadable
      modifies this
      ensures Spares(ledgers, own, current, n, old(bundles), bundles, old(secrets), secrets)
      ensures SparesImages(ledgers, own, n, held, old(images), images)
      ensures forall i <- old(images) - images :: Disused(ledgers, own, n, i)
      ensures (forall r <- ledgers[own] :: Pinned(r.image)) ==>
                KeepsRollbacks(ledgers, own, n, old(bundles), bundles, old(images), images)
      ensures ok <==> unreadable == {}
      ensures !ok ==> bundles == old(bundles) && secrets == old(secrets) && images == old(images)
      ensures ok ==> forall b <- bundles | BundleName(b) :: b in RetainedBundles(ledgers[own], n) || b in bundlesLeft
      ensures ok ==> forall id <- secrets :: id == current || id in secretsLeft
      ensures ok ==> forall i <- images | Offered(ledgers[own], Protected(ledgers, own, n), i) :: i in imagesLeft
      ensures ok ==> forall b <- bundles | BundleName(b) && b !in bundlesLeft ::
                exists r <- ledgers[own] ::
                  && r.status == Deployed && r.health == Succeeded && r.bundle == b
                  && r.image.digest in RetainedDigests(ledgers[own], n)
      ensures calm ==> bundlesLeft == {} && secretsLeft == {} && imagesLeft <= held
    {
      bundlesLeft, secretsLeft, imagesLeft := {}, {}, {};
      var records := ledgers[own];
      var protected: set<string>;
      ok, protected := ProtectedImageDigests(ledgers, unreadable, own, n);
      if !ok {
        return;
      }
      var retainedBundles, removable := PlanRetention(records, n, protected);
      var removedBundles, removedSecrets, removedImages;
      removedBundles, bundlesLeft := PruneStagedBundles(retainedBundles);
      removedSecrets, secretsLeft := PruneRuntimeSecrets(current);
      removedImages, imagesLeft := PruneImages(removable, held);
      forall i | i in old(images) - images
        ensures Disused(ledgers, own, n, i)
      {
        OfferedIsDisused(ledgers, own, n, i);
      }
      if forall r <- records :: Pinned(r.image) {
        SparedKeepsRollbacks(ledgers, own, n, old(bundles), bundles, old(images), images);
      }
    }
  }

  /** A pass offers an image exactly when no ledger protects its digest: its own
      scope's at depth `n`, every other scope's at five, whatever depth that scope
      configured for itself. */
  lemma OfferedIffUnprotected(ledgers: Ledgers, own: Scope, n: nat, i: nat)
    requires own in ledgers && i < |ledgers[own]| && FirstUse(ledgers[own], i)
    requires forall r <- ledgers[own] :: Pinned(r.image)
    ensures Offered(ledgers[own], Protected(ledgers, own, n), ledgers[own][i].image.reference) <==>
              && ledgers[own][i].image.digest !in RetainedDigests(ledgers[own], n)
              && forall scope <- ledgers | scope != own ::
                   ledgers[own][i].image.digest !in RetainedDigests(ledgers[scope], 5)
  {
    var records, protected := ledgers[own], Protected(ledgers, own, n);
    var image := records[i].image;
    assert records[i] in records;
    ProtectedIff(ledgers, own, n, image.digest);
    if image.digest !in protected {
      assert OffersAt(records, protected, image.reference, i);
    }
    if Offered(records, protected, image.reference) {
      var j :| 0 <= j < |records| && OffersAt(records, protected, image.reference, j);
      assert records[j] in records;
    }
  }

  /** No pass offers a reference whose digest some ledger protects. */
  lemma ProtectedIsNotOffered(ledgers: Ledgers, own: Scope, n: nat, scope: Scope, image: Image)
    requires own in ledgers && scope in ledgers
    requires Pinned(image) && forall r <- ledgers[own] :: Pinned(r.image)
    requires image.digest in RetainedDigests(ledgers[scope], if scope == own then n else 5)
    ensures !Offered(ledgers[own], Protected(ledgers, own, n), image.reference)
  {
    RetainedIsInUse(ledgers, own, n, scope, image);
    if Offered(ledgers[own], Protected(ledgers, own, n), image.reference) {
      OfferedIsDisused(ledgers, own, n, image.reference);
    }
  }
}
