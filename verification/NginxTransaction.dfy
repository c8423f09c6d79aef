/** The fragment transaction: stage, activate, roll back, and the `prepare`
    block around them.

    Every durable write is one atomic step that may succeed, raise before or
    after the rename took effect, or be the last thing the process does.  Loops
    over `sorted(...)` pick names in an arbitrary order here, which covers the
    sorted one. */
module NginxTransaction {
  import opened Outcomes
  import opened NginxState

  /** One directory of regular files: vhost.d, or htpasswd. */
  class Directory {
    var files: Files
    /** On a calm machine no call fails and no process is killed; on one that
        mends, none of those that undo a failure. */
    const calm: bool
    const mends: bool

    constructor (files: Files, calm: bool, mends: bool)
      ensures this.files == files && this.calm == calm && this.mends == mends
    {
      this.files, this.calm, this.mends := files, calm, mends;
    }

    method AtomicWrite(name: string, content: Text, sure: bool) returns (o: Outcome)
      modifies this
      ensures sure ==> o.Done?
      ensures files == old(files)[name := content] || (!o.Done? && files == old(files))
    {
      o := Call(sure);
      if o.Done? {
        files := files[name := content];
        o := Call(sure);  // the directory fsync, after os.replace
      }
    }

    method UnlinkFile(name: string, sure: bool) returns (o: Outcome)
      modifies this
      ensures sure ==> o.Done?
      ensures files == old(files) - {name} || (!o.Done? && files == old(files))
    {
      o := Call(sure);
      if o.Done? {
        files := files - {name};
        o := Call(sure);
      }
    }

    /** Write what is wanted among the affected names and unlink the rest. */
    method Install(affected: set<string>, wanted: Files) returns (o: Outcome)
      requires wanted.Keys <= affected
      modifies this
      ensures calm ==> o.Done?
      ensures files - affected == old(files) - affected
      ensures o.Done? ==> files == (old(files) - affected) + wanted
    {
      var todo := affected;
      while todo != {}
        invariant todo <= affected
        invariant files - affected == old(files) - affected
        invariant forall n <- affected - todo :: n in files <==> n in wanted
        invariant forall n <- affected - todo | n in wanted :: files[n] == wanted[n]
        decreases todo
      {
        var name :| name in todo;
        if name in wanted {
          :- AtomicWrite(name, wanted[name], calm);
        } else if name in files {
          :- UnlinkFile(name, calm);
        }
        todo := todo - {name};
      }
      o := Done;
    }

    /** Put every snapshot back: rewrite what existed, unlink what did not. */
    method Restore(snapshots: map<string, Option<Text>>) returns (o: Outcome)
      modifies this
      ensures mends ==> o.Done?
      ensures files - snapshots.Keys == old(files) - snapshots.Keys
      ensures o.Done? ==> forall n <- snapshots ::
                  && (n in files <==> snapshots[n].Some?)
                  && (n in files ==> files[n] == snapshots[n].value)
    {
      var todo := snapshots.Keys;
      while todo != {}
        invariant todo <= snapshots.Keys
        invariant files - snapshots.Keys == old(files) - snapshots.Keys
        invariant forall n <- snapshots.Keys - todo :: n in files <==> snapshots[n].Some?
        invariant forall n <- snapshots.Keys - todo | n in files :: files[n] == snapshots[n].value
        decreases todo
      {
        var name :| name in todo;
        match snapshots[name] {
          case Some(content) =>
            :- AtomicWrite(name, content, mends);
          case None =>
            if name in files {
              :- UnlinkFile(name, mends);
            }
        }
        todo := todo - {name};
      }
      o := Done;
    }

    /** One ownership record's claim on this directory: every name present, and
        none claimed by another scope before. */
    method Claim(names: set<string>, scope: Scope, claims: map<string, Scope>)
      returns (ok: bool, claims': map<string, Scope>)
      ensures ok <==> names <= files.Keys && forall n <- names | n in claims :: claims[n] == scope
      ensures ok ==> claims' == claims + map n | n in names :: scope
    {
      claims' := claims;
      var todo := names;
      while todo != {}
        invariant todo <= names
        invariant names - todo <= files.Keys
        invariant forall n <- names - todo | n in claims :: claims[n] == scope
        invariant claims' == claims + map n | n in names - todo :: scope
        decreases todo
      {
        var name :| name in todo;
        if name !in files {
          return false, claims';
        }
        if name in claims' && claims'[name] != scope {
          assert name in claims && claims[name] != scope;
          return false, claims';
        }
        claims' := claims'[name := scope];
        todo := todo - {name};
      }
      ok := true;
    }

    method TakeSnapshots(names: set<string>) returns (snapshots: map<string, Option<Text>>)
      ensures snapshots == Snapshot(files, names)
    {
      snapshots := map[];
      var todo := names;
      while todo != {}
        invariant todo <= names
        invariant snapshots == Snapshot(files, names - todo)
        decreases todo
      {
        var name :| name in todo;
        snapshots := snapshots[name := if name in files then Some(files[name]) else None];
        todo := todo - {name};
      }
    }

    /** The two refusals a planned file can meet: owned by another scope, or
        present and owned by nobody. */
    method RefusesPlanned(wanted: Files, scope: Scope, claims: map<string, Scope>) returns (refused: bool)
      ensures refused <==> exists n <- wanted :: Collides(n, scope, claims, files)
    {
      var todo := wanted.Keys;
      while todo != {}
        invariant todo <= wanted.Keys
        invariant forall n <- wanted.Keys - todo :: !Collides(n, scope, claims, files)
        decreases todo
      {
        var name :| name in todo;
        if name in claims {
          if claims[name] != scope {
            assert Collides(name, scope, claims, files);
            return true;
          }
        } else if name in files {
          assert Collides(name, scope, claims, files);
          return true;
        }
        todo := todo - {name};
      }
      refused := false;
    }
  }

  function Snapshot(files: Files, names: set<string>): (s: map<string, Option<Text>>)
    ensures s.Keys == names
  {
    map n | n in names :: if n in files then Some(files[n]) else None
  }

  /** Putting back the affected keys undoes any change that was confined to them. */
  lemma RestoringUndoes<K, V>(before: map<K, V>, keys: set<K>, after: map<K, V>)
    requires after - keys == before - keys
    requires forall k <- keys :: (k in after <==> k in before) && (k in after ==> after[k] == before[k])
    ensures after == before
  {
    forall k | k !in keys
      ensures (k in after <==> k in before) && (k in after ==> after[k] == before[k])
    {
      assert k in after <==> k in after - keys;
      assert k in before <==> k in before - keys;
      assert k in after ==> after[k] == (after - keys)[k];
      assert k in before ==> before[k] == (before - keys)[k];
    }
    assert after.Keys == before.Keys;
  }

  /** Replacing the affected names by the plan is the committed tree. */
  lemma InstallingCommits(before: Files, owned: set<string>, wanted: Files, between: Files)
    requires between - (wanted.Keys + owned) == before - (wanted.Keys + owned)
    ensures (between - (wanted.Keys + owned)) + wanted == (before - owned) + wanted
  {
  }

  /** Claims that say exactly which of these scopes owns what. */
  ghost predicate ExactClaims(owned: Scope -> set<string>, scopes: set<Scope>, claims: map<string, Scope>) {
    && (forall n <- claims :: claims[n] in scopes && n in owned(claims[n]))
    && (forall s <- scopes :: ClaimedBy(owned(s), s, claims))
  }

  ghost predicate ClaimedBy(names: set<string>, scope: Scope, claims: map<string, Scope>) {
    forall n <- names :: n in claims && claims[n] == scope
  }

  ghost predicate Apart(owned: Scope -> set<string>, scopes: set<Scope>) {
    forall s, t | s in scopes && t in scopes && s != t :: owned(s) !! owned(t)
  }

  /** One more scope whose names nobody claimed: still exact, still apart. */
  lemma ClaimingKeepsExact(owned: Scope -> set<string>, scopes: set<Scope>, scope: Scope,
                           claims: map<string, Scope>, claims': map<string, Scope>)
    requires ExactClaims(owned, scopes, claims) && Apart(owned, scopes) && scope !in scopes
    requires forall n <- owned(scope) | n in claims :: claims[n] == scope
    requires claims' == claims + map n | n in owned(scope) :: scope
    ensures ExactClaims(owned, scopes + {scope}, claims') && Apart(owned, scopes + {scope})
  {
  }

  function FragmentsOf(tree: Tree): Scope -> set<string> {
    s => OwnedFragments(tree, s)
  }

  function AuthOf(tree: Tree): Scope -> set<string> {
    s => OwnedAuth(tree, s)
  }

  /** A planned file collides: another scope owns it, or it exists unmanaged. */
  predicate Collides(name: string, scope: Scope, claims: map<string, Scope>, files: Files) {
    if name in claims then claims[name] != scope else name in files
  }

  /** Checked against exact claims, a collision is exactly a file the scope does
      not own and somebody has. */
  lemma CollisionIsForeign(owned: Scope -> set<string>, scopes: set<Scope>, claims: map<string, Scope>,
                           files: Files, scope: Scope, name: string)
    requires ExactClaims(owned, scopes, claims) && Apart(owned, scopes)
    requires forall s <- scopes :: owned(s) <= files.Keys
    requires scope in scopes || owned(scope) == {}
    ensures Collides(name, scope, claims, files) <==> name !in owned(scope) && name in files
  {
  }

  /** The vhost tree, ownership registry, nginx configuration and nginx itself. */
  class ProxyHost {
    const vhosts: Directory
    const auth: Directory
    /** A file of the ownership directory that is no scope's; nothing here writes
        or removes one. */
    const misfiled: bool
    const calm: bool
    const mends: bool
    var owners: map<Scope, Ownership>
    var pending: bool
    var config: Option<Rendering>
    var reconciled: Option<Digest>
    var loaded: Option<Loaded>

    ghost predicate Valid() {
      && vhosts != auth && vhosts.calm == auth.calm == calm && vhosts.mends == auth.mends == mends
      && (calm ==> mends)
    }

    ghost function TheTree(): Tree
      reads this, vhosts, auth
    {
      Tree(vhosts.files, auth.files, owners)
    }

    ghost function Now(): State
      reads this, vhosts, auth
    {
      State(Disk(TheTree(), misfiled, pending, config, reconciled), loaded)
    }

    constructor (vhosts: Directory, auth: Directory, misfiled: bool)
      requires vhosts != auth && vhosts.calm == auth.calm && vhosts.mends == auth.mends
      requires vhosts.calm ==> vhosts.mends
      ensures Valid() && this.vhosts == vhosts && this.auth == auth
      ensures Now() == State(Disk(Tree(vhosts.files, auth.files, map[]), misfiled, false, None, None), None)
    {
      this.vhosts, this.auth, this.misfiled := vhosts, auth, misfiled;
      this.calm, this.mends := vhosts.calm, vhosts.mends;
      owners, pending, config, reconciled, loaded := map[], false, None, None, None;
    }

    // ------------------------------------------------------ single steps

    method SetPending(value: bool, sure: bool) returns (o: Outcome)
      modifies this`pending
      ensures sure ==> o.Done?
      ensures pending == value || (!o.Done? && pending == old(pending))
    {
      o := Call(sure);
      if o.Done? {
        pending := value;
        o := Call(sure);
      }
    }

    method SetConfig(value: Option<Rendering>, sure: bool) returns (o: Outcome)
      modifies this`config
      ensures sure ==> o.Done?
      ensures config == value || (!o.Done? && config == old(config))
    {
      o := Call(sure);
      if o.Done? {
        config := value;
        o := Call(sure);
      }
    }

    method SetOwnership(scope: Scope, value: Option<Ownership>, sure: bool) returns (o: Outcome)
      modifies this`owners
      ensures sure ==> o.Done?
      ensures owners - {scope} == old(owners) - {scope}
      ensures var after := if value.Some? then old(owners)[scope := value.value] else old(owners) - {scope};
              owners == after || (!o.Done? && owners == old(owners))
    {
      o := Call(sure);
      if o.Done? {
        owners := if value.Some? then owners[scope := value.value] else owners - {scope};
        o := Call(sure);
      }
    }

    method SetReconciled(value: Digest) returns (o: Outcome)
      modifies this`reconciled
      ensures calm ==> o.Done?
      ensures reconciled == Some(value) || (!o.Done? && reconciled == old(reconciled))
    {
      o := Call(calm);
      if o.Done? {
        reconciled := Some(value);
        o := Call(calm);
      }
    }

    method TestConfiguration(sure: bool) returns (o: Outcome)
      ensures sure ==> o.Done?
    {
      o := Call(sure);
    }

    /** A reload that fails leaves the running workers and their configuration
        alone; a crash may fall on either side of it. */
    method ReloadNginx(sure: bool) returns (o: Outcome)
      modifies this`loaded
      ensures sure ==> o.Done?
      ensures o.Done? ==> LoadedIsDisk(Now())
      ensures o.Raised? ==> loaded == old(loaded)
      ensures o.Crashed? ==> loaded == old(loaded) || LoadedIsDisk(Now())
    {
      o := Call(sure);
      if o.Done? {
        loaded := Some(Loaded(config, vhosts.files, auth.files));
        var after := Call(sure);
        o := if after.Crashed? then Crashed else Done;
      }
    }

    /** What docker-gen prints: anything at all; when it is sure to work the containers
        of the expected hosts are up and those of the removed ones are gone. */
    method Render(expected: set<string>, removed: set<string>, sure: bool) returns (content: Rendering)
      requires expected !! removed
      ensures sure ==> expected <= content.serverNames && content.serverNames !! removed
    {
      content := *;
      if sure {
        content := Rendering(content.text, (content.serverNames - removed) + expected);
      }
    }

    /** Poll docker-gen until its output names every expected host and none of
        the removed ones, then install it. */
    method RegenerateConfig(expected: set<string>, previous: set<string>, sure: bool) returns (o: Outcome)
      modifies this`config
      ensures sure ==> o.Done?
      ensures o.Done? ==> Serves(config, expected, previous)
    {
      var removed := previous - expected;
      var pollsBeforeDeadline: nat := *;
      while true
        decreases pollsBeforeDeadline
      {
        :- Call(sure);  // docker-gen failed, or printed nothing
        var content := Render(expected, removed, sure);
        var expectedReady := expected <= content.serverNames;
        var removedReady := content.serverNames !! removed;
        if expectedReady && removedReady {
          :- SetConfig(Some(content), sure);
          return Done;
        }
        if pollsBeforeDeadline == 0 {
          return Raised;
        }
        pollsBeforeDeadline := pollsBeforeDeadline - 1;
      }
    }

    // ----------------------------------------------------------- prepare

    /** Read every ownership file: exact on sound registries, refusing the rest. */
    method CollectOwners() returns (ok: bool, claims: map<string, Scope>, authClaims: map<string, Scope>)
      requires Valid()
      ensures ok <==> !misfiled && WellOwned(TheTree())
      ensures ok ==> ExactClaims(FragmentsOf(TheTree()), owners.Keys, claims)
      ensures ok ==> ExactClaims(AuthOf(TheTree()), owners.Keys, authClaims)
    {
      claims, authClaims := map[], map[];
      if misfiled {
        return false, claims, authClaims;
      }
      var todo := owners.Keys;
      ghost var tree := TheTree();
      ghost var fragmentsOf, authOf := FragmentsOf(tree), AuthOf(tree);
      while todo != {}
        invariant todo <= owners.Keys
        invariant forall s <- owners.Keys - todo :: Sound(tree, s)
        invariant Apart(fragmentsOf, owners.Keys - todo) && ExactClaims(fragmentsOf, owners.Keys - todo, claims)
        invariant Apart(authOf, owners.Keys - todo) && ExactClaims(authOf, owners.Keys - todo, authClaims)
        decreases todo
      {
        var scope :| scope in todo;
        ghost var seen := owners.Keys - todo;
        var record := owners[scope];
        if !record.Owns? || record.scope != scope {
          assert !Sound(tree, scope);
          return false, claims, authClaims;
        }
        assert record.fragments == fragmentsOf(scope) && record.auth == authOf(scope);
        var okFragments, claims' := vhosts.Claim(record.fragments, scope, claims);
        if !okFragments {
          if name :| name in record.fragments && name in claims && claims[name] != scope {
            assert name in OwnedFragments(tree, claims[name]) && name in OwnedFragments(tree, scope);
          }
          return false, claims, authClaims;
        }
        ClaimingKeepsExact(fragmentsOf, seen, scope, claims, claims');
        var okAuth, authClaims' := auth.Claim(record.auth, scope, authClaims);
        if !okAuth {
          if name :| name in record.auth && name in authClaims && authClaims[name] != scope {
            assert name in OwnedAuth(tree, authClaims[name]) && name in OwnedAuth(tree, scope);
          }
          return false, claims, authClaims;
        }
        ClaimingKeepsExact(authOf, seen, scope, authClaims, authClaims');
        claims, authClaims := claims', authClaims';
        todo := todo - {scope};
        assert owners.Keys - todo == seen + {scope};
      }
      assert owners.Keys - {} == owners.Keys;
      assert WellOwned(tree) by {
        forall s, t | s in tree.owners && t in tree.owners && s != t
          ensures OwnedFragments(tree, s) !! OwnedFragments(tree, t) && OwnedAuth(tree, s) !! OwnedAuth(tree, t)
        {
          assert fragmentsOf(s) !! fragmentsOf(t) && authOf(s) !! authOf(t);
        }
      }
      ok := true;
    }

    /** The two refusals, against exact claims, are exactly inadmissibility. */
    lemma RefusalsAreInadmissible(plan: Plan, claims: map<string, Scope>, authClaims: map<string, Scope>)
      requires WellOwned(TheTree())
      requires ExactClaims(FragmentsOf(TheTree()), owners.Keys, claims)
      requires ExactClaims(AuthOf(TheTree()), owners.Keys, authClaims)
      ensures Admissible(TheTree(), plan) <==>
              && (forall n <- plan.fragments :: !Collides(n, plan.scope, claims, vhosts.files))
              && (forall n <- plan.auth :: !Collides(n, plan.scope, authClaims, auth.files))
    {
      var tree := TheTree();
      forall s | s in owners
        ensures FragmentsOf(tree)(s) <= vhosts.files.Keys && AuthOf(tree)(s) <= auth.files.Keys
      {
        assert Sound(tree, s);
      }
      forall n: string
        ensures Collides(n, plan.scope, claims, vhosts.files) <==>
                n !in OwnedFragments(tree, plan.scope) && n in vhosts.files
        ensures Collides(n, plan.scope, authClaims, auth.files) <==>
                n !in OwnedAuth(tree, plan.scope) && n in auth.files
      {
        CollisionIsForeign(FragmentsOf(tree), owners.Keys, claims, vhosts.files, plan.scope, n);
        CollisionIsForeign(AuthOf(tree), owners.Keys, authClaims, auth.files, plan.scope, n);
      }
    }

    /** Under the lock and before anything is written: accepts exactly the
        plans the disk admits, and records what it may have to put back. */
    method Prepare(plan: Plan) returns (o: Outcome, t: Transaction?)
      requires Valid()
      ensures o.Done? || o.Raised?
      ensures o.Done? <==> Admitted(Now().disk, plan)
      ensures o.Done? <==> !pending && !misfiled && WellOwned(TheTree()) && !Refused(TheTree(), plan)
      ensures o.Done? <==> t != null
      ensures t != null ==> fresh(t) && t.Valid() && t.host == this && t.plan == plan && t.origin == Now()
      ensures t != null ==> !t.staged && !t.activated && !t.restored && !t.spoiled
    {
      if pending {
        return Raised, null;
      }
      var ok, claims, authClaims := CollectOwners();
      if !ok {
        return Raised, null;
      }
      RefusalsAreInadmissible(plan, claims, authClaims);
      AdmissibleIffNotRefused(TheTree(), plan);
      var refused := vhosts.RefusesPlanned(plan.fragments, plan.scope, claims);
      if refused {
        return Raised, null;
      }
      refused := auth.RefusesPlanned(plan.auth, plan.scope, authClaims);
      if refused {
        return Raised, null;
      }
      var previous: Option<Ownership> := if plan.scope in owners then Some(owners[plan.scope]) else None;
      assert plan.scope in owners ==> Sound(TheTree(), plan.scope);
      var affected := plan.fragments.Keys + if previous.Some? then previous.value.fragments else {};
      var affectedAuth := plan.auth.Keys + if previous.Some? then previous.value.auth else {};
      var snapshots := vhosts.TakeSnapshots(affected);
      var authSnapshots := auth.TakeSnapshots(affectedAuth);
      t := new Transaction(this, plan, previous, snapshots, authSnapshots);
      o := Done;
    }
  }

  class Transaction {
    const host: ProxyHost
    const plan: Plan
    const previous: Option<Ownership>
    const snapshots: map<string, Option<Text>>
    const authSnapshots: map<string, Option<Text>>
    const configSnapshot: Option<Rendering>
    var staged: bool
    var activated: bool
    var restored: bool

    /** The state `prepare` found. */
    ghost const origin: State
    /** A flag no longer describes the disk: the block was staged again after a
        rollback, or a rollback of an activated plan failed half-way. */
    ghost var spoiled: bool

    /** What holds at every point inside the block, flags aside. */
    ghost predicate Armed()
      reads this, host, host.vhosts, host.auth
    {
      && host.Valid()
      && Admitted(origin.disk, plan)
      && previous == (if plan.scope in origin.disk.tree.owners then Some(origin.disk.tree.owners[plan.scope]) else None)
      && snapshots == Snapshot(origin.disk.tree.vhosts, TouchedFragments(origin.disk.tree, plan))
      && authSnapshots == Snapshot(origin.disk.tree.auth, TouchedAuth(origin.disk.tree, plan))
      && configSnapshot == origin.disk.config
      && host.reconciled == origin.disk.reconciled && host.misfiled == origin.disk.misfiled
      && Confined(origin.disk.tree, plan, host.TheTree())
      && (!host.pending ==> host.Now() == origin)
    }

    ghost predicate Valid()
      reads this, host, host.vhosts, host.auth
    {
      && Armed()
      && (staged || activated || restored ==> host.pending)
      && (activated ==> staged)
      && (staged && restored ==> spoiled)
      && (!spoiled && activated ==>
           Served(Committed(origin.disk.tree, plan), PlanHosts(plan), PreviousHosts(origin.disk.tree, plan)))
      && (!spoiled && restored ==> Served(origin.disk.tree, PreviousHosts(origin.disk.tree, plan), PlanHosts(plan)))
    }

    /** nginx runs exactly this tree and a configuration made for it. */
    ghost predicate Served(tree: Tree, expected: set<string>, gone: set<string>)
      reads host, host.vhosts, host.auth
    {
      host.TheTree() == tree && LoadedIsDisk(host.Now()) && Serves(host.config, expected, gone)
    }

    constructor (host: ProxyHost, plan: Plan, previous: Option<Ownership>,
                 snapshots: map<string, Option<Text>>, authSnapshots: map<string, Option<Text>>)
      requires host.Valid() && Admitted(host.Now().disk, plan)
      requires previous == (if plan.scope in host.owners then Some(host.owners[plan.scope]) else None)
      requires snapshots == Snapshot(host.vhosts.files, TouchedFragments(host.TheTree(), plan))
      requires authSnapshots == Snapshot(host.auth.files, TouchedAuth(host.TheTree(), plan))
      ensures Valid() && this.host == host && this.plan == plan && origin == host.Now()
      ensures !staged && !activated && !restored && !spoiled
    {
      this.host, this.plan, this.previous := host, plan, previous;
      this.snapshots, this.authSnapshots, this.configSnapshot := snapshots, authSnapshots, host.config;
      this.origin := host.Now();
      staged, activated, restored, spoiled := false, false, false, false;
    }

    /** Persist the intent before any live file changes. */
    method Stage() returns (o: Outcome)
      requires Valid()
      modifies this, host`pending
      ensures Valid()
      ensures host.calm ==> o.Done?
      ensures o.Done? ==> staged
      ensures spoiled == (old(spoiled) || (old(restored) && !old(staged)))
      ensures activated == old(activated) && restored == old(restored)
      ensures host.pending || !old(host.pending)
    {
      if staged {
        return Done;
      }
      spoiled := spoiled || restored;
      :- host.SetPending(true, host.calm);
      staged := true;
      o := Done;
    }

    method RestoreFiles() returns (o: Outcome)
      requires Armed() && host.pending
      modifies host.vhosts, host.auth, host`config
      ensures Armed()
      ensures host.mends ==> o.Done?
      ensures o.Done? ==> host.vhosts.files == origin.disk.tree.vhosts && host.auth.files == origin.disk.tree.auth
      ensures o.Done? ==> host.config == configSnapshot
    {
      ghost var tree := origin.disk.tree;
      :- host.vhosts.Restore(snapshots);
      RestoringUndoes(tree.vhosts, snapshots.Keys, host.vhosts.files);
      :- host.auth.Restore(authSnapshots);
      RestoringUndoes(tree.auth, authSnapshots.Keys, host.auth.files);
      :- host.SetConfig(configSnapshot, host.mends);
      o := Done;
    }

    method RestoreMetadata() returns (o: Outcome)
      requires Armed() && host.pending
      modifies host`owners
      ensures Armed()
      ensures host.mends ==> o.Done?
      ensures o.Done? ==> host.owners == origin.disk.tree.owners
    {
      ghost var before := origin.disk.tree.owners;
      :- host.SetOwnership(plan.scope, previous, host.mends);
      RestoringUndoes(before, {plan.scope}, host.owners);
      o := Done;
    }

    method InstallBoth() returns (o: Outcome)
      requires Armed() && host.pending
      modifies host.vhosts, host.auth
      ensures Armed()
      ensures host.calm ==> o.Done?
      ensures o.Done? ==> host.vhosts.files == Committed(origin.disk.tree, plan).vhosts
      ensures o.Done? ==> host.auth.files == Committed(origin.disk.tree, plan).auth
      ensures var tree := origin.disk.tree;
              o.Done? ==> && Replaces(tree.vhosts, OwnedFragments(tree, plan.scope), plan.fragments, host.vhosts.files)
                          && Replaces(tree.auth, OwnedAuth(tree, plan.scope), plan.auth, host.auth.files)
    {
      ghost var tree := origin.disk.tree;
      :- host.vhosts.Install(snapshots.Keys, plan.fragments);
      InstallingCommits(tree.vhosts, OwnedFragments(tree, plan.scope), plan.fragments, old(host.vhosts.files));
      :- host.auth.Install(authSnapshots.Keys, plan.auth);
      InstallingCommits(tree.auth, OwnedAuth(tree, plan.scope), plan.auth, old(host.auth.files));
      o := Done;
    }

    /** A failure half-way through restores the files before it is raised. */
    method InstallFragments() returns (o: Outcome)
      requires Armed() && host.pending
      modifies host.vhosts, host.auth, host`config
      ensures Armed()
      ensures host.calm ==> o.Done?
      ensures host.mends && o.Raised? ==> host.vhosts.files == origin.disk.tree.vhosts
      ensures host.mends && o.Raised? ==> host.auth.files == origin.disk.tree.auth && host.config == configSnapshot
      ensures o.Done? ==> host.vhosts.files == Committed(origin.disk.tree, plan).vhosts
      ensures o.Done? ==> host.auth.files == Committed(origin.disk.tree, plan).auth
      ensures var tree := origin.disk.tree;
              o.Done? ==> && Replaces(tree.vhosts, OwnedFragments(tree, plan.scope), plan.fragments, host.vhosts.files)
                          && Replaces(tree.auth, OwnedAuth(tree, plan.scope), plan.auth, host.auth.files)
    {
      o := InstallBoth();
      if o.Raised? {
        var undone := RestoreFiles();
        o := if undone.Crashed? then Crashed else Raised;
      }
    }

    method RecordOwnership() returns (o: Outcome)
      requires Armed() && host.pending
      modifies host`owners
      ensures Armed()
      ensures host.calm ==> o.Done?
      ensures o.Done? ==> host.owners == Committed(origin.disk.tree, plan).owners
    {
      var ownership := OwnershipOf(plan);
      :- host.SetOwnership(plan.scope, Some(ownership), host.calm);
      ghost var owners := origin.disk.tree.owners;
      RestoringUndoes(owners[plan.scope := ownership], {plan.scope}, host.owners);
      o := Done;
    }

    method ActivationSteps() returns (o: Outcome)
      requires Armed() && host.pending
      modifies host, host.vhosts, host.auth
      ensures host.pending && host.reconciled == old(host.reconciled)
      ensures Armed()
      ensures host.calm ==> o.Done?
      ensures o.Done? ==> Served(Committed(origin.disk.tree, plan), PlanHosts(plan),
              PreviousHosts(origin.disk.tree, plan))
      ensures o.Raised? ==> host.loaded == old(host.loaded)
    {
      var previousHosts := if previous.Some? && previous.value.Owns? then Hosts(previous.value.fragments) else {};
      :- InstallFragments();
      :- host.RegenerateConfig(PlanHosts(plan), previousHosts, host.calm);
      :- host.TestConfiguration(host.calm);
      :- RecordOwnership();
      :- host.ReloadNginx(host.calm);
      o := Done;
    }

    /** Activate the candidate, or put the ownership file back and raise with
        the candidate never loaded. */
    method Activate() returns (o: Outcome)
      requires Valid()
      modifies this, host, host.vhosts, host.auth
      ensures Valid()
      ensures staged == old(staged) && restored == old(restored) && spoiled == old(spoiled)
      ensures host.calm && old(staged) ==> o.Done?
      ensures host.mends && old(staged) && o.Raised? ==> host.owners == origin.disk.tree.owners
      ensures o.Done? ==> activated
      ensures !o.Done? ==> activated == old(activated)
      ensures o.Raised? ==> host.loaded == old(host.loaded)
      ensures host.pending == old(host.pending)
    {
      if activated {
        return Done;
      }
      if !staged {
        return Raised;
      }
      o := ActivationSteps();
      if o.Raised? {
        var undone := RestoreMetadata();
        o := if undone.Crashed? then Crashed else Raised;
      }
      if o.Done? {
        activated := true;
      }
    }

    /** Undo the transaction: files, ownership, then a fresh render and reload. */
    method Rollback() returns (o: Outcome)
      requires Valid()
      modifies this, host, host.vhosts, host.auth
      ensures Valid()
      ensures host.mends ==> o.Done?
      ensures old(staged) && o.Done? ==> restored && !staged && !activated && !spoiled
      ensures !o.Done? ==> staged == old(staged) && activated == old(activated) && restored == old(restored)
      ensures !old(staged) ==>
              o.Done? && restored == old(restored) && activated == old(activated) && spoiled == old(spoiled)
      ensures !old(staged) ==> host.Now() == old(host.Now())
      ensures spoiled ==> old(spoiled) || (old(activated) && !o.Done?)
      ensures host.pending == old(host.pending)
    {
      if !staged {
        return Done;
      }
      spoiled := spoiled || activated;
      :- RestoreFiles();
      :- RestoreMetadata();
      var previousHosts := if previous.Some? && previous.value.Owns? then Hosts(previous.value.fragments) else {};
      :- host.RegenerateConfig(previousHosts, PlanHosts(plan), host.mends);
      :- host.TestConfiguration(host.mends);
      :- host.ReloadNginx(host.mends);
      staged := false;
      activated := false;
      restored := true;
      spoiled := false;
      o := Done;
    }

    /** Leaving the `prepare` block: the marker goes only when a flag says the
        tree is settled, and an exception needs the restored one. */
    method Close(bodyFailed: bool) returns (o: Outcome)
      requires Valid()
      modifies host`pending
      ensures old(Settled(bodyFailed)) ==> !host.pending || (!o.Done? && host.pending == old(host.pending))
      ensures !old(Settled(bodyFailed)) ==> host.pending == old(host.pending)
      ensures bodyFailed ==> !o.Done?
      ensures host.calm && !bodyFailed ==> o.Done?
      ensures host.mends && bodyFailed ==> o.Raised? && (restored ==> !host.pending)
      ensures !spoiled ==> Transacted(origin, plan, host.Now())
      ensures !spoiled && !bodyFailed && activated && o.Done? ==> CommittedTo(origin, plan, host.Now())
      ensures !spoiled && restored && !host.pending ==> RestoredTo(origin, plan, host.Now())
    {
      if bodyFailed {
        if restored {
          :- host.SetPending(false, host.mends);
        }
        return Raised;
      }
      if activated || restored {
        :- host.SetPending(false, host.calm);
      }
      o := Done;
    }

    predicate Settled(bodyFailed: bool)
      reads this
    {
      restored || (activated && !bodyFailed)
    }

    /** Wherever the process dies inside the block, the disk is one that
        `Transacted` describes. */
    lemma CrashInsideIsTransacted()
      requires Valid()
      ensures Transacted(origin, plan, host.Now())
    {
    }
  }

  /** Put a release's fragments live outside a deploy: stage, then activate. */
  method ActivateCurrent(host: ProxyHost, plan: Plan) returns (o: Outcome)
    requires host.Valid()
    modifies host, host.vhosts, host.auth
    ensures Transacted(old(host.Now()), plan, host.Now())
    ensures o.Done? ==> CommittedTo(old(host.Now()), plan, host.Now())
    ensures var tree := old(host.TheTree());
            o.Done? ==> && Replaces(tree.vhosts, OwnedFragments(tree, plan.scope), plan.fragments, host.vhosts.files)
                        && Replaces(tree.auth, OwnedAuth(tree, plan.scope), plan.auth, host.auth.files)
    ensures !Admitted(old(host.Now()).disk, plan) ==> !o.Done? && host.Now() == old(host.Now())
    ensures host.calm && Admitted(old(host.Now()).disk, plan) ==> o.Done?
  {
    var t: Transaction?;
    o, t := host.Prepare(plan);
    if t == null {
      return;
    }
    o := t.Stage();
    if o.Done? {
      o := t.Activate();
    }
    if o.Crashed? {
      t.CrashInsideIsTransacted();
      return;
    }
    o := t.Close(o.Raised?);
    CommitNameByName(old(host.TheTree()), plan);
  }

  /** What `retire` does to the proxy: the transaction of the empty plan. */
  method ReleaseDomains(host: ProxyHost, scope: Scope, releaseId: string) returns (o: Outcome, released: set<string>)
    requires host.Valid()
    modifies host, host.vhosts, host.auth
    ensures Transacted(old(host.Now()), Plan(scope, releaseId, map[], map[]), host.Now())
    ensures o.Done? ==> CommittedTo(old(host.Now()), Plan(scope, releaseId, map[], map[]), host.Now())
    ensures host.calm && Admitted(old(host.Now()).disk, Plan(scope, releaseId, map[], map[])) ==> o.Done?
    ensures o.Done? ==> released == Hosts(OwnedFragments(old(host.TheTree()), scope))
    ensures o.Done? ==> OwnedFragments(host.TheTree(), scope) == {} && OwnedAuth(host.TheTree(), scope) == {}
    ensures o.Done? ==> host.config.Some? && host.config.value.serverNames !! released
  {
    var plan := Plan(scope, releaseId, map[], map[]);
    released := {};
    var t: Transaction?;
    o, t := host.Prepare(plan);
    if t == null {
      return;
    }
    o := t.Stage();
    if o.Done? {
      released := if t.previous.Some? && t.previous.value.Owns? then Hosts(t.previous.value.fragments) else {};
      o := t.Activate();
    }
    if o.Crashed? {
      t.CrashInsideIsTransacted();
      return;
    }
    o := t.Close(o.Raised?);
  }
}
