/** The durable state behind the shared reverse proxy, and what a transaction
    promises about it.

    Several project/environment scopes share one vhost directory, one htpasswd
    directory and one ownership directory.  This module holds the values; the
    classes that change them step by step are in NginxTransaction. */
module NginxState {
  import opened Outcomes

  type Text = string
  type Files = map<string, Text>

  datatype Scope = Scope(project: string, environment: string)

  /** One ownership file.  The JSON codec is taken as invertible, so a readable
      file is its record; `Unreadable` is every file the reader or the parser
      rejects. */
  datatype Ownership =
    | Unreadable(raw: Text)
    | Owns(scope: Scope, releaseId: string, fragments: set<string>, auth: set<string>)

  datatype Plan = Plan(scope: Scope, releaseId: string, fragments: Files, auth: Files)

  /** Everything the transactions own: fragments, basic-auth files, ownership. */
  datatype Tree = Tree(vhosts: Files, auth: Files, owners: map<Scope, Ownership>)

  /** What docker-gen printed: the text, and the names its server_name
      directives list. */
  datatype Rendering = Rendering(text: Text, serverNames: set<string>)

  /** SHA-256 over the rendering and the certificate fingerprint, taken as
      collision free. */
  datatype Digest = Digest(config: Rendering, certificates: string)

  /** `misfiled`: the ownership directory also holds a `*.json` that is no
      scope's file. */
  datatype Disk = Disk(tree: Tree, misfiled: bool, pending: bool, config: Option<Rendering>, reconciled: Option<Digest>)

  /** What the nginx process read at its last successful reload. */
  datatype Loaded = Loaded(config: Option<Rendering>, vhosts: Files, auth: Files)

  datatype State = State(disk: Disk, loaded: Option<Loaded>)

  // ---------------------------------------------------------------- names

  const LOCATION_SUFFIX := "_location"

  function HostOf(name: string): string {
    if |LOCATION_SUFFIX| <= |name| && name[|name| - |LOCATION_SUFFIX|..] == LOCATION_SUFFIX
    then name[..|name| - |LOCATION_SUFFIX|]
    else name
  }

  function Hosts(names: set<string>): set<string> {
    set n | n in names :: HostOf(n)
  }

  // ------------------------------------------------------------ ownership

  function OwnedFragments(tree: Tree, scope: Scope): set<string> {
    if scope in tree.owners && tree.owners[scope].Owns? then tree.owners[scope].fragments else {}
  }

  function OwnedAuth(tree: Tree, scope: Scope): set<string> {
    if scope in tree.owners && tree.owners[scope].Owns? then tree.owners[scope].auth else {}
  }

  /** The file parses, names the scope it is filed under, and everything it
      lists is on the disk. */
  ghost predicate Sound(tree: Tree, scope: Scope)
    requires scope in tree.owners
  {
    && tree.owners[scope].Owns?
    && tree.owners[scope].scope == scope
    && tree.owners[scope].fragments <= tree.vhosts.Keys
    && tree.owners[scope].auth <= tree.auth.Keys
  }

  /** No fragment and no basic-auth file is missing or owned twice. */
  ghost predicate WellOwned(tree: Tree) {
    && (forall s <- tree.owners :: Sound(tree, s))
    && (forall s, t | s in tree.owners && t in tree.owners && s != t ::
          OwnedFragments(tree, s) !! OwnedFragments(tree, t) && OwnedAuth(tree, s) !! OwnedAuth(tree, t))
  }

  /** The plan only names files its scope already owns or nobody has. */
  ghost predicate Admissible(tree: Tree, plan: Plan) {
    && (forall n <- plan.fragments :: n in OwnedFragments(tree, plan.scope) || n !in tree.vhosts)
    && (forall n <- plan.auth :: n in OwnedAuth(tree, plan.scope) || n !in tree.auth)
  }

  function TouchedFragments(tree: Tree, plan: Plan): set<string> {
    plan.fragments.Keys + OwnedFragments(tree, plan.scope)
  }

  function TouchedAuth(tree: Tree, plan: Plan): set<string> {
    plan.auth.Keys + OwnedAuth(tree, plan.scope)
  }

  function OwnershipOf(plan: Plan): Ownership {
    Owns(plan.scope, plan.releaseId, plan.fragments.Keys, plan.auth.Keys)
  }

  /** The tree a committed transaction leaves: exactly the plan for its scope,
      old names gone, everything else as it was. */
  function Committed(tree: Tree, plan: Plan): Tree {
    Tree((tree.vhosts - OwnedFragments(tree, plan.scope)) + plan.fragments,
         (tree.auth - OwnedAuth(tree, plan.scope)) + plan.auth,
         tree.owners[plan.scope := OwnershipOf(plan)])
  }

  /** Whatever happened, it happened to the plan's own names only. */
  ghost predicate Confined(tree: Tree, plan: Plan, tree': Tree) {
    && tree'.vhosts - TouchedFragments(tree, plan) == tree.vhosts - TouchedFragments(tree, plan)
    && tree'.auth - TouchedAuth(tree, plan) == tree.auth - TouchedAuth(tree, plan)
    && tree'.owners - {plan.scope} == tree.owners - {plan.scope}
  }

  // -------------------------------------------------- what a block may do

  /** The gate of `prepare`: no unfinished activation, sound ownership and only
      that in its directory, no collision. */
  ghost predicate Admitted(disk: Disk, plan: Plan) {
    !disk.pending && !disk.misfiled && WellOwned(disk.tree) && Admissible(disk.tree, plan)
  }

  function PlanHosts(plan: Plan): set<string> {
    Hosts(plan.fragments.Keys)
  }

  function PreviousHosts(tree: Tree, plan: Plan): set<string> {
    Hosts(OwnedFragments(tree, plan.scope))
  }

  ghost predicate LoadedIsDisk(s: State) {
    s.loaded == Some(Loaded(s.disk.config, s.disk.tree.vhosts, s.disk.tree.auth))
  }

  ghost predicate Serves(config: Option<Rendering>, expected: set<string>, gone: set<string>) {
    config.Some? && expected <= config.value.serverNames && config.value.serverNames !! (gone - expected)
  }

  ghost predicate CommittedTo(s: State, plan: Plan, s': State) {
    && !s'.disk.pending
    && s'.disk.tree == Committed(s.disk.tree, plan)
    && LoadedIsDisk(s')
    && Serves(s'.disk.config, PlanHosts(plan), PreviousHosts(s.disk.tree, plan))
  }

  ghost predicate RestoredTo(s: State, plan: Plan, s': State) {
    && !s'.disk.pending
    && s'.disk.tree == s.disk.tree
    && LoadedIsDisk(s')
    && Serves(s'.disk.config, PreviousHosts(s.disk.tree, plan), PlanHosts(plan))
  }

  ghost predicate LeftPending(s: State, plan: Plan, s': State) {
    s'.disk.pending && Confined(s.disk.tree, plan, s'.disk.tree)
  }

  /** Every way one locked transaction can end, a crash at any write included. */
  ghost predicate Transacted(s: State, plan: Plan, s': State) {
    || s' == s
    || (&& Admitted(s.disk, plan)
        && s'.disk.reconciled == s.disk.reconciled && s'.disk.misfiled == s.disk.misfiled
        && (CommittedTo(s, plan, s') || RestoredTo(s, plan, s') || LeftPending(s, plan, s')))
  }

  // ------------------------------------------------------ what follows

  /** Files of other scopes are never among the names a plan touches. */
  lemma OthersAreUntouched(tree: Tree, plan: Plan, other: Scope)
    requires WellOwned(tree) && Admissible(tree, plan)
    requires other in tree.owners && other != plan.scope
    ensures OwnedFragments(tree, other) !! TouchedFragments(tree, plan)
    ensures OwnedAuth(tree, other) !! TouchedAuth(tree, plan)
  {
  }

  /** Ownership stays sound and disjoint when an admitted plan is committed. */
  lemma CommitKeepsOwnership(tree: Tree, plan: Plan)
    requires WellOwned(tree) && Admissible(tree, plan)
    ensures WellOwned(Committed(tree, plan))
  {
    var tree' := Committed(tree, plan);
    forall s | s in tree'.owners
      ensures Sound(tree', s)
      ensures s != plan.scope ==>
              OwnedFragments(tree', s) !! plan.fragments.Keys && OwnedAuth(tree', s) !! plan.auth.Keys
    {
      if s != plan.scope {
        assert Sound(tree, s);
        OthersAreUntouched(tree, plan, s);
      }
    }
    forall s, t | s in tree'.owners && t in tree'.owners && s != t
      ensures OwnedFragments(tree', s) !! OwnedFragments(tree', t) && OwnedAuth(tree', s) !! OwnedAuth(tree', t)
    {
      if s != plan.scope && t != plan.scope {
        assert OwnedFragments(tree, s) !! OwnedFragments(tree, t) && OwnedAuth(tree, s) !! OwnedAuth(tree, t);
      }
    }
  }

  /** Two directories, name by name: exactly the wanted files, and of the others
      those that were there and were not owned, all with their bytes. */
  ghost predicate Replaces(before: Files, owned: set<string>, wanted: Files, after: Files) {
    && (forall n :: n in after <==> n in wanted || (n in before && n !in owned))
    && (forall n <- wanted :: after[n] == wanted[n])
    && (forall n <- after | n !in wanted :: after[n] == before[n])
  }

  /** What a commit does, name by name: old names of the scope are gone, its new
      files and its ownership are the plan's, and everything else is as it was. */
  lemma CommitNameByName(tree: Tree, plan: Plan)
    ensures var after := Committed(tree, plan);
            && Replaces(tree.vhosts, OwnedFragments(tree, plan.scope), plan.fragments, after.vhosts)
            && Replaces(tree.auth, OwnedAuth(tree, plan.scope), plan.auth, after.auth)
            && after.owners.Keys == tree.owners.Keys + {plan.scope}
            && after.owners[plan.scope] == Owns(plan.scope, plan.releaseId, plan.fragments.Keys, plan.auth.Keys)
            && (forall s <- tree.owners | s != plan.scope :: after.owners[s] == tree.owners[s])
  {
  }

  ghost predicate OwnsFragment(tree: Tree, scope: Scope, name: string) {
    scope in tree.owners && tree.owners[scope].Owns? && name in tree.owners[scope].fragments
  }

  ghost predicate OwnsAuth(tree: Tree, scope: Scope, name: string) {
    scope in tree.owners && tree.owners[scope].Owns? && name in tree.owners[scope].auth
  }

  /** A planned file is refused for one of two reasons: another scope owns it, or
      it lies there and nobody does. */
  ghost predicate Refused(tree: Tree, plan: Plan) {
    || (exists n <- plan.fragments, s <- tree.owners :: s != plan.scope && OwnsFragment(tree, s, n))
    || (exists n <- plan.auth, s <- tree.owners :: s != plan.scope && OwnsAuth(tree, s, n))
    || (exists n <- plan.fragments :: n in tree.vhosts && forall s <- tree.owners :: !OwnsFragment(tree, s, n))
    || (exists n <- plan.auth :: n in tree.auth && forall s <- tree.owners :: !OwnsAuth(tree, s, n))
  }

  lemma AdmissibleIffNotRefused(tree: Tree, plan: Plan)
    requires WellOwned(tree)
    ensures Admissible(tree, plan) <==> !Refused(tree, plan)
  {
    forall n, s | s in tree.owners && s != plan.scope
      ensures OwnsFragment(tree, s, n) ==> n in tree.vhosts && n !in OwnedFragments(tree, plan.scope)
      ensures OwnsAuth(tree, s, n) ==> n in tree.auth && n !in OwnedAuth(tree, plan.scope)
    {
      assert Sound(tree, s);
      assert plan.scope in tree.owners ==>
          && OwnedFragments(tree, s) !! OwnedFragments(tree, plan.scope)
          && OwnedAuth(tree, s) !! OwnedAuth(tree, plan.scope);
    }
    if !Admissible(tree, plan) {
      if n :| n in plan.fragments && n !in OwnedFragments(tree, plan.scope) && n in tree.vhosts {
        assert !OwnsFragment(tree, plan.scope, n);
      } else {
        var n :| n in plan.auth && n !in OwnedAuth(tree, plan.scope) && n in tree.auth;
        assert !OwnsAuth(tree, plan.scope, n);
      }
    }
  }

  /** What a committed activation serves, read off the fragment names: the host of
      each new name, and no host of an old name that no new one mentions. */
  lemma CommittedServesThePlan(s: State, plan: Plan, s': State, n: string, h: string)
    requires CommittedTo(s, plan, s')
    requires n == h + "_location" || (n == h && (|n| < 9 || n[|n| - 9..] != "_location"))
    ensures n in plan.fragments ==> h in s'.disk.config.value.serverNames
    ensures n in OwnedFragments(s.disk.tree, plan.scope) && h !in plan.fragments && h + "_location" !in plan.fragments
            ==> h !in s'.disk.config.value.serverNames
  {
    assert HostOf(n) == h by {
      if n == h + LOCATION_SUFFIX {
        assert n[|n| - 9..] == LOCATION_SUFFIX && n[..|n| - 9] == h;
      }
    }
    if m :| m in plan.fragments && HostOf(m) == h {
      assert m == h || m == h + LOCATION_SUFFIX;
    }
  }

  /** A manifest's plan never names "<host>_location" without "<host>". */
  ghost predicate ClosedUnderHosts(names: set<string>) {
    forall n <- names :: HostOf(n) in names
  }

  ghost predicate HostsClosed(tree: Tree) {
    forall s <- tree.owners :: ClosedUnderHosts(OwnedFragments(tree, s))
  }

  /** With plans built from manifests, not only names but hosts have one owner. */
  lemma HostsHaveOneOwner(tree: Tree, s: Scope, t: Scope)
    requires WellOwned(tree) && HostsClosed(tree)
    requires s in tree.owners && t in tree.owners && s != t
    ensures Hosts(OwnedFragments(tree, s)) !! Hosts(OwnedFragments(tree, t))
  {
  }

  /** Retire is the transaction of the empty plan: the scope keeps nothing and
      every other scope keeps everything. */
  lemma EmptyPlanReleasesEverything(tree: Tree, scope: Scope, releaseId: string)
    requires WellOwned(tree)
    ensures Admissible(tree, Plan(scope, releaseId, map[], map[]))
    ensures var tree' := Committed(tree, Plan(scope, releaseId, map[], map[]));
            && OwnedFragments(tree', scope) == {} && OwnedAuth(tree', scope) == {}
            && (forall n <- OwnedFragments(tree, scope) :: n !in tree'.vhosts)
            && (forall n <- OwnedAuth(tree, scope) :: n !in tree'.auth)
            && (forall t <- tree.owners | t != scope ::
                  && tree'.owners[t] == tree.owners[t]
                  && (forall n <- OwnedFragments(tree, t) :: n in tree'.vhosts && tree'.vhosts[n] == tree.vhosts[n])
                  && (forall n <- OwnedAuth(tree, t) :: n in tree'.auth && tree'.auth[n] == tree.auth[n]))
  {
  }

  // --------------------------------------------------------- file names

  const ENVIRONMENTS := {"lab", "staging", "production"}

  function ScopeFile(scope: Scope): string {
    scope.project + "--" + scope.environment + ".json"
  }

  /** Keying ownership by scope is faithful: no environment contains a hyphen,
      so two scopes never share a file although projects may contain "--". */
  lemma ScopeFileInjective(a: Scope, b: Scope)
    requires a.environment in ENVIRONMENTS && b.environment in ENVIRONMENTS
    requires ScopeFile(a) == ScopeFile(b)
    ensures a == b
  {
    // The last letter before ".json" tells the three environments apart.
    var f := ScopeFile(a);
    assert f[|f| - 6] == a.environment[|a.environment| - 1] == b.environment[|b.environment| - 1];
    assert a.environment == b.environment;
    var n := |f| - |a.environment| - 7;
    assert a.project == f[..n] && b.project == f[..n];
  }
}
