/** The background reconciler: one bounded pass under the transaction lock, and
    what its state digest is worth afterwards. */
module NginxReconcile {
  import opened Outcomes
  import opened NginxState
  import opened NginxTransaction

  /** What one pass meets: whether the lock is taken, the certificate
      fingerprint before and after rendering, and what docker-gen printed. */
  datatype Pass = Pass(busy: bool, before: string, after: string, rendered: Option<Rendering>)

  ghost predicate Transient(s: State, pass: Pass) {
    !pass.busy && !s.disk.pending && pass.rendered.Some? && pass.before != pass.after
  }

  /** The pass renders a candidate to compare with the disk. */
  ghost predicate Compares(s: State, pass: Pass) {
    !pass.busy && !s.disk.pending && pass.rendered.Some? && pass.before == pass.after
  }

  function DigestOf(pass: Pass): Digest
    requires pass.rendered.Some?
  {
    Digest(pass.rendered.value, pass.after)
  }

  ghost predicate Unchanged(s: State, pass: Pass)
    requires pass.rendered.Some?
  {
    s.disk.config == pass.rendered && s.disk.reconciled == Some(DigestOf(pass))
  }

  /** The state with this configuration, digest and loaded configuration; trees
      and marker as they were. */
  ghost function With(s: State, config: Option<Rendering>, reconciled: Option<Digest>, loaded: Option<Loaded>): State {
    State(s.disk.(config := config, reconciled := reconciled), loaded)
  }

  ghost function LoadOf(s: State, config: Option<Rendering>): Option<Loaded> {
    Some(Loaded(config, s.disk.tree.vhosts, s.disk.tree.auth))
  }

  /** Every state a pass that set out to reload can leave: crash or exception at
      any of its writes, without (`fault` false) and with a digest write that
      raised. */
  ghost predicate Interrupted(s: State, pass: Pass, fault: bool, s': State)
    requires pass.rendered.Some?
  {
    var k, c0, d0, d := pass.rendered, s.disk.config, s.disk.reconciled, Some(DigestOf(pass));
    || s' == With(s, c0, d0, s.loaded)
    || s' == With(s, k, d0, s.loaded)
    || s' == With(s, k, d0, LoadOf(s, k))
    || s' == With(s, k, d, LoadOf(s, k))
    || s' == With(s, c0, d0, LoadOf(s, c0))
    || (fault && (s' == With(s, c0, d0, LoadOf(s, k)) || s' == With(s, c0, d, LoadOf(s, k))
         || s' == With(s, c0, d, LoadOf(s, c0))))
  }

  /** One pass, by cases on what it met. */
  ghost predicate Reconciled(s: State, pass: Pass, fault: bool, s': State, o: Outcome, changed: bool) {
    if pass.busy then
      s' == s && o.Done? && !changed
    else if !Compares(s, pass) then
      s' == s && o.Raised? && !changed
    else if Unchanged(s, pass) then
      s' == s && o.Done? && !changed
    else if o.Done? then
      changed && s' == With(s, pass.rendered, Some(DigestOf(pass)), LoadOf(s, pass.rendered))
    else
      Interrupted(s, pass, fault, s') && !changed
  }

  /** A pass whose undo works leaves the configuration it found, on the disk and,
      if nginx had been made to load the candidate, in nginx. */
  ghost predicate Mended(s: State, fault: bool, s': State) {
    && s'.disk.config == s.disk.config
    && (s'.loaded == s.loaded || s'.loaded == LoadOf(s, s.disk.config))
    && (fault ==> s'.loaded == LoadOf(s, s.disk.config))
  }

  /** `tried`: the candidate was written, which the source does before its `try`:
      a write that raises after its rename leaves it on the disk. */
  method Reconcile(host: ProxyHost, pass: Pass)
    returns (o: Outcome, changed: bool, ghost fault: bool, ghost tried: bool)
    requires host.Valid()
    modifies host
    ensures Reconciled(old(host.Now()), pass, fault, host.Now(), o, changed)
    ensures host.calm && Compares(old(host.Now()), pass) ==> o.Done?
    ensures host.mends && tried && o.Raised? ==> Mended(old(host.Now()), fault, host.Now())
    ensures !tried ==> host.Now() == old(host.Now())
                       || (!o.Done? && host.Now() == old(host.Now()).(disk := host.Now().disk)
                            && host.Now().disk == old(host.Now()).disk.(config := pass.rendered))
  {
    changed, fault, tried := false, false, false;
    if pass.busy {
      return Done, false, false, false;
    }
    if host.pending {
      return Raised, false, false, false;
    }
    if pass.rendered.None? || pass.before != pass.after {
      return Raised, false, false, false;
    }
    var candidate := pass.rendered.value;
    var digest := Digest(candidate, pass.after);
    var previousState, previousConfig := host.reconciled, host.config;
    if previousConfig == Some(candidate) && previousState == Some(digest) {
      return Done, false, false, false;
    }
    ghost var s := host.Now();
    o := host.SetConfig(Some(candidate), host.calm);
    if !o.Done? {
      return;
    }
    tried := true;
    var reloading := false;
    o := host.TestConfiguration(host.calm);
    if o.Done? {
      reloading := true;
      o := host.ReloadNginx(host.calm);
    }
    if o.Done? {
      o := host.SetReconciled(digest);
      fault := o.Raised?;
    }
    if o.Raised? {
      o := host.SetConfig(previousConfig, host.mends);
      if o.Done? && reloading {
        o := host.TestConfiguration(host.mends);
        if o.Done? {
          o := host.ReloadNginx(host.mends);
        }
      }
      if o.Done? {
        o := Raised;
      }
      return;
    }
    changed := o.Done?;
  }

  /** The lock is free between two attempts: whoever takes it may leave anything
      at all on the disk and in nginx. */
  method OthersAct(host: ProxyHost)
    requires host.Valid()
    modifies host, host.vhosts, host.auth
  {
    host.vhosts.files, host.auth.files := *, *;
    host.owners, host.pending, host.config, host.reconciled, host.loaded := *, *, *, *, *;
  }

  /** One attempt: the state at its own lock, what it met, and how it ended. */
  datatype Try = Try(start: State, pass: Pass, fault: bool, end: State, outcome: Outcome, changed: bool)

  ghost predicate Honest(t: Try) {
    Reconciled(t.start, t.pass, t.fault, t.end, t.outcome, t.changed)
  }

  /** It lost the certificate race, and with that changed nothing. */
  ghost predicate LostRace(t: Try) {
    Transient(t.start, t.pass) && t.outcome.Raised? && t.end == t.start
  }

  /** At proxy start only the certificate race is retried.  Every attempt is one
      pass from the state it found under its own lock; all but the last lost the
      race and changed nothing, and the last one is the answer. */
  method ReconcileWithRetries(host: ProxyHost, passes: seq<Pass>)
    returns (o: Outcome, changed: bool, ghost tries: seq<Try>)
    requires host.Valid()
    modifies host, host.vhosts, host.auth
    ensures |tries| <= |passes| && forall j | 0 <= j < |tries| :: tries[j].pass == passes[j] && Honest(tries[j])
    ensures forall j | 0 <= j < |tries| - 1 :: LostRace(tries[j])
    ensures passes == [] ==> tries == [] && o.Raised? && !changed && host.Now() == old(host.Now())
    ensures passes != [] ==>
              && tries != [] && tries[0].start == old(host.Now())
              && var last := tries[|tries| - 1];
                 && o == last.outcome && changed == last.changed && host.Now() == last.end
                 && (LostRace(last) ==> |tries| == |passes|)
  {
    tries := [];
    var i := 0;
    while i < |passes|
      invariant i <= |passes| && |tries| == i
      invariant forall j | 0 <= j < i :: tries[j].pass == passes[j] && Honest(tries[j]) && LostRace(tries[j])
      invariant if i == 0 then host.Now() == old(host.Now()) else i < |passes| && tries[0].start == old(host.Now())
    {
      ghost var start := host.Now();
      ghost var fault, tried;
      o, changed, fault, tried := Reconcile(host, passes[i]);
      var lostRace := o.Raised? && !host.pending && passes[i].rendered.Some? && passes[i].before != passes[i].after;
      tries := tries + [Try(start, passes[i], fault, host.Now(), o, changed)];
      if !lostRace || i == |passes| - 1 {
        return;
      }
      OthersAct(host);
      i := i + 1;
    }
    o, changed := Raised, false;
  }

  // ------------------------------------------------------ what follows

  /** The reconciler never touches fragments, ownership or the marker, and a
      marker on the disk stops it before anything else. */
  lemma ReconcilerLeavesTreesAlone(s: State, pass: Pass, fault: bool, s': State, o: Outcome, changed: bool)
    requires Reconciled(s, pass, fault, s', o, changed)
    ensures s'.disk.tree == s.disk.tree && s'.disk.pending == s.disk.pending
    ensures s.disk.pending ==> s' == s
    ensures s'.loaded != s.loaded ==> !s.disk.pending && s'.loaded.Some? && s'.loaded.value.vhosts == s.disk.tree.vhosts
                                      && s'.loaded.value.auth == s.disk.tree.auth
  {
  }

  /** A pass that reloaded makes an identical pass an idle one. */
  lemma SecondPassIsIdle(s: State, pass: Pass, fault: bool, s': State, fault': bool, s'': State, o: Outcome,
      changed: bool)
    requires Reconciled(s, pass, fault, s', Done, true)
    requires Reconciled(s', pass, fault', s'', o, changed)
    ensures o.Done? && !changed && s'' == s'
    ensures LoadedIsDisk(s') && s'.disk.config == pass.rendered
  {
  }

  /** "Unchanged" compares the very render and the very certificates with what
      the disk records, and a reload records them. */
  lemma DigestHoldsRenderAndCertificates(s: State, pass: Pass, fault: bool, s': State, changed: bool)
    requires Reconciled(s, pass, fault, s', Done, changed) && !pass.busy
    ensures pass.rendered.Some? && s'.disk.config == pass.rendered
    ensures s'.disk.reconciled == Some(Digest(pass.rendered.value, pass.after))
    ensures changed <==>
              s.disk.config != pass.rendered || s.disk.reconciled != Some(Digest(pass.rendered.value, pass.after))
  {
  }

  /** So a renewed certificate is never answered by "unchanged", even with the
      same render. */
  lemma OtherCertificatesAreReloaded(s: State, first: Pass, s': State, second: Pass, fault: bool, s'': State,
      o: Outcome, changed: bool)
    requires Reconciled(s, first, false, s', Done, true) && Reconciled(s', second, fault, s'', o, changed)
    requires !second.busy && second.after != first.after
    ensures o.Done? ==> changed && s''.loaded == Some(Loaded(second.rendered, s'.disk.tree.vhosts, s'.disk.tree.auth))
  {
  }

  /** What ends a pass before it compares anything: a taken lock quietly, a
      marker, a failed render and a lost certificate race with an error; none
      changes anything. */
  lemma RefusedPassesChangeNothing(s: State, pass: Pass, fault: bool, s': State, o: Outcome, changed: bool)
    requires Reconciled(s, pass, fault, s', o, changed)
    ensures pass.busy ==> o.Done? && !changed && s' == s
    ensures !pass.busy && (s.disk.pending || pass.rendered.None? || pass.before != pass.after) ==>
              o.Raised? && !changed && s' == s
  {
  }

  /** What the digest claims: the configuration it was taken over, if that is
      the one on the disk, is what nginx runs. */
  ghost predicate DigestTrue(s: State) {
    s.disk.config.Some? && s.disk.reconciled.Some? && s.disk.reconciled.value.config == s.disk.config.value ==>
        LoadedIsDisk(s)
  }

  /** While the digest is true, "unchanged" means nginx runs this very render. */
  lemma UnchangedMeansLoaded(s: State, pass: Pass, fault: bool, s': State)
    requires DigestTrue(s) && !pass.busy
    requires Reconciled(s, pass, fault, s', Done, false)
    ensures s' == s && LoadedIsDisk(s) && s.disk.config == pass.rendered
  {
  }

  /** A deploy, and a pass that dies after its reload, leave a new default.conf
      beside an old digest.  Later that digest can be stale: taken over exactly
      the candidate about to be written, while the disk and nginx hold something
      else. */
  ghost predicate StaleDigest(s: State, pass: Pass) {
    && Compares(s, pass)
    && s.disk.config != pass.rendered
    && s.disk.reconciled.Some? && Some(s.disk.reconciled.value.config) == pass.rendered
    && s.loaded != LoadOf(s, pass.rendered)
  }

  /** The part of it that a look at the disk decides. */
  ghost predicate StaleOnDisk(s: State, pass: Pass) {
    && Compares(s, pass)
    && s.disk.config != pass.rendered
    && s.disk.reconciled.Some? && Some(s.disk.reconciled.value.config) == pass.rendered
  }

  /** Where nginx runs what is on the disk, the look decides it all. */
  lemma StaleIsOnDisk(s: State, pass: Pass)
    ensures StaleDigest(s, pass) ==> StaleOnDisk(s, pass)
    ensures LoadedIsDisk(s) ==> (StaleDigest(s, pass) <==> StaleOnDisk(s, pass))
  {
  }

  ghost predicate AlwaysLeavesDigestTrue(s: State, pass: Pass) {
    forall s', o, changed :: Reconciled(s, pass, false, s', o, changed) ==> DigestTrue(s')
  }

  /** The digest survives a crash at any write of a pass (whose digest write
      does not raise) if and only if it was not stale when the pass began. */
  lemma DigestSurvivesIffNotStale(s: State, pass: Pass)
    requires DigestTrue(s)
    ensures AlwaysLeavesDigestTrue(s, pass) <==> !StaleDigest(s, pass)
  {
    if StaleDigest(s, pass) {
      var s' := With(s, pass.rendered, s.disk.reconciled, s.loaded);
      assert Reconciled(s, pass, false, s', Crashed, false) && !DigestTrue(s');
    }
  }

  /** The digest a raising digest write leaves behind: true again only when the
      pass had not already moved nginx away from the configuration it restores. */
  lemma RaisedDigestWriteCanLie(s: State, pass: Pass)
    requires DigestTrue(s) && Compares(s, pass) && !Unchanged(s, pass)
    ensures (forall s', o, changed :: Reconciled(s, pass, true, s', o, changed) ==> DigestTrue(s'))
            <==> !StaleDigest(s, pass) && !(&& s.disk.config.Some? && s.disk.config != pass.rendered
                                            && s.disk.reconciled.Some?
                                                && s.disk.reconciled.value.config == s.disk.config.value)
  {
    var c0, d0 := s.disk.config, s.disk.reconciled;
    if StaleDigest(s, pass) {
      var s' := With(s, pass.rendered, d0, s.loaded);
      assert Reconciled(s, pass, true, s', Crashed, false) && !DigestTrue(s');
    }
    if c0.Some? && c0 != pass.rendered && d0.Some? && d0.value.config == c0.value {
      var s' := With(s, c0, d0, LoadOf(s, pass.rendered));
      assert Reconciled(s, pass, true, s', Raised, false) && !DigestTrue(s');
    }
  }
}
