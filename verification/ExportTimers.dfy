/** Export timers: one instance name per project, environment and job, and a
    pass that makes the timers of one scope those its release declares. */
module ExportTimers {
  import opened Outcomes

  // ------------------------------------------------------ instance names

  predicate IsLower(c: char) {
    'a' <= c <= 'z'
  }

  predicate IsDigit(c: char) {
    '0' <= c <= '9'
  }

  /** `[a-z][a-z0-9_]{0,31}`: no hyphen. */
  predicate IsExportName(s: string) {
    1 <= |s| <= 32 && IsLower(s[0]) && forall c <- s :: IsLower(c) || IsDigit(c) || c == '_'
  }

  predicate IsHyphenated(s: string) {
    s != [] && IsLower(s[0]) && forall c <- s :: IsLower(c) || IsDigit(c) || c == '-'
  }

  /** What a project must look like to be recovered from an instance. */
  predicate IsProject(s: string) {
    IsHyphenated(s) && 2 <= |s| <= 63
  }

  predicate IsEnvironment(s: string) {
    s == "lab" || s == "staging" || s == "production"
  }

  function TimerInstance(project: string, environment: string): Option<string> {
    var instance := project + "-" + environment;
    if IsEnvironment(environment) && IsHyphenated(instance) && 2 <= |instance| <= 127 then Some(instance) else None
  }

  function ExportInstance(project: string, environment: string, name: string): Option<string> {
    var scope := TimerInstance(project, environment);
    if IsExportName(name) && scope.Some? then Some(scope.value + "-" + name) else None
  }

  /** Everything before the last hyphen and everything after it. */
  function RPartition(s: string): (r: (string, string))
    ensures '-' !in r.1
    ensures if '-' in s then s == r.0 + "-" + r.1 else r == ("", s)
  {
    if '-' !in s then ("", s)
    else
      var front := s[..|s| - 1];
      assert s == front + [s[|s| - 1]];
      if s[|s| - 1] == '-' then (front, "")
      else
        var r := RPartition(front);
        (r.0, r.1 + [s[|s| - 1]])
  }

  /** The last hyphen is where the hyphen-free part starts. */
  lemma NoEarlierHyphen(a: string, b: string, c: string, d: string)
    requires a + "-" + b == c + "-" + d && '-' !in d
    ensures |a| <= |c|
  {
    var s := c + "-" + d;
    assert s[|a|] == '-' by {
      assert (a + "-" + b)[|a|] == '-';
    }
    assert forall i | |c| < i < |s| :: s[i] == d[i - |c| - 1];
  }

  lemma PartsAreUnique(a: string, b: string)
    requires '-' !in b
    ensures RPartition(a + "-" + b) == (a, b)
  {
    var s := a + "-" + b;
    assert s[|a|] == '-';
    var r := RPartition(s);
    NoEarlierHyphen(a, b, r.0, r.1);
    NoEarlierHyphen(r.0, r.1, a, b);
    assert s[..|a|] == a && s[|a| + 1..] == b;
    assert s[..|r.0|] == r.0 && s[|r.0| + 1..] == r.1;
  }

  function SplitInstance(instance: string): Option<(string, string)> {
    var (project, environment) := RPartition(instance);
    if IsEnvironment(environment) && IsProject(project) then Some((project, environment)) else None
  }

  function SplitExportInstance(instance: string): Option<(string, string, string)> {
    var (scope, name) := RPartition(instance);
    var halves := SplitInstance(scope);
    if IsExportName(name) && halves.Some? then Some((halves.value.0, halves.value.1, name)) else None
  }

  lemma InstanceParts(project: string, environment: string, name: string)
    requires ExportInstance(project, environment, name).Some?
    ensures var instance := ExportInstance(project, environment, name).value;
            && instance == project + "-" + environment + "-" + name
            && RPartition(instance) == (project + "-" + environment, name)
            && RPartition(project + "-" + environment) == (project, environment)
  {
    assert '-' !in name && '-' !in environment;
    PartsAreUnique(project + "-" + environment, name);
    PartsAreUnique(project, environment);
  }

  /** Splitting gives back what was exported exactly for the projects the split
      accepts; a one-letter project, which the timer accepts, is refused. */
  lemma SplitInvertsExportIff(project: string, environment: string, name: string)
    requires ExportInstance(project, environment, name).Some?
    ensures var split := SplitExportInstance(ExportInstance(project, environment, name).value);
            split == (if IsProject(project) then Some((project, environment, name)) else None)
  {
    InstanceParts(project, environment, name);
  }

  /** The smallest such instance. */
  lemma OneLetterProjectIsNotSplit()
    ensures ExportInstance("a", "lab", "j") == Some("a-lab-j")
    ensures SplitExportInstance("a-lab-j") == None
  {
    assert "a" + "-" + "lab" == "a-lab" && "a-lab" + "-" + "j" == "a-lab-j";
    SplitInvertsExportIff("a", "lab", "j");
  }

  lemma ExportInvertsSplit(instance: string)
    requires SplitExportInstance(instance).Some?
    ensures var (project, environment, name) := SplitExportInstance(instance).value;
            ExportInstance(project, environment, name) == Some(instance)
  {
  }

  // ------------------------------------------------------------- drop-ins

  const PREFIX := "platform-export@"
  const SUFFIX := ".timer.d"

  function DropIn(instance: string): string {
    PREFIX + instance + SUFFIX
  }

  /** The job name `existing_instances` reads out of a directory entry. */
  function ListedName(scope: string, entry: string): Option<string> {
    var prefix := PREFIX + scope + "-";
    var n := |entry| - |SUFFIX|;
    if |prefix| <= n && prefix <= entry && entry[n..] == SUFFIX && IsExportName(entry[|prefix|..n]) then
      Some(entry[|prefix|..n])
    else None
  }

  /** An entry is listed under a name exactly when it is that job's drop-in. */
  lemma ListedIffDropIn(scope: string, entry: string, name: string)
    ensures ListedName(scope, entry) == Some(name) <==> IsExportName(name) && entry == DropIn(scope + "-" + name)
  {
    var prefix := PREFIX + scope + "-";
    var n := |entry| - |SUFFIX|;
    if IsExportName(name) && entry == DropIn(scope + "-" + name) {
      assert entry == prefix + name + SUFFIX;
      assert entry[|prefix|..n] == name && entry[n..] == SUFFIX && prefix <= entry;
    }
    if ListedName(scope, entry) == Some(name) {
      assert entry == prefix + name + SUFFIX;
      assert entry == DropIn(scope + "-" + name);
    }
  }

  /** No scope lists another scope's drop-in, even when one project's name
      extends the other's. */
  lemma ScopesShareNoDropIn(project: string, environment: string, project': string, environment': string, name': string)
    requires TimerInstance(project, environment).Some? && ExportInstance(project', environment', name').Some?
    requires (project, environment) != (project', environment')
    ensures ListedName(TimerInstance(project, environment).value,
            DropIn(ExportInstance(project', environment', name').value)) == None
  {
    var scope := TimerInstance(project, environment).value;
    var instance' := ExportInstance(project', environment', name').value;
    var listed := ListedName(scope, DropIn(instance'));
    if listed.Some? {
      ListedIffDropIn(scope, DropIn(instance'), listed.value);
      assert DropIn(instance')[|PREFIX|..|DropIn(instance')| - |SUFFIX|] == instance';
      assert DropIn(scope + "-" + listed.value)[|PREFIX|..|DropIn(instance')| - |SUFFIX|] == scope + "-" + listed.value;
      InstanceParts(project', environment', name');
      InstanceParts(project, environment, listed.value);
    }
  }

  // ---------------------------------------------------------- the host

  /** An entry of the systemd directory: an override directory with the schedule
      written in it, if any, or something else of that name. */
  datatype Entry = Override(schedule: Option<string>) | Stray

  type Entries = map<string, Entry>

  predicate IsOverride(entries: Entries, instance: string) {
    DropIn(instance) in entries && entries[DropIn(instance)].Override?
  }

  /** Nothing that is not an override directory is in the way. */
  predicate CanOverride(entries: Entries, instance: string) {
    DropIn(instance) in entries ==> entries[DropIn(instance)].Override?
  }

  predicate IsCalendar(s: string) {
    1 <= |s| <= 64 && forall c <- s :: IsLower(c) || 'A' <= c <= 'Z' || IsDigit(c) || c in " *,.:/~-"
  }

  /** A job that is refused for no fault of the machine fails one of these. */
  predicate Schedulable(entries: Entries, scope: string, name: string, schedule: string) {
    IsExportName(name) && IsCalendar(schedule) && CanOverride(entries, scope + "-" + name)
  }

  datatype Job = Job(name: string, schedule: string)

  datatype Manifest = Manifest(docker: bool, jobs: seq<Job>)

  /** The declared schedules; the later entry of a name wins, and nothing is
      declared unless the database is the platform's. */
  function Declared(jobs: seq<Job>): map<string, string> {
    if jobs == [] then map[] else Declared(jobs[..|jobs| - 1])[jobs[|jobs| - 1].name := jobs[|jobs| - 1].schedule]
  }

  function Wanted(manifest: Manifest): map<string, string> {
    if manifest.docker then Declared(manifest.jobs) else map[]
  }

  /** The schedule a manifest asks for under a name: that of the last job so
      named, and only where the database is the platform's. */
  ghost predicate AsksFor(manifest: Manifest, name: string, schedule: string) {
    manifest.docker && exists i | 0 <= i < |manifest.jobs| ::
      manifest.jobs[i] == Job(name, schedule) && forall j | i < j < |manifest.jobs| :: manifest.jobs[j].name != name
  }

  lemma WantedIffAskedFor(manifest: Manifest, name: string, schedule: string)
    ensures name in Wanted(manifest) && Wanted(manifest)[name] == schedule <==> AsksFor(manifest, name, schedule)
  {
    if manifest.docker {
      DeclaredIsTheLast(manifest.jobs, name, schedule);
    }
  }

  lemma {:induction false} DeclaredIsTheLast(jobs: seq<Job>, name: string, schedule: string)
    ensures name in Declared(jobs) && Declared(jobs)[name] == schedule <==>
            exists i | 0 <= i < |jobs| :: jobs[i] == Job(name, schedule)
              && forall j | i < j < |jobs| :: jobs[j].name != name
  {
    if jobs != [] {
      var n := |jobs| - 1;
      var rest := jobs[..n];
      DeclaredIsTheLast(rest, name, schedule);
      if jobs[n].name == name {
        assert Declared(jobs)[name] == jobs[n].schedule;
        assert jobs[n] == Job(name, jobs[n].schedule);
      } else {
        assert name in Declared(jobs) <==> name in Declared(rest);
        assert forall i | 0 <= i < n :: rest[i] == jobs[i];
        if i :| 0 <= i < n && rest[i] == Job(name, schedule) && forall j | i < j < n :: rest[j].name != name {
          assert jobs[i] == Job(name, schedule) && forall j | i < j < |jobs| :: jobs[j].name != name;
        }
        if i :| 0 <= i < |jobs| && jobs[i] == Job(name, schedule) && forall j | i < j < |jobs| :: jobs[j].name != name {
          assert rest[i] == Job(name, schedule) && forall j | i < j < n :: rest[j].name != name;
        }
      }
    }
  }

  class Systemd {
    var entries: Entries
    /** Instances whose timer is enabled. */
    var enabled: set<string>
    /** On a calm machine no command fails. */
    const calm: bool

    /** Every enabled timer has its override directory, so it is never out of
        sight of `existing_instances`. */
    ghost predicate Listed()
      reads this
    {
      forall instance <- enabled :: IsOverride(entries, instance)
    }

    method Command() returns (ok: bool)
      ensures calm ==> ok
    {
      var o := Call(calm);
      ok := o.Done?;
    }

    /** `write_schedule_override`; a failed write may leave the directory
        without a schedule. */
    method WriteOverride(instance: string, schedule: string) returns (ok: bool, changed: bool)
      requires Listed()
      modifies this`entries
      ensures Listed()
      ensures entries == old(entries)
              || (DropIn(instance) in entries && entries == old(entries)[DropIn(instance) := entries[DropIn(instance)]])
      ensures ok ==> DropIn(instance) in entries && entries[DropIn(instance)] == Override(Some(schedule))
      ensures calm && CanOverride(old(entries), instance) ==> ok
    {
      var entry := DropIn(instance);
      if entry in entries && entries[entry].Stray? {
        return false, false;
      }
      if entry in entries && entries[entry] == Override(Some(schedule)) {
        return true, false;
      }
      ok := Command();
      if ok {
        entries := entries[entry := Override(Some(schedule))];
      } else if * {
        entries := entries[entry := Override(None)];
      }
      return ok, true;
    }

    method EnableTimer(scope: string, name: string, schedule: string) returns (ok: bool)
      requires Listed()
      modifies this
      ensures Listed()
      ensures var entry := DropIn(scope + "-" + name);
              entries == old(entries) || (entry in entries && entries == old(entries)[entry := entries[entry]])
      ensures old(enabled) <= enabled <= old(enabled) + {scope + "-" + name}
      ensures !IsExportName(name) ==> !ok && entries == old(entries) && enabled == old(enabled)
      ensures ok ==> IsCalendar(schedule) && DropIn(scope + "-" + name) in entries
                     && entries[DropIn(scope + "-" + name)] == Override(Some(schedule)) && scope + "-" + name in enabled
      ensures calm && Schedulable(old(entries), scope, name, schedule) ==> ok
    {
      if !IsExportName(name) || !IsCalendar(schedule) {
        return false;
      }
      var instance := scope + "-" + name;
      ok := Command();  // systemd-analyze calendar
      if !ok {
        return;
      }
      var changed: bool;
      ok, changed := WriteOverride(instance, schedule);
      if ok && changed {
        ok := Command();  // daemon-reload
      }
      if ok {
        ok := Command();  // enable --now
        var took := Command();  // a failed call may still have taken effect
        if ok || took {
          enabled := enabled + {instance};
        }
      }
    }

    method DisableTimer(scope: string, name: string) returns (ok: bool)
      requires Listed()
      modifies this
      ensures Listed()
      ensures var entry := DropIn(scope + "-" + name);
              entries == old(entries) || entries == old(entries) - {entry}
              || (entry in old(entries) && old(entries)[entry].Override?
                   && entries == old(entries)[entry := Override(None)])
      ensures old(enabled) - {scope + "-" + name} <= enabled <= old(enabled)
      ensures ok ==> !IsOverride(entries, scope + "-" + name) && scope + "-" + name !in enabled
      ensures calm ==> ok
    {
      var instance := scope + "-" + name;
      var existed := IsOverride(entries, instance);
      ok := Command();  // disable --now
      var took := Command();
      if ok || took {
        enabled := enabled - {instance};
      }
      if ok && existed {
        DropInsDiffer(enabled, instance);
        ok := Command();  // rmtree
        if ok {
          entries := entries - {DropIn(instance)};
          ok := Command();  // daemon-reload
        } else if * {
          entries := entries[DropIn(instance) := Override(None)];
        }
      }
    }

    /** `existing_instances`. */
    method ExistingInstances(scope: string) returns (names: set<string>)
      ensures forall name :: name in names <==> IsExportName(name) && DropIn(scope + "-" + name) in entries
    {
      names := {};
      var todo := entries.Keys;
      while todo != {}
        invariant todo <= entries.Keys
        invariant forall name :: name in names <==>
                IsExportName(name) && DropIn(scope + "-" + name) in entries.Keys - todo
        decreases todo
      {
        var entry :| entry in todo;
        var name := ListedName(scope, entry);
        forall other
          ensures ListedName(scope, entry) == Some(other) <==>
                  IsExportName(other) && entry == DropIn(scope + "-" + other)
        {
          ListedIffDropIn(scope, entry, other);
        }
        todo := todo - {entry};
        if name.Some? {
          names := names + {name.value};
        }
      }
    }

    /** `EnableTimer` for one of the wanted jobs, and what it leaves alone. */
    method EnableOne(scope: string, wanted: map<string, string>, name: string) returns (ok: bool)
      requires Listed() && name in wanted
      modifies this
      ensures Listed()
      ensures ok ==> IsScheduled(entries, enabled, scope, name, wanted[name])
      ensures forall other | other != name :: SameJob(old(entries), old(enabled), entries, enabled, scope, other)
      ensures SameElsewhere(old(entries), old(enabled), entries, enabled, scope, wanted)
      ensures calm && Schedulable(old(entries), scope, name, wanted[name]) ==> ok
    {
      ok := EnableTimer(scope, name, wanted[name]);
      OneJobOnly(scope, name);
      if IsExportName(name) {
        ListedIffDropIn(scope, DropIn(scope + "-" + name), name);
      }
    }

    /** The first loop of `reconcile_export_timers`. */
    method EnableAll(scope: string, wanted: map<string, string>) returns (unscheduled: set<string>)
      requires Listed()
      modifies this
      ensures Listed()
      ensures unscheduled <= wanted.Keys
      ensures forall name <- wanted | name !in unscheduled :: IsScheduled(entries, enabled, scope, name, wanted[name])
      ensures SameElsewhere(old(entries), old(enabled), entries, enabled, scope, wanted)
      ensures calm ==> forall name <- unscheduled :: !Schedulable(old(entries), scope, name, wanted[name])
    {
      unscheduled := {};
      ghost var entries0, enabled0 := entries, enabled;
      var todo := wanted.Keys;
      while todo != {}
        invariant Listed() && todo <= wanted.Keys && unscheduled <= wanted.Keys
        invariant calm ==> forall name <- unscheduled :: !Schedulable(entries0, scope, name, wanted[name])
        invariant forall name <- todo :: SameJob(entries0, enabled0, entries, enabled, scope, name)
        invariant forall name <- wanted | name !in unscheduled && name !in todo ::
                IsScheduled(entries, enabled, scope, name, wanted[name])
        invariant SameElsewhere(entries0, enabled0, entries, enabled, scope, wanted)
        decreases todo
      {
        var name :| name in todo;
        ghost var entries1, enabled1 := entries, enabled;
        var ok := EnableOne(scope, wanted, name);
        SameStays(entries0, enabled0, entries1, enabled1, entries, enabled, scope, wanted, todo - {name});
        assert forall other <- wanted | other !in todo ::
            SameJob(entries1, enabled1, entries, enabled, scope, other);
        todo := todo - {name};
        if !ok {
          unscheduled := unscheduled + {name};
        }
      }
    }

    /** The second loop. */
    method DisableOthers(scope: string, wanted: map<string, string>) returns (stuck: set<string>)
      requires Listed()
      modifies this
      ensures Listed()
      ensures forall name | IsExportName(name) && name !in wanted && name !in stuck ::
                IsGone(entries, enabled, scope, name)
      ensures forall entry | ListedName(scope, entry).None? || ListedName(scope, entry).value in wanted ::
              SameEntry(old(entries), entries, entry)
      ensures forall instance | ListedName(scope, DropIn(instance)).None?
              || ListedName(scope, DropIn(instance)).value in wanted ::
                instance in enabled <==> instance in old(enabled)
      ensures calm ==> stuck == {}
    {
      stuck := {};
      ghost var entries0, enabled0 := entries, enabled;
      var names := ExistingInstances(scope);
      var todo := names - wanted.Keys;
      while todo != {}
        invariant Listed() && todo <= names && todo !! wanted.Keys
        invariant calm ==> stuck == {}
        invariant forall name | IsExportName(name) && name !in wanted && name !in stuck && name !in todo ::
                IsGone(entries, enabled, scope, name)
        invariant forall entry | ListedName(scope, entry).None? || ListedName(scope, entry).value in wanted ::
                SameEntry(entries0, entries, entry)
        invariant forall instance | ListedName(scope, DropIn(instance)).None?
                || ListedName(scope, DropIn(instance)).value in wanted ::
                    instance in enabled <==> instance in enabled0
        decreases todo
      {
        var name :| name in todo;
        todo := todo - {name};
        ghost var entries1, enabled1 := entries, enabled;
        var ok := DisableTimer(scope, name);
        if !ok {
          stuck := stuck + {name};
        }
        OneJobOnly(scope, name);
        ListedIffDropIn(scope, DropIn(scope + "-" + name), name);
        assert forall entry | entry != DropIn(scope + "-" + name) :: SameEntry(entries1, entries, entry);
      }
    }

    /** `reconcile_export_timers`.  What it could not schedule or remove it
        reports; everything else of the scope is as declared, and whatever
        fails, nothing of any other scope is touched. */
    method Reconcile(project: string, environment: string, manifest: Manifest)
      returns (ok: bool, unscheduled: set<string>, stuck: set<string>)
      requires Listed()
      modifies this
      ensures Listed()
      ensures ok <==> TimerInstance(project, environment).Some?
      ensures !ok ==> entries == old(entries) && enabled == old(enabled)
      ensures ok ==> var scope, wanted := TimerInstance(project, environment).value, Wanted(manifest);
                && (forall name <- wanted | name !in unscheduled ::
                     IsScheduled(entries, enabled, scope, name, wanted[name]))
                && (forall name | IsExportName(name) && name !in wanted && name !in stuck ::
                     IsGone(entries, enabled, scope, name))
                && (forall entry | ListedName(scope, entry).None? :: SameEntry(old(entries), entries, entry))
                && (forall instance | ListedName(scope, DropIn(instance)).None? ::
                      instance in enabled <==> instance in old(enabled))
      ensures ok && unscheduled == {} && stuck == {} ==>
                var scope := TimerInstance(project, environment).value;
                forall name | IsExportName(name) ::
                  && (IsOverride(entries, scope + "-" + name) <==> name in Wanted(manifest))
                  && (scope + "-" + name in enabled <==> name in Wanted(manifest))
      ensures ok && calm ==> stuck == {}
      ensures ok && calm ==> unscheduled <= Wanted(manifest).Keys
      ensures ok && calm ==>
                var scope, wanted := TimerInstance(project, environment).value, Wanted(manifest);
                forall name <- unscheduled | name in wanted :: !Schedulable(old(entries), scope, name, wanted[name])
    {
      unscheduled, stuck := {}, {};
      var scope := TimerInstance(project, environment);
      if scope.None? {
        return false, {}, {};
      }
      var wanted := Wanted(manifest);
      unscheduled := EnableAll(scope.value, wanted);
      ghost var entries1, enabled1 := entries, enabled;
      stuck := DisableOthers(scope.value, wanted);
      forall name | name in wanted && name !in unscheduled
        ensures IsScheduled(entries, enabled, scope.value, name, wanted[name])
      {
        assert IsScheduled(entries1, enabled1, scope.value, name, wanted[name]);
        ListedIffDropIn(scope.value, DropIn(scope.value + "-" + name), name);
        assert SameEntry(entries1, entries, DropIn(scope.value + "-" + name));
      }
      forall name | IsExportName(name) && unscheduled == {} && stuck == {}
        ensures IsOverride(entries, scope.value + "-" + name) <==> name in wanted
        ensures scope.value + "-" + name in enabled <==> name in wanted
      {
        assert name in wanted ==> IsScheduled(entries, enabled, scope.value, name, wanted[name]);
        assert name !in wanted ==> IsGone(entries, enabled, scope.value, name);
      }
      return true, unscheduled, stuck;
    }
  }

  /** One job's override and timer are as they were. */
  ghost predicate SameJob(entries: Entries, enabled: set<string>, entries': Entries, enabled': set<string>,
      scope: string, name: string)
  {
    && SameEntry(entries, entries', DropIn(scope + "-" + name))
    && (scope + "-" + name in enabled <==> scope + "-" + name in enabled')
  }

  /** Whatever is no drop-in of a wanted job of this scope is as it was. */
  ghost predicate SameElsewhere(entries: Entries, enabled: set<string>, entries': Entries, enabled': set<string>,
      scope: string, wanted: map<string, string>)
  {
    && (forall entry | ListedName(scope, entry).None? || ListedName(scope, entry).value !in wanted ::
         SameEntry(entries, entries', entry))
    && (forall instance | ListedName(scope, DropIn(instance)).None?
                          || ListedName(scope, DropIn(instance)).value !in wanted ::
         instance in enabled <==> instance in enabled')
  }

  lemma SameStays(entries0: Entries, enabled0: set<string>, entries1: Entries, enabled1: set<string>,
      entries2: Entries, enabled2: set<string>, scope: string, wanted: map<string, string>, todo: set<string>)
    requires SameElsewhere(entries0, enabled0, entries1, enabled1, scope, wanted)
    requires SameElsewhere(entries1, enabled1, entries2, enabled2, scope, wanted)
    requires forall name <- todo :: SameJob(entries0, enabled0, entries1, enabled1, scope, name)
    requires forall name <- todo :: SameJob(entries1, enabled1, entries2, enabled2, scope, name)
    ensures SameElsewhere(entries0, enabled0, entries2, enabled2, scope, wanted)
    ensures forall name <- todo :: SameJob(entries0, enabled0, entries2, enabled2, scope, name)
  {
  }

  ghost predicate IsGone(entries: Entries, enabled: set<string>, scope: string, name: string) {
    !IsOverride(entries, scope + "-" + name) && scope + "-" + name !in enabled
  }

  ghost predicate SameEntry(a: Entries, b: Entries, entry: string) {
    (entry in a <==> entry in b) && (entry in a ==> a[entry] == b[entry])
  }

  ghost predicate IsScheduled(entries: Entries, enabled: set<string>, scope: string, name: string, schedule: string) {
    && IsExportName(name) && IsCalendar(schedule)
    && DropIn(scope + "-" + name) in entries && entries[DropIn(scope + "-" + name)] == Override(Some(schedule))
    && scope + "-" + name in enabled
  }

  lemma DropInsDiffer(instances: set<string>, instance: string)
    ensures forall other <- instances | other != instance :: DropIn(other) != DropIn(instance)
  {
    forall other | other in instances && DropIn(other) == DropIn(instance)
      ensures other == instance
    {
      assert DropIn(other)[|PREFIX|..|DropIn(other)| - |SUFFIX|] == other;
      assert DropIn(instance)[|PREFIX|..|DropIn(instance)| - |SUFFIX|] == instance;
    }
  }

  /** Different jobs of a scope have different drop-ins. */
  lemma OneJobOnly(scope: string, name: string)
    ensures forall other | other != name ::
            scope + "-" + other != scope + "-" + name && DropIn(scope + "-" + other) != DropIn(scope + "-" + name)
  {
    forall other | other != name
      ensures scope + "-" + other != scope + "-" + name && DropIn(scope + "-" + other) != DropIn(scope + "-" + name)
    {
      var prefix := scope + "-";
      assert (scope + "-" + other)[|prefix|..] == other && (scope + "-" + name)[|prefix|..] == name;
      DropInsDiffer({scope + "-" + other}, scope + "-" + name);
    }
  }
}
