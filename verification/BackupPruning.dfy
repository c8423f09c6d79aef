/** Keeping the newest dumps of a scope, and the console's prediction of what one
    more dump would push out. */
module BackupPruning {
  import opened Outcomes

  // -------------------------------------------------------------- stamps

  const DUMP_SUFFIX := ".dump.age"
  const CARD_SUFFIX := ".json"

  predicate IsDigit(c: char) {
    '0' <= c <= '9'
  }

  /** `YYYYMMDDTHHMMSSZ-reason`. */
  predicate IsStamp(s: string) {
    && |s| > 17 && s[8] == 'T' && s[15] == 'Z' && s[16] == '-'
    && (forall i | 0 <= i < 15 && i != 8 :: IsDigit(s[i]))
    && (forall i | 17 <= i < |s| :: 'a' <= s[i] <= 'z' || s[i] == '-')
  }

  function Dump(stamp: string): string {
    stamp + DUMP_SUFFIX
  }

  function CardFile(stamp: string): string {
    stamp + CARD_SUFFIX
  }

  /** The stamp of a file that is named like a dump. */
  function StampOf(file: string): Option<string> {
    var n := |file| - |DUMP_SUFFIX|;
    if n >= 0 && file[n..] == DUMP_SUFFIX && IsStamp(file[..n]) then Some(file[..n]) else None
  }

  lemma StampOfIff(file: string, stamp: string)
    ensures StampOf(file) == Some(stamp) <==> IsStamp(stamp) && file == Dump(stamp)
  {
  }

  /** A dump and a card never share a name. */
  lemma DumpIsNoCard(a: string, b: string)
    ensures Dump(a) != CardFile(b)
  {
    var d, c := Dump(a), CardFile(b);
    assert d[|d| - 1] == 'e' && c[|c| - 1] == 'n';
  }

  lemma DumpsDiffer(a: string, b: string)
    requires a != b
    ensures Dump(a) != Dump(b)
  {
    assert Dump(a)[..|Dump(a)| - |DUMP_SUFFIX|] == a && Dump(b)[..|Dump(b)| - |DUMP_SUFFIX|] == b;
  }

  // --------------------------------------------------------------- order

  /** Strings compare character by character. */
  predicate Less(a: string, b: string) {
    if b == [] then false
    else if a == [] then true
    else a[0] < b[0] || (a[0] == b[0] && Less(a[1..], b[1..]))
  }

  /** Two strings first differ in a smaller character, or one is a beginning of
      the other. */
  ghost predicate FirstDifference(a: string, b: string, k: nat) {
    k <= |a| && k < |b| && a[..k] == b[..k] && (k == |a| || a[k] < b[k])
  }

  lemma {:induction false} LessIffFirstDifference(a: string, b: string)
    ensures Less(a, b) <==> exists k: nat :: FirstDifference(a, b, k)
  {
    if a == [] || b == [] {
      assert b != [] ==> FirstDifference(a, b, 0);
    } else if a[0] != b[0] {
      assert a[0] < b[0] ==> FirstDifference(a, b, 0);
      assert forall k: nat | 0 < k <= |a| && k < |b| :: a[..k][0] == a[0] && b[..k][0] == b[0];
    } else {
      LessIffFirstDifference(a[1..], b[1..]);
      if k: nat :| FirstDifference(a[1..], b[1..], k) {
        assert a[..k + 1] == [a[0]] + a[1..][..k] && b[..k + 1] == [b[0]] + b[1..][..k];
        assert FirstDifference(a, b, k + 1);
      }
      if k: nat :| FirstDifference(a, b, k) {
        assert k > 0;
        assert a[1..][..k - 1] == a[..k][1..] && b[1..][..k - 1] == b[..k][1..];
        assert FirstDifference(a[1..], b[1..], k - 1);
      }
    }
  }

  lemma {:induction false} LessIsTransitive(a: string, b: string, c: string)
    requires Less(a, b) && Less(b, c)
    ensures Less(a, c)
  {
    if a != [] && a[0] == b[0] == c[0] {
      LessIsTransitive(a[1..], b[1..], c[1..]);
    }
  }

  lemma {:induction false} LessIsTotal(a: string, b: string)
    ensures Less(a, b) || a == b || Less(b, a)
    ensures !(Less(a, b) && Less(b, a)) && !Less(a, a)
  {
    if a != [] && b != [] && a[0] == b[0] {
      LessIsTotal(a[1..], b[1..]);
      assert a == [a[0]] + a[1..] && b == [b[0]] + b[1..];
      LessIsTotal(a[1..], a[1..]);
    } else if a != [] {
      LessIsTotal(a[1..], a[1..]);
    }
  }

  ghost predicate Ascending(s: seq<string>) {
    forall i, j | 0 <= i < j < |s| :: Less(s[i], s[j])
  }

  /** Insertion into an ascending list. */
  function Insert(x: string, s: seq<string>): (t: seq<string>)
    ensures forall y :: y in t <==> y == x || y in s
  {
    if s == [] || Less(x, s[0]) then [x] + s
    else
      var rest := Insert(x, s[1..]);
      assert s == [s[0]] + s[1..];
      [s[0]] + rest
  }

  lemma {:induction false} InsertKeepsAscending(x: string, s: seq<string>)
    requires Ascending(s) && x !in s
    ensures Ascending(Insert(x, s))
  {
    if s != [] {
      LessIsTotal(x, s[0]);
      if Less(x, s[0]) {
        forall j | 0 < j < |s|
          ensures Less(x, s[j])
        {
          LessIsTransitive(x, s[0], s[j]);
        }
      } else {
        InsertKeepsAscending(x, s[1..]);
        var rest := Insert(x, s[1..]);
        forall j | 0 <= j < |rest|
          ensures Less(s[0], rest[j])
        {
          assert rest[j] in rest;
          assert rest[j] != x ==> rest[j] in s[1..];
        }
      }
    }
  }

  /** `list_backups` as a fact: the stamps of the dumps, oldest first. */
  ghost predicate IsListing(files: set<string>, stamps: seq<string>) {
    && Ascending(stamps)
    && forall stamp :: stamp in stamps <==> IsStamp(stamp) && Dump(stamp) in files
  }

  lemma AscendingIsInjective(s: seq<string>, i: nat, j: nat)
    requires Ascending(s) && i < |s| && j < |s| && s[i] == s[j]
    ensures i == j
  {
    LessIsTotal(s[i], s[i]);
  }

  // ------------------------------------------------------------- pruning

  /** A dump or a card of one of the first `n` stamps. */
  ghost predicate OfTheFirst(stamps: seq<string>, n: int, file: string) {
    exists k | 0 <= k < |stamps| && k < n :: file == Dump(stamps[k]) || file == CardFile(stamps[k])
  }

  datatype Database = Undeclared | External | Owned

  class Backups {
    /** Regular files of the scope's directory, by name. */
    var files: set<string>
    /** On a calm machine no call fails. */
    const calm: bool

    method ListBackups() returns (stamps: seq<string>)
      ensures IsListing(files, stamps)
    {
      stamps := [];
      var todo := files;
      while todo != {}
        invariant todo <= files && Ascending(stamps)
        invariant forall stamp :: stamp in stamps <==> IsStamp(stamp) && Dump(stamp) in files - todo
        decreases todo
      {
        var file :| file in todo;
        var stamp := StampOf(file);
        forall other
          ensures StampOf(file) == Some(other) <==> IsStamp(other) && file == Dump(other)
        {
          StampOfIff(file, other);
        }
        todo := todo - {file};
        if stamp.Some? {
          InsertKeepsAscending(stamp.value, stamps);
          stamps := Insert(stamp.value, stamps);
        }
      }
    }

    method Unlink(file: string) returns (ok: bool)
      modifies this
      ensures files == if ok then old(files) - {file} else old(files)
      ensures calm ==> ok
    {
      var o := Call(calm);
      ok := o.Done?;
      if ok {
        files := files - {file};
      }
    }

    /** Drop the oldest dumps beyond `retain`; a failure costs a warning. */
    method Prune(retain: nat) returns (ghost stamps: seq<string>, removed: set<string>, failed: set<string>)
      modifies this
      ensures IsListing(old(files), stamps)
      ensures forall i | 0 <= i < |stamps| && |stamps| - i <= retain :: Dump(stamps[i]) in files
      ensures forall i | 0 <= i < |stamps| - retain :: stamps[i] in removed + failed
      ensures forall stamp <- removed :: Dump(stamp) !in files && CardFile(stamp) !in files
      ensures files <= old(files)
      ensures forall file <- old(files) - files :: OfTheFirst(stamps, |stamps| - retain, file)
      ensures calm ==> failed == {}
    {
      var listed := ListBackups();
      stamps := listed;
      removed, failed := {}, {};
      ghost var before := files;
      var n := if |listed| > retain then |listed| - retain else 0;
      var i := 0;
      while i < n
        invariant 0 <= i <= n && files <= before
        invariant forall k | 0 <= k < i :: listed[k] in removed + failed
        invariant forall stamp <- removed :: Dump(stamp) !in files && CardFile(stamp) !in files
        invariant forall file <- before - files :: OfTheFirst(listed, n, file)
        invariant calm ==> failed == {}
      {
        assert OfTheFirst(listed, n, Dump(listed[i])) && OfTheFirst(listed, n, CardFile(listed[i]));
        var ok := Unlink(Dump(listed[i]));
        if ok {
          ok := Unlink(CardFile(listed[i]));
        }
        if ok {
          removed := removed + {listed[i]};
        } else {
          failed := failed + {listed[i]};
        }
        i := i + 1;
      }
      forall j | 0 <= j < |listed| && |listed| - j <= retain
        ensures Dump(listed[j]) in files
      {
        KeptIsNotTouched(listed, n, j);
        assert listed[j] in listed;
        assert Dump(listed[j]) !in before - files;
      }
    }

    /** The dump, its card and the pruning of `create_backup`; `retain` is None
        when the manifest's limit is not a positive number, which is noticed only
        after the dump.  No dump the console called safe goes, nor does the
        newest. */
    method CreateBackup(database: Database, recipients: set<string>, password: Option<string>, stamp: string,
        retain: Option<nat>)
      returns (o: Outcome, ghost was: seq<string>, ghost taken: seq<string>, failed: set<string>)
      requires IsStamp(stamp) && (retain.Some? ==> retain.value >= 1)
      modifies this
      ensures IsListing(old(files), was)
      ensures !database.Owned? || recipients == {} || password.None? || Dump(stamp) in old(files) ==>
              o.Raised? && files == old(files)
      ensures o.Done? ==> retain.Some?
      ensures o.Done? ==>
                forall position: nat, known | position < |was| && !WouldPrune(|was|, position, known)
                    && (known == retain || |was| <= retain.value) ::
                  Dump(was[|was| - 1 - position]) in files
      ensures o.Done? && (forall s <- was :: Less(s, stamp)) ==> Dump(stamp) in files
      ensures o.Done? ==> IsListing(old(files) + {Dump(stamp), CardFile(stamp)}, taken)
      ensures o.Done? ==> forall i | 0 <= i < |taken| ::
                if |taken| - i <= retain.value then Dump(taken[i]) in files
                else taken[i] in failed || (Dump(taken[i]) !in files && CardFile(taken[i]) !in files)
      ensures o.Done? && (forall s <- was :: Less(s, stamp)) ==> CardFile(stamp) in files
      ensures calm && database.Owned? && recipients != {} && password.Some? && Dump(stamp) !in old(files) ==>
                (o.Done? <==> retain.Some?) && failed == {} && (!o.Done? ==> Dump(stamp) in files)
      ensures !o.Done? ==> old(files) <= files <= old(files) + {Dump(stamp), CardFile(stamp)}
    {
      was := ListBackups();
      ghost var before := files;
      if !database.Owned? {
        return Raised, was, [], {};
      }
      if recipients == {} || password.None? {
        return Raised, was, [], {};
      }
      if Dump(stamp) in files {
        return Raised, was, [], {};
      }
      o := Call(calm);
      if !o.Done? {
        return Raised, was, [], {};  // pg_dump or age failed; the temporary file is gone
      }
      files := files + {Dump(stamp)};
      o := Call(calm);
      if !o.Done? {
        return Raised, was, [], {};  // the card could not be written
      }
      files := files + {CardFile(stamp)};
      if retain.None? {
        return Raised, was, [], {};
      }
      o := Done;
      assert files == before + {Dump(stamp), CardFile(stamp)};
      ListingOfOneMore(before, stamp, was);
      ghost var complete := files;
      var removed;
      taken, removed, failed := Prune(retain.value);
      forall position: nat, known | position < |was| && !WouldPrune(|was|, position, known)
          && (known == retain || |was| <= retain.value)
        ensures Dump(was[|was| - 1 - position]) in files
      {
        SafeMeansKept(was, taken, stamp, position, known, retain.value);
      }
      if forall s <- was :: Less(s, stamp) {
        assert stamp in taken;
        ghost var j :| 0 <= j < |taken| && taken[j] == stamp;
        NewestIsLast(taken, j);
        CardOfTheNewestStays(taken, |taken| - retain.value);
        assert !OfTheFirst(taken, |taken| - retain.value, CardFile(stamp));
        assert CardFile(stamp) !in complete - files;
      }
    }
  }

  lemma ListingOfOneMore(files: set<string>, stamp: string, was: seq<string>)
    requires IsStamp(stamp) && IsListing(files, was)
    ensures forall s :: (IsStamp(s) && Dump(s) in files + {Dump(stamp), CardFile(stamp)}) <==> s in was || s == stamp
  {
    forall s
      ensures Dump(s) in files + {Dump(stamp), CardFile(stamp)} <==> Dump(s) in files || s == stamp
    {
      DumpIsNoCard(s, stamp);
      if s != stamp {
        DumpsDiffer(s, stamp);
      }
    }
  }

  /** Pruning the first `n` takes no file of the last stamp. */
  lemma CardOfTheNewestStays(stamps: seq<string>, n: int)
    requires Ascending(stamps) && stamps != [] && n < |stamps|
    ensures !OfTheFirst(stamps, n, CardFile(stamps[|stamps| - 1]))
  {
    var last := stamps[|stamps| - 1];
    forall k | 0 <= k < |stamps| && k < n
      ensures CardFile(last) != Dump(stamps[k]) && CardFile(last) != CardFile(stamps[k])
    {
      LessIsTotal(stamps[k], last);
      DumpIsNoCard(stamps[k], last);
      CardsDiffer(stamps[k], last);
    }
  }

  lemma CardsDiffer(a: string, b: string)
    requires a != b
    ensures CardFile(a) != CardFile(b)
  {
    assert CardFile(a)[..|CardFile(a)| - |CARD_SUFFIX|] == a && CardFile(b)[..|CardFile(b)| - |CARD_SUFFIX|] == b;
  }

  lemma NewestIsLast(stamps: seq<string>, j: nat)
    requires Ascending(stamps) && j < |stamps| && forall s <- stamps :: s == stamps[j] || Less(s, stamps[j])
    ensures j == |stamps| - 1
  {
    LessIsTotal(stamps[j], stamps[|stamps| - 1]);
    LessIsTotal(stamps[j], stamps[j]);
  }

  /** None of the files of the first `n` stamps is the dump of a later one. */
  lemma KeptIsNotTouched(stamps: seq<string>, n: nat, j: nat)
    requires Ascending(stamps) && n <= j < |stamps|
    ensures forall k | 0 <= k < n :: Dump(stamps[j]) != Dump(stamps[k]) && Dump(stamps[j]) != CardFile(stamps[k])
  {
    forall k | 0 <= k < n
      ensures Dump(stamps[j]) != Dump(stamps[k]) && Dump(stamps[j]) != CardFile(stamps[k])
    {
      LessIsTotal(stamps[k], stamps[j]);
      LessIsTotal(stamps[k], stamps[k]);
      DumpsDiffer(stamps[j], stamps[k]);
      DumpIsNoCard(stamps[j], stamps[k]);
    }
  }

  // ---------------------------------------------------------- prediction

  /** `safety_dump_would_prune`, by the chosen dump's position from the newest. */
  predicate WouldPrune(count: nat, position: nat, retain: Option<int>) {
    position == count - 1 || (retain.Some? && position >= retain.value - 1)
  }

  /** Where a stamp of the list stands after one more was taken. */
  lemma PositionAfterOneMore(old_: seq<string>, new_: seq<string>, stamp: string, i: nat)
    requires Ascending(old_) && Ascending(new_) && stamp !in old_ && i < |old_|
    requires forall s :: s in new_ <==> s in old_ || s == stamp
    ensures |new_| == |old_| + 1
    ensures var j := if Less(stamp, old_[i]) then i + 1 else i;
            j < |new_| && new_[j] == old_[i]
  {
    InsertKeepsAscending(stamp, old_);
    var inserted := Insert(stamp, old_);
    SameAscending(new_, inserted);
    InsertedAt(stamp, old_, i);
  }

  lemma {:induction false} InsertedAt(x: string, s: seq<string>, i: nat)
    requires Ascending(s) && i < |s|
    ensures |Insert(x, s)| == |s| + 1
    ensures Insert(x, s)[if Less(x, s[i]) then i + 1 else i] == s[i]
    decreases |s|
  {
    if Less(x, s[0]) {
      if i > 0 {
        LessIsTransitive(x, s[0], s[i]);
      }
    } else if |s| > 1 {
      InsertedAt(x, s[1..], if i > 0 then i - 1 else 0);
      assert i > 0 ==> s[1..][i - 1] == s[i];
    }
  }

  lemma FirstIsIn(s: seq<string>)
    ensures s != [] ==> s[0] in s
  {
  }

  /** An ascending list is determined by its elements. */
  lemma {:induction false} SameAscending(a: seq<string>, b: seq<string>)
    requires Ascending(a) && Ascending(b) && forall s :: s in a <==> s in b
    ensures a == b
  {
    FirstIsIn(b);
    if a != [] {
      assert a[0] in a && a[0] in b && b[0] in a;
      var i :| 0 <= i < |a| && a[i] == b[0];
      var j :| 0 <= j < |b| && b[j] == a[0];
      LessIsTotal(a[0], b[0]);
      assert a[0] == b[0];
      forall s
        ensures s in a[1..] <==> s in b[1..]
      {
        TailHolds(a, s);
        TailHolds(b, s);
      }
      SameAscending(a[1..], b[1..]);
      assert a == [a[0]] + a[1..] && b == [b[0]] + b[1..];
    }
  }

  lemma TailHolds(a: seq<string>, s: string)
    requires Ascending(a) && a != []
    ensures s in a[1..] <==> s in a && s != a[0]
  {
    LessIsTotal(a[0], a[0]);
    assert a == [a[0]] + a[1..];
    assert forall j | 0 <= j < |a| - 1 :: Less(a[0], a[1..][j]);
  }

  /** Among the `retain` newest after one more dump. */
  ghost predicate Survives(stamps: seq<string>, retain: nat, stamp: string) {
    exists j | 0 <= j < |stamps| :: stamps[j] == stamp && |stamps| - j <= retain
  }

  /** When the console says no, one more dump and a pruning at the host's own
      limit keep the chosen dump, if the console knows that limit or the host
      was already within it, whatever the new dump's stamp. */
  lemma SafeMeansKept(old_: seq<string>, new_: seq<string>, stamp: string, position: nat, known: Option<int>,
      retain: nat)
    requires Ascending(old_) && Ascending(new_) && position < |old_|
    requires forall s :: s in new_ <==> s in old_ || s == stamp
    requires !WouldPrune(|old_|, position, known)
    requires known == Some(retain) || |old_| <= retain
    ensures Survives(new_, retain, old_[|old_| - 1 - position])
  {
    if stamp in old_ {
      SameAscending(old_, new_);
      assert new_[|old_| - 1 - position] == old_[|old_| - 1 - position];
    } else {
      PositionAfterOneMore(old_, new_, stamp, |old_| - 1 - position);
    }
  }

  /** For a new dump that is the newest, exactly the positions the manifest's
      limit allows are kept. */
  lemma KeptIff(old_: seq<string>, new_: seq<string>, stamp: string, position: nat, retain: nat)
    requires Ascending(old_) && Ascending(new_) && position < |old_|
    requires forall s <- old_ :: Less(s, stamp)
    requires forall s :: s in new_ <==> s in old_ || s == stamp
    ensures Survives(new_, retain, old_[|old_| - 1 - position]) <==> position + 2 <= retain
  {
    var i := |old_| - 1 - position;
    LessIsTotal(stamp, stamp);
    LessIsTotal(stamp, old_[i]);
    PositionAfterOneMore(old_, new_, stamp, i);
    forall j | 0 <= j < |new_| && new_[j] == old_[i]
      ensures j == i
    {
      AscendingIsInjective(new_, i, j);
    }
  }

  /** What a yes means where the console knows the limit: the chosen dump goes
      with the next one, or it is the oldest there is, which the console always
      warns about. */
  lemma YesMeansGoneOrOldest(old_: seq<string>, new_: seq<string>, stamp: string, position: nat, retain: nat)
    requires Ascending(old_) && Ascending(new_) && position < |old_|
    requires forall s <- old_ :: Less(s, stamp)
    requires forall s :: s in new_ <==> s in old_ || s == stamp
    ensures WouldPrune(|old_|, position, Some(retain)) <==>
            !Survives(new_, retain, old_[|old_| - 1 - position]) || position == |old_| - 1
  {
    KeptIff(old_, new_, stamp, position, retain);
  }
}
