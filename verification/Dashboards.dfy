/** Making the dashboards directory hold exactly what the serving releases ship,
    and leaving alone what already reads right. */
module Dashboards {
  import opened Outcomes
  import opened TextMode

  /** An item of a folder: a regular file with text, one that cannot be read or
      decoded, or something that is not a regular file at all. */
  datatype Item = File(text: string) | Unreadable | Alien

  datatype Entry = Directory(items: map<string, Item>) | Stray

  type Tree = map<string, Entry>

  type Files = map<string, string>

  /** `None` asks to leave the folder as it is. */
  type Wanted = map<string, Option<Files>>

  datatype Change =
    | RemovedFolder(folder: string)
    | RemovedItem(folder: string, item: string)
    | Wrote(folder: string, item: string)

  predicate ReadsAs(item: Item, text: string) {
    item.File? && Translate(item.text) == text
  }

  // --------------------------------------------------- what one call does

  function FilesOf(wanted: Wanted, folder: string): Files {
    if folder in wanted && wanted[folder].Some? then wanted[folder].value else map[]
  }

  predicate LeftAlone(wanted: Wanted, folder: string) {
    folder in wanted && wanted[folder].None?
  }

  predicate Stays(items: map<string, Item>, files: Files, item: string)
    requires item in items
  {
    !items[item].Alien? && item in files
  }

  /** The folder after the first half of the call, which only removes. */
  function Cleaned(entry: Entry, wanted: Wanted, folder: string): Option<Entry> {
    var files := FilesOf(wanted, folder);
    if entry.Stray? then None
    else if LeftAlone(wanted, folder) then Some(entry)
    else if files == map[] then None
    else Some(Directory(map item <- entry.items | Stays(entry.items, files, item) :: entry.items[item]))
  }

  function ItemAt(tree: Tree, folder: string, item: string): Option<Item> {
    if folder in tree && tree[folder].Directory? && item in tree[folder].items then
      Some(tree[folder].items[item])
    else None
  }

  predicate UpToDate(tree: Tree, folder: string, item: string, text: string) {
    ItemAt(tree, folder, item).Some? && ReadsAs(ItemAt(tree, folder, item).value, text)
  }

  predicate Survives(tree: Tree, wanted: Wanted, folder: string) {
    (folder in tree && Cleaned(tree[folder], wanted, folder).Some?) || FilesOf(wanted, folder) != map[]
  }

  /** A wanted item at the end: the file that reads right, or a new one. */
  function Written(tree: Tree, folder: string, files: Files, item: string): Item
    requires item in files
  {
    if UpToDate(tree, folder, item, files[item]) then ItemAt(tree, folder, item).value else File(files[item])
  }

  predicate Writes(tree: Tree, folder: string, files: Files, c: Change) {
    c.Wrote? && c.folder == folder && c.item in files && !UpToDate(tree, folder, c.item, files[c.item])
  }

  function SyncedFolder(tree: Tree, wanted: Wanted, folder: string): Entry
    requires Survives(tree, wanted, folder)
  {
    if LeftAlone(wanted, folder) then tree[folder]
    else
      var files := FilesOf(wanted, folder);
      Directory(map item <- files :: Written(tree, folder, files, item))
  }

  /** The tree after a whole call. */
  function Synced(tree: Tree, wanted: Wanted): Tree {
    map folder <- tree.Keys + wanted.Keys | Survives(tree, wanted, folder) :: SyncedFolder(tree, wanted, folder)
  }

  /** The changes a call reports. */
  ghost predicate Reported(tree: Tree, wanted: Wanted, c: Change) {
    match c
    case RemovedFolder(folder) => folder in tree && Cleaned(tree[folder], wanted, folder).None?
    case RemovedItem(folder, item) =>
      && folder in tree && tree[folder].Directory? && !LeftAlone(wanted, folder)
      && item in tree[folder].items && !Stays(tree[folder].items, FilesOf(wanted, folder), item)
    case Wrote(folder, item) =>
      item in FilesOf(wanted, folder) && !UpToDate(tree, folder, item, FilesOf(wanted, folder)[item])
  }

  // ---------------------------------------------- a call that ends early

  predicate ReadsRight(item: Option<Item>, files: Files, name: string) {
    item.Some? && name in files && ReadsAs(item.value, files[name])
  }

  /** What a call, however far it got, may have made of one item: nothing, or,
      unless it read right already, removed it or written what is wanted. */
  predicate ItemMoves(b: Option<Item>, files: Files, name: string, a: Option<Item>) {
    || a == b
    || (!ReadsRight(b, files, name) && (a.None? || (name in files && a.value == File(files[name]))))
  }

  ghost predicate FolderMoves(before: Tree, wanted: Wanted, after: Tree, folder: string) {
    if LeftAlone(wanted, folder) then
      SameDirectory(before, after, folder)
    else
      forall item :: ItemMoves(ItemAt(before, folder, item), FilesOf(wanted, folder), item, ItemAt(after, folder, item))
  }

  /** Links and files may go; a real folder is the same in both. */
  ghost predicate SameDirectory(before: Tree, after: Tree, folder: string) {
    && (IsDirectory(before, folder) <==> IsDirectory(after, folder))
    && (IsDirectory(before, folder) ==> after[folder] == before[folder])
  }

  predicate IsDirectory(tree: Tree, folder: string) {
    folder in tree && tree[folder].Directory?
  }

  ghost predicate OnTheWay(before: Tree, wanted: Wanted, after: Tree) {
    forall folder :: FolderMoves(before, wanted, after, folder)
  }

  lemma Onwards(a: Tree, wanted: Wanted, b: Tree, c: Tree)
    requires OnTheWay(a, wanted, b) && OnTheWay(b, wanted, c)
    ensures OnTheWay(a, wanted, c)
  {
    forall folder
      ensures FolderMoves(a, wanted, c, folder)
    {
      assert FolderMoves(a, wanted, b, folder) && FolderMoves(b, wanted, c, folder);
      forall item | !LeftAlone(wanted, folder)
        ensures ItemMoves(ItemAt(a, folder, item), FilesOf(wanted, folder), item, ItemAt(c, folder, item))
      {
        assert ItemMoves(ItemAt(a, folder, item), FilesOf(wanted, folder), item, ItemAt(b, folder, item));
        assert ItemMoves(ItemAt(b, folder, item), FilesOf(wanted, folder), item, ItemAt(c, folder, item));
      }
    }
  }

  /** A change to one folder that moves its items only so. */
  lemma OneFolderOnwards(a: Tree, wanted: Wanted, b: Tree, folder: string)
    requires FolderMoves(a, wanted, b, folder) && a - {folder} == b - {folder}
    ensures OnTheWay(a, wanted, b)
  {
    forall other | other != folder
      ensures FolderMoves(a, wanted, b, other)
    {
      assert other in a <==> other in a - {folder};
      assert other in b <==> other in b - {folder};
      assert other in a ==> a[other] == (a - {folder})[other];
      assert other in b ==> b[other] == (b - {folder})[other];
    }
  }

  /** The folder while its items are being written, `todo` still to come. */
  ghost predicate PartlyWritten(before: Tree, folder: string, files: Files, todo: set<string>, tree: Tree) {
    && IsDirectory(tree, folder) && tree == before[folder := tree[folder]]
    && tree[folder].items.Keys <= files.Keys
    && forall item <- files ::
         ItemAt(tree, folder, item) ==
           if item in todo then ItemAt(before, folder, item) else Some(Written(before, folder, files, item))
  }

  lemma OneMoreWritten(before: Tree, folder: string, files: Files, todo: set<string>, item: string, now: Tree,
      tree: Tree)
    requires PartlyWritten(before, folder, files, todo, now) && item in todo && item in files
    requires tree == if UpToDate(now, folder, item, files[item]) then now
                     else now[folder := Directory(now[folder].items[item := File(files[item])])]
    ensures PartlyWritten(before, folder, files, todo - {item}, tree)
    ensures UpToDate(now, folder, item, files[item]) <==> UpToDate(before, folder, item, files[item])
  {
  }

  lemma AllWritten(before: Tree, folder: string, files: Files, tree: Tree)
    requires PartlyWritten(before, folder, files, {}, tree)
    ensures tree == before[folder := Directory(map item <- files :: Written(before, folder, files, item))]
  {
    var items := tree[folder].items;
    forall item | item in files
      ensures item in items && items[item] == Written(before, folder, files, item)
    {
      assert ItemAt(tree, folder, item) == Some(Written(before, folder, files, item));
    }
    assert items == map item <- files :: Written(before, folder, files, item);
  }

  class DashboardRoot {
    var tree: Tree
    /** On a calm machine no call fails. */
    const calm: bool

    /** A call of the operating system; an error ends the whole call. */
    method Works() returns (ok: bool)
      ensures calm ==> ok
    {
      var o := Call(calm);
      ok := o.Done?;
    }

    /** Remove from one folder what does not belong, the folder too when nothing
        is wanted in it. */
    method CleanFolder(ghost wanted: Wanted, folder: string, files: Files) returns (ok: bool, changed: seq<Change>)
      requires folder in tree && tree[folder].Directory?
      requires !LeftAlone(wanted, folder) && files == FilesOf(wanted, folder)
      modifies this
      ensures OnTheWay(old(tree), wanted, tree)
      ensures ok ==> var was := old(tree)[folder].items;
              && tree == (if files == map[] then old(tree) - {folder}
                          else old(tree)[folder := Directory(map item <- was | Stays(was, files, item) :: was[item])])
              && forall c :: c in changed <==>
                  (c.RemovedItem? && c.folder == folder && c.item in was && !Stays(was, files, c.item))
                                               || (c == RemovedFolder(folder) && files == map[])
      ensures calm ==> ok
    {
      ghost var before := tree;
      var was := tree[folder].items;
      changed := [];
      var todo := was.Keys;
      while todo != {}
        invariant todo <= was.Keys
        invariant folder in tree && tree[folder].Directory? && tree == before[folder := tree[folder]]
        invariant OnTheWay(before, wanted, tree)
        invariant forall item <- was :: item in tree[folder].items <==> item in todo || Stays(was, files, item)
        invariant forall item <- tree[folder].items :: item in was && tree[folder].items[item] == was[item]
        invariant forall c :: c in changed <==>
                c.RemovedItem? && c.folder == folder && c.item in was && c.item !in todo && !Stays(was, files, c.item)
        decreases todo
      {
        var item :| item in todo;
        todo := todo - {item};
        if was[item].Alien? || item !in files {
          ok := Works();
          if !ok {
            return;
          }
          ghost var now := tree;
          tree := tree[folder := Directory(tree[folder].items - {item})];
          OneFolderOnwards(now, wanted, tree, folder);
          Onwards(before, wanted, now, tree);
          changed := changed + [RemovedItem(folder, item)];
        }
      }
      assert tree[folder].items == map item <- was | Stays(was, files, item) :: was[item];
      if files == map[] {
        ok := Works();
        if !ok {
          return;
        }
        tree := tree - {folder};
        OneFolderOnwards(before, wanted, tree, folder);
        changed := changed + [RemovedFolder(folder)];
      }
      ok := true;
    }

    /** One turn of the first loop. */
    method CleanEntry(wanted: Wanted, folder: string) returns (ok: bool, changed: seq<Change>)
      requires folder in tree
      modifies this
      ensures OnTheWay(old(tree), wanted, tree)
      ensures ok ==> tree == match Cleaned(old(tree)[folder], wanted, folder)
                             case None => old(tree) - {folder}
                             case Some(entry) => old(tree)[folder := entry]
      ensures ok ==> forall c :: c in changed <==> !c.Wrote? && c.folder == folder && Reported(old(tree), wanted, c)
      ensures calm ==> ok
    {
      ok, changed := true, [];
      if tree[folder].Stray? {
        ok := Works();
        if ok {
          tree := tree - {folder};
          OneFolderOnwards(old(tree), wanted, tree, folder);
          changed := [RemovedFolder(folder)];
        }
      } else if !LeftAlone(wanted, folder) {
        ok, changed := CleanFolder(wanted, folder, FilesOf(wanted, folder));
      }
    }

    /** The first loop of the call. */
    method Clean(wanted: Wanted) returns (ok: bool, changed: seq<Change>)
      modifies this
      ensures OnTheWay(old(tree), wanted, tree)
      ensures ok ==> IsCleaned(old(tree), wanted, tree)
      ensures ok ==> forall c :: c in changed <==> !c.Wrote? && Reported(old(tree), wanted, c)
      ensures calm ==> ok
    {
      ghost var before := tree;
      changed := [];
      var todo := tree.Keys;
      while todo != {}
        invariant todo <= before.Keys && OnTheWay(before, wanted, tree)
        invariant forall folder <- before :: folder in tree <==>
                folder in todo || Cleaned(before[folder], wanted, folder).Some?
        invariant forall folder <- tree :: folder in before &&
                    tree[folder] == (if folder in todo then before[folder]
                                     else Cleaned(before[folder], wanted, folder).value)
        invariant forall c :: c in changed <==> !c.Wrote? && c.folder !in todo && Reported(before, wanted, c)
        decreases todo
      {
        var folder :| folder in todo;
        todo := todo - {folder};
        ghost var now := tree;
        var more;
        ok, more := CleanEntry(wanted, folder);
        Onwards(before, wanted, now, tree);
        if !ok {
          return;
        }
        changed := changed + more;
      }
      ok := true;
    }

    /** Write one file unless it reads right. */
    method WriteItem(ghost wanted: Wanted, folder: string, item: string, text: string)
      returns (ok: bool, changed: seq<Change>)
      requires IsDirectory(tree, folder) && !LeftAlone(wanted, folder)
      requires item in FilesOf(wanted, folder) && FilesOf(wanted, folder)[item] == text
      modifies this
      ensures OnTheWay(old(tree), wanted, tree)
      ensures ok ==> tree == if UpToDate(old(tree), folder, item, text) then old(tree)
                             else old(tree)[folder := Directory(old(tree)[folder].items[item := File(text)])]
      ensures ok ==> changed == if UpToDate(old(tree), folder, item, text) then [] else [Wrote(folder, item)]
      ensures calm ==> ok
    {
      ok, changed := true, [];
      if !UpToDate(tree, folder, item, text) {
        ok := Works();
        if ok {
          tree := tree[folder := Directory(tree[folder].items[item := File(text)])];
          changed := [Wrote(folder, item)];
          OneFolderOnwards(old(tree), wanted, tree, folder);
        }
      }
    }

    /** Write what does not read right yet. */
    method WriteFolder(ghost wanted: Wanted, folder: string, files: Files) returns (ok: bool, changed: seq<Change>)
      requires folder in tree ==> tree[folder].Directory? && tree[folder].items.Keys <= files.Keys
      requires !LeftAlone(wanted, folder) && files == FilesOf(wanted, folder)
      modifies this
      ensures OnTheWay(old(tree), wanted, tree)
      ensures ok ==>
                tree == old(tree)[folder := Directory(map item <- files :: Written(old(tree), folder, files, item))]
      ensures ok ==> forall c :: c in changed <==> Writes(old(tree), folder, files, c)
      ensures calm ==> ok
    {
      ghost var before := tree;
      changed := [];
      ok := Works();
      if !ok {
        return;
      }
      if folder !in tree {
        tree := tree[folder := Directory(map[])];
      }
      OneFolderOnwards(before, wanted, tree, folder);
      var todo := files.Keys;
      while todo != {}
        invariant todo <= files.Keys && OnTheWay(before, wanted, tree)
        invariant PartlyWritten(before, folder, files, todo, tree)
        invariant forall c :: c in changed <==> Writes(before, folder, files, c) && c.item !in todo
        decreases todo
      {
        var item :| item in todo;
        ghost var now := tree;
        var wrote;
        ok, wrote := WriteItem(wanted, folder, item, files[item]);
        Onwards(before, wanted, now, tree);
        if !ok {
          return;
        }
        OneMoreWritten(before, folder, files, todo, item, now, tree);
        todo := todo - {item};
        changed := changed + wrote;
      }
      AllWritten(before, folder, files, tree);
      ok := true;
    }

    /** One turn of the second loop. */
    method WriteOne(ghost before: Tree, ghost cleaned: Tree, wanted: Wanted, folder: string)
      returns (ok: bool, changed: seq<Change>)
      requires IsCleaned(before, wanted, cleaned) && HalfSynced(before, cleaned, wanted, true, tree, folder)
      modifies this
      ensures OnTheWay(old(tree), wanted, tree)
      ensures ok ==> HalfSynced(before, cleaned, wanted, false, tree, folder)
      ensures ok ==> tree == old(tree) || (folder in tree && tree == old(tree)[folder := tree[folder]])
      ensures ok ==> forall c :: c in changed <==> c.Wrote? && c.folder == folder && Reported(before, wanted, c)
      ensures calm ==> ok
    {
      ok, changed := true, [];
      var files := FilesOf(wanted, folder);
      if files != map[] {
        CleaningKeepsUpToDate(before, wanted, folder, cleaned);
        ok, changed := WriteFolder(wanted, folder, files);
        assert ok ==> tree[folder] == SyncedFolder(before, wanted, folder);
      }
    }

    /** The second loop of the call. */
    method WriteAll(ghost before: Tree, wanted: Wanted) returns (ok: bool, changed: seq<Change>)
      requires IsCleaned(before, wanted, tree)
      modifies this
      ensures OnTheWay(old(tree), wanted, tree)
      ensures ok ==> tree == Synced(before, wanted)
      ensures ok ==> forall c :: c in changed <==> c.Wrote? && Reported(before, wanted, c)
      ensures calm ==> ok
    {
      ghost var cleaned := tree;
      changed := [];
      var todo := wanted.Keys;
      while todo != {}
        invariant todo <= wanted.Keys && OnTheWay(cleaned, wanted, tree)
        invariant forall folder :: HalfSynced(before, cleaned, wanted, folder in todo, tree, folder)
        invariant forall c :: c in changed <==> c.Wrote? && c.folder !in todo && Reported(before, wanted, c)
        decreases todo
      {
        var folder :| folder in todo;
        assert HalfSynced(before, cleaned, wanted, folder in todo, tree, folder);
        todo := todo - {folder};
        ghost var now := tree;
        var more;
        ok, more := WriteOne(before, cleaned, wanted, folder);
        Onwards(cleaned, wanted, now, tree);
        if !ok {
          return;
        }
        changed := changed + more;
      }
      forall folder
        ensures HalfSynced(before, cleaned, wanted, false, tree, folder)
      {
        assert HalfSynced(before, cleaned, wanted, folder in todo, tree, folder);
      }
      AllSynced(before, cleaned, wanted, tree);
      ok := true;
    }

    /** `sync_dashboards`; `ok` is false when an error ended the call. */
    method Sync(wanted: Wanted) returns (ok: bool, changed: seq<Change>)
      modifies this
      ensures OnTheWay(old(tree), wanted, tree)
      ensures ok ==> tree == Synced(old(tree), wanted)
      ensures ok ==> forall c :: c in changed <==> Reported(old(tree), wanted, c)
      ensures calm ==> ok
    {
      ghost var before := tree;
      ok, changed := Clean(wanted);
      if !ok {
        return;
      }
      ghost var cleaned := tree;
      var more;
      ok, more := WriteAll(before, wanted);
      Onwards(before, wanted, cleaned, tree);
      changed := changed + more;
    }
  }

  ghost predicate IsCleaned(before: Tree, wanted: Wanted, cleaned: Tree) {
    cleaned == map folder <- before | Cleaned(before[folder], wanted, folder).Some? ::
        Cleaned(before[folder], wanted, folder).value
  }

  /** One folder during the second loop: as cleaned, or as it will end. */
  ghost predicate HalfSynced(before: Tree, cleaned: Tree, wanted: Wanted, waiting: bool, tree: Tree, folder: string) {
    if waiting || FilesOf(wanted, folder) == map[] then
      (folder in tree <==> folder in cleaned) && (folder in tree ==> tree[folder] == cleaned[folder])
    else
      folder in tree && tree[folder] == SyncedFolder(before, wanted, folder)
  }

  lemma AllSynced(before: Tree, cleaned: Tree, wanted: Wanted, tree: Tree)
    requires IsCleaned(before, wanted, cleaned)
    requires forall folder :: HalfSynced(before, cleaned, wanted, false, tree, folder)
    ensures tree == Synced(before, wanted)
  {
    forall folder
      ensures folder in tree <==> folder in Synced(before, wanted)
      ensures folder in tree ==> tree[folder] == Synced(before, wanted)[folder]
    {
      assert HalfSynced(before, cleaned, wanted, false, tree, folder);
    }
  }

  /** Cleaning removes no file that already reads right. */
  lemma CleaningKeepsUpToDate(before: Tree, wanted: Wanted, folder: string, cleaned: Tree)
    requires IsCleaned(before, wanted, cleaned) && FilesOf(wanted, folder) != map[]
    ensures folder in cleaned ==>
            cleaned[folder].Directory? && cleaned[folder].items.Keys <= FilesOf(wanted, folder).Keys
    ensures forall item <- FilesOf(wanted, folder), text: string :: UpToDate(cleaned, folder, item, text) <==>
            UpToDate(before, folder, item, text)
    ensures forall item <- FilesOf(wanted, folder), text: string :: UpToDate(cleaned, folder, item, text) ==>
            ItemAt(cleaned, folder, item) == ItemAt(before, folder, item)
  {
  }

  // ------------------------------------------------------- what that means

  /** Every wanted folder with files ends with exactly those files, each reading
      as wanted; a real folder to leave alone is unchanged; nothing else is
      left, whatever the tree was. */
  lemma SyncedHoldsExactlyWhatIsWanted(tree: Tree, wanted: Wanted, folder: string)
    ensures var after, files := Synced(tree, wanted), FilesOf(wanted, folder);
            && (files != map[] ==>
                 folder in after && after[folder].Directory? && after[folder].items.Keys == files.Keys)
            && (forall item <- files ::
                 ItemAt(after, folder, item) == Some(File(files[item])) || UpToDate(after, folder, item, files[item]))
            && (forall item <- files :: UpToDate(after, folder, item, files[item]) <==> '\r' !in files[item])
            && (LeftAlone(wanted, folder) && folder in tree && tree[folder].Directory? ==>
                 folder in after && after[folder] == tree[folder])
            && (folder in after ==>
                 files != map[] || (LeftAlone(wanted, folder) && folder in tree && tree[folder].Directory?))
  {
    var files := FilesOf(wanted, folder);
    forall item | item in files
      ensures '\r' !in files[item] ==> ReadsAs(File(files[item]), files[item])
    {
      TranslateIsIdentityIff(files[item]);
    }
  }

  /** However far a call got before an error, the next one that gets through
      ends exactly where the first would have. */
  lemma TheNextCallFinishesTheJob(before: Tree, wanted: Wanted, after: Tree)
    requires OnTheWay(before, wanted, after)
    ensures Synced(after, wanted) == Synced(before, wanted)
  {
    forall folder
      ensures Survives(after, wanted, folder) <==> Survives(before, wanted, folder)
      ensures Survives(after, wanted, folder) ==>
              SyncedFolder(after, wanted, folder) == SyncedFolder(before, wanted, folder)
    {
      assert FolderMoves(before, wanted, after, folder);
      if !LeftAlone(wanted, folder) && FilesOf(wanted, folder) != map[] {
        SameFolderSynced(before, wanted, after, folder);
      }
    }
    var a, b := Synced(after, wanted), Synced(before, wanted);
    forall folder
      ensures folder in a <==> folder in b
      ensures folder in a ==> a[folder] == b[folder]
    {
      assert folder in a <==> Survives(after, wanted, folder);
      assert folder in b <==> Survives(before, wanted, folder);
    }
  }

  lemma SameFolderSynced(before: Tree, wanted: Wanted, after: Tree, folder: string)
    requires FolderMoves(before, wanted, after, folder) && !LeftAlone(wanted, folder)
    requires FilesOf(wanted, folder) != map[]
    ensures SyncedFolder(after, wanted, folder) == SyncedFolder(before, wanted, folder)
  {
    var files := FilesOf(wanted, folder);
    forall item | item in files
      ensures Written(after, folder, files, item) == Written(before, folder, files, item)
    {
      assert ItemMoves(ItemAt(before, folder, item), files, item, ItemAt(after, folder, item));
    }
  }

  /** Some wanted text holds a carriage return, which no file ever reads back. */
  ghost predicate WantsCarriageReturn(wanted: Wanted) {
    exists folder <- wanted, item <- FilesOf(wanted, folder) :: '\r' in FilesOf(wanted, folder)[item]
  }

  lemma SecondCallOnOneFolder(tree: Tree, wanted: Wanted, folder: string)
    ensures var after := Synced(tree, wanted);
            && (Survives(after, wanted, folder) <==> folder in after)
            && (folder in after ==> SyncedFolder(after, wanted, folder) == after[folder])
  {
  }

  lemma SecondCallChangesNothing(tree: Tree, wanted: Wanted)
    ensures Synced(Synced(tree, wanted), wanted) == Synced(tree, wanted)
  {
    var after := Synced(tree, wanted);
    var again := Synced(after, wanted);
    forall folder
      ensures folder in again <==> folder in after
      ensures folder in again ==> again[folder] == after[folder]
    {
      SecondCallOnOneFolder(tree, wanted, folder);
    }
  }

  lemma NothingToRemove(tree: Tree, wanted: Wanted, folder: string)
    requires forall c :: !Reported(tree, wanted, c)
    ensures folder in tree ==> Cleaned(tree[folder], wanted, folder).Some?
    ensures folder in tree && !LeftAlone(wanted, folder) ==>
              tree[folder].items.Keys <= FilesOf(wanted, folder).Keys
  {
    assert !Reported(tree, wanted, RemovedFolder(folder));
    if folder in tree && !LeftAlone(wanted, folder) {
      forall item | item in tree[folder].items
        ensures item in FilesOf(wanted, folder)
      {
        assert !Reported(tree, wanted, RemovedItem(folder, item));
      }
    }
  }

  /** The report in terms of the tree and what is wanted: a folder that is a stray
      or in which nothing is wanted, an item that is unwanted or no regular file,
      and a wanted text that does not read back.  A folder to be left alone is
      in none of these. */
  lemma ReportedIff(tree: Tree, wanted: Wanted, folder: string, item: string)
    ensures Reported(tree, wanted, RemovedFolder(folder)) <==>
              folder in tree && (tree[folder].Stray? || folder !in wanted || wanted[folder] == Some(map[]))
    ensures Reported(tree, wanted, RemovedItem(folder, item)) <==>
              && folder in tree && tree[folder].Directory? && item in tree[folder].items
              && !(folder in wanted && wanted[folder].None?)
              && (tree[folder].items[item].Alien? || folder !in wanted || item !in wanted[folder].value)
    ensures Reported(tree, wanted, Wrote(folder, item)) <==>
              && folder in wanted && wanted[folder].Some? && item in wanted[folder].value
              && !(&& folder in tree && tree[folder].Directory? && item in tree[folder].items
                   && tree[folder].items[item].File?
                   && Translate(tree[folder].items[item].text) == wanted[folder].value[item])
  {
  }

  /** A call that has nothing to report found the tree as it should be. */
  lemma SilentMeansRight(tree: Tree, wanted: Wanted)
    requires forall c :: !Reported(tree, wanted, c)
    ensures Synced(tree, wanted) == tree
  {
    forall folder
      ensures folder in Synced(tree, wanted) <==> folder in tree
      ensures folder in tree ==> Synced(tree, wanted)[folder] == tree[folder]
    {
      NothingToRemove(tree, wanted, folder);
      var files := FilesOf(wanted, folder);
      forall item | item in files
        ensures UpToDate(tree, folder, item, files[item])
      {
        assert !Reported(tree, wanted, Wrote(folder, item));
      }
      if folder in tree && !LeftAlone(wanted, folder) {
        assert tree[folder].items.Keys == files.Keys;
        assert SyncedFolder(tree, wanted, folder).items == tree[folder].items;
      }
    }
  }

  /** A second call reports nothing exactly when no wanted text has a carriage
      return; otherwise it rewrites those files every time. */
  lemma SecondCallIsSilentIff(tree: Tree, wanted: Wanted)
    ensures (forall c :: !Reported(Synced(tree, wanted), wanted, c)) <==> !WantsCarriageReturn(wanted)
  {
    var after := Synced(tree, wanted);
    forall c | !WantsCarriageReturn(wanted)
      ensures !Reported(after, wanted, c)
    {
      SyncedHoldsExactlyWhatIsWanted(tree, wanted, c.folder);
    }
    if WantsCarriageReturn(wanted) {
      var folder, item :| folder in wanted && item in FilesOf(wanted, folder) && '\r' in FilesOf(wanted, folder)[item];
      assert Reported(after, wanted, Wrote(folder, item));
    }
  }

  /** A text with a carriage return is written again although nothing changed. */
  lemma CarriageReturnIsRewritten()
    ensures var wanted := map["app-lab" := Some(map["x.json" := "\r"])];
            && Synced(Synced(map[], wanted), wanted) == Synced(map[], wanted)
            && Reported(Synced(map[], wanted), wanted, Wrote("app-lab", "x.json"))
  {
    var wanted := map["app-lab" := Some(map["x.json" := "\r"])];
    SecondCallChangesNothing(map[], wanted);
    var after := Synced(map[], wanted);
    SyncedHoldsExactlyWhatIsWanted(map[], wanted, "app-lab");
    assert '\r' in FilesOf(wanted, "app-lab")["x.json"];
  }
}
