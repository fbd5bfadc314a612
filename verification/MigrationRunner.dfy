/** Applying the pending migrations of a directory in one transaction. */
module MigrationRunner {
  import opened Basics
  import opened StringOrder
  import opened MigrationDiscovery

  datatype RunError =
    | Discovery | Begin | Lock | UnsupportedSchema | ReadApplied | History | Cancelled | ReadFile | EmptyFile
    | Apply | Record | Commit

  datatype RunResult = RunResult(discovered: nat, applied: nat, appliedNames: seq<string>)

  /** The history is the set of the first k names, for some k. */
  ghost predicate IsPrefixHistory(files: seq<File>, history: set<string>) {
    exists k :: 0 <= k <= |files| && history == NameSet(files[..k])
  }

  lemma NamesAreDistinct(files: seq<File>, i: nat, j: nat)
    requires IsMigrationList(files) && i < |files| && j < |files| && files[i].name == files[j].name
    ensures i == j
  {
    hide Less;
    if i < j {
      LessIsIrreflexive(Names(files)[i]);
    } else if j < i {
      LessIsIrreflexive(Names(files)[j]);
    }
  }

  lemma InPrefix(files: seq<File>, k: nat, i: nat)
    requires IsMigrationList(files) && k <= |files| && i < |files|
    ensures files[i].name in NameSet(files[..k]) <==> i < k
  {
    hide IsMigrationList;
    if i < k {
      assert files[i] in files[..k];
    } else if files[i].name in NameSet(files[..k]) {
      var f :| f in files[..k] && f.name == files[i].name;
      var j :| 0 <= j < k && files[j] == f;
      NamesAreDistinct(files, i, j);
    }
  }

  /** The first names are in the history and the others up to i are not. */
  ghost predicate SplitAt(files: seq<File>, history: set<string>, k: nat, i: nat)
    requires k <= i <= |files|
  {
    && (forall j :: 0 <= j < k ==> files[j].name in history)
    && (forall j :: k <= j < i ==> files[j].name !in history)
  }

  lemma SplitIsPrefix(files: seq<File>, history: set<string>, k: nat)
    requires k <= |files| && SplitAt(files, history, k, |files|) && history <= NameSet(files)
    ensures IsPrefixHistory(files, history)
  {
    forall name | name in history
      ensures name in NameSet(files[..k])
    {
      var f :| f in files && f.name == name;
      var j :| 0 <= j < |files| && files[j] == f;
      assert files[j] in files[..k];
    }
    forall name | name in NameSet(files[..k])
      ensures name in history
    {
      var f :| f in files[..k] && f.name == name;
    }
    assert history == NameSet(files[..k]);
  }

  lemma PrefixNames(files: seq<File>, history: set<string>)
    requires IsPrefixHistory(files, history)
    ensures history <= NameSet(files)
  {
    var k :| 0 <= k <= |files| && history == NameSet(files[..k]);
    forall name | name in history
      ensures name in NameSet(files)
    {
      var f :| f in files[..k] && f.name == name;
      assert f in files;
    }
  }

  lemma GapIsNoPrefix(files: seq<File>, history: set<string>, i: nat, j: nat)
    requires IsMigrationList(files) && i < j < |files| && files[i].name !in history && files[j].name in history
    ensures !IsPrefixHistory(files, history)
  {
    hide IsMigrationList;
    if IsPrefixHistory(files, history) {
      var k :| 0 <= k <= |files| && history == NameSet(files[..k]);
      InPrefix(files, k, i);
      InPrefix(files, k, j);
    }
  }

  lemma MigrationNamesAreCanonical(files: seq<File>)
    requires IsMigrationList(files)
    ensures forall name :: name in NameSet(files) ==> IsCanonicalName(name)
  {
    hide IsCanonicalName;
  }

  /** validateHistory: accepts exactly the prefixes of the discovered list. */
  method ValidateHistory(files: seq<File>, applied: set<string>) returns (ok: bool)
    requires IsMigrationList(files)
    ensures ok <==> IsPrefixHistory(files, applied)
  {
    hide IsMigrationList, IsCanonicalName, IsPrefixHistory, NameSet;
    var byName := NameSet(files);
    var todo := applied;
    MigrationNamesAreCanonical(files);
    if IsPrefixHistory(files, applied) {
      PrefixNames(files, applied);
    }
    while todo != {}
      invariant todo <= applied && applied - todo <= byName
      decreases todo
    {
      var name :| name in todo;
      if !IsCanonicalName(name) || name !in byName {
        return false;
      }
      todo := todo - {name};
    }
    var pendingSeen := false;
    ghost var k := 0;
    for i := 0 to |files|
      invariant k <= i && SplitAt(files, applied, k, i) && (pendingSeen <==> k < i)
    {
      if files[i].name !in applied {
        pendingSeen := true;
        continue;
      }
      if pendingSeen {
        GapIsNoPrefix(files, applied, k, i);
        return false;
      }
      k := i + 1;
    }
    SplitIsPrefix(files, applied, k);
    return true;
  }

  /** The names not yet applied, in order. */
  function Pending(files: seq<File>, applied: set<string>): (r: seq<string>) {
    if files == [] then []
    else
      var last := files[|files| - 1].name;
      Pending(files[..|files| - 1], applied) + if last in applied then [] else [last]
  }

  lemma {:induction false} PendingIsExact(files: seq<File>, applied: set<string>)
    ensures forall name :: name in Pending(files, applied) <==> name in NameSet(files) && name !in applied
  {
    if files != [] {
      PendingIsExact(files[..|files| - 1], applied);
      assert forall f :: f in files <==> f in files[..|files| - 1] || f == files[|files| - 1];
      assert NameSet(files) == NameSet(files[..|files| - 1]) + {files[|files| - 1].name};
    }
  }

  lemma {:induction false} PendingIsIncreasing(files: seq<File>, applied: set<string>)
    requires IsMigrationList(files)
    ensures Increasing(Pending(files, applied))
  {
    if files != [] {
      hide Less, IsCanonicalName;
      var init := files[..|files| - 1];
      var last := files[|files| - 1].name;
      ShorterList(files);
      hide Increasing, IsMigrationList;
      PendingIsIncreasing(init, applied);
      PendingIsExact(init, applied);
      forall name | name in NameSet(init)
        ensures Less(name, last)
      {
        var i :| 0 <= i < |init| && files[i].name == name;
        NamesIncrease(files, i, |files| - 1);
      }
      LargestAppended(Pending(init, applied), last);
    }
  }

  lemma ShorterList(files: seq<File>)
    requires IsMigrationList(files) && files != []
    ensures IsMigrationList(files[..|files| - 1])
  {
    hide Less, IsFile;
  }

  lemma NamesIncrease(files: seq<File>, i: nat, j: nat)
    requires IsMigrationList(files) && i < j < |files|
    ensures Less(files[i].name, files[j].name)
  {
    hide Less, IsFile;
    assert Less(Names(files)[i], Names(files)[j]);
  }

  lemma LargestAppended(names: seq<string>, last: string)
    requires Increasing(names) && forall name :: name in names ==> Less(name, last)
    ensures Increasing(names + [last])
  {
    hide Less;
    assert forall i :: 0 <= i < |names| ==> names[i] in names;
  }

  /** Every applied name comes before every other name of the list. */
  lemma PrefixComesFirst(files: seq<File>, history: set<string>)
    requires IsMigrationList(files) && IsPrefixHistory(files, history)
    ensures forall a, b :: a in history && b in NameSet(files) - history ==> Less(a, b)
  {
    hide Less, IsCanonicalName;
    var k :| 0 <= k <= |files| && history == NameSet(files[..k]);
    forall a, b | a in history && b in NameSet(files) - history
      ensures Less(a, b)
    {
      var i :| 0 <= i < k && files[i].name == a;
      var j :| 0 <= j < |files| && files[j].name == b;
      InPrefix(files, k, j);
      assert Less(Names(files)[i], Names(files)[j]);
    }
  }

  /** What a successful run promises about the history before and after it. */
  ghost predicate Migrated(before: set<string>, after: set<string>, names: set<string>, appliedNames: seq<string>) {
    && after == names && before <= names
    && Increasing(appliedNames)
    && (forall name :: name in appliedNames <==> name in names && name !in before)
    && (forall a, b :: a in before && b in appliedNames ==> Less(a, b))
  }

  lemma RunMigrates(files: seq<File>, applied: set<string>)
    requires IsMigrationList(files) && IsPrefixHistory(files, applied)
    ensures Migrated(applied, applied + NameSet(files), NameSet(files), Pending(files, applied))
  {
    hide Less, IsMigrationList, IsPrefixHistory, Increasing;
    PrefixNames(files, applied);
    PendingIsExact(files, applied);
    PendingIsIncreasing(files, applied);
    PrefixComesFirst(files, applied);
    assert applied + NameSet(files) == NameSet(files);
  }

  /** A step against the database, the file system or the context; it may fail. */
  method Fails() returns (f: bool) {
    f := *;
  }

  class Database {
    /** The names recorded in schema_migrations. */
    var history: set<string>

    constructor (history: set<string>)
      ensures this.history == history
    {
      this.history := history;
    }

    /** Run: all or nothing. On success the history was a prefix of the directory's list and
        is now the whole list; the names applied are the missing ones, in order, and each
        comes after every name applied earlier. */
    method Run(listing: Option<seq<Entry>>) returns (r: RunResult, err: Option<RunError>)
      modifies this
      ensures err.Some? ==> history == old(history)
      ensures err == None ==>
        && listing.Some? && Acceptable(listing.value)
        && Migrated(old(history), history, CanonicalNames(listing.value), r.appliedNames)
        && r.applied == |r.appliedNames|
    {
      hide Acceptable, Migrated, IsMigrationList, IsPrefixHistory, CanonicalNames, NameSet;
      r := RunResult(0, 0, []);
      var discovered := Discover(listing);
      if discovered.DiscoverFailed? {
        return r, Some(Discovery);
      }
      var files := discovered.files;
      r := r.(discovered := |files|);
      var failure := Prepare();
      if failure.Some? {
        return r, failure;
      }
      var applied := history;
      var ok := ValidateHistory(files, applied);
      if !ok {
        return r, Some(History);
      }
      ghost var before := history;
      RunMigrates(files, applied);
      var tx;
      tx, r, err := ApplyPending(files, applied, r);
      if err.Some? {
        return;
      }
      var failed := Fails();
      if failed {
        return r, Some(Commit);
      }
      history := tx;
    }

    /** The steps up to reading the history: begin, advisory lock, table shape, select. */
    method Prepare() returns (err: Option<RunError>) {
      err := None;
      for step := 0 to 4 {
        var failed := Fails();
        if failed {
          return Some(if step == 0 then Begin else if step == 1 then Lock
                      else if step == 2 then UnsupportedSchema else ReadApplied);
        }
      }
    }
  }

  /** The loop of Run, inside the transaction; its out-of-order check cannot fire. */
  method ApplyPending(files: seq<File>, applied: set<string>, r0: RunResult)
    returns (tx: set<string>, r: RunResult, err: Option<RunError>)
    requires IsMigrationList(files) && IsPrefixHistory(files, applied) && r0.applied == 0 && r0.appliedNames == []
    ensures err == None ==>
      && tx == applied + NameSet(files)
      && r.appliedNames == Pending(files, applied) && r.applied == |r.appliedNames|
  {
    hide IsMigrationList, NameSet;
    tx, r, err := applied, r0, None;
    ghost var k :| 0 <= k <= |files| && applied == NameSet(files[..k]);
    var pendingSeen := false;
    NamesOfNothing(files);
    for i := 0 to |files|
      invariant tx == applied + NameSet(files[..i])
      invariant r.appliedNames == Pending(files[..i], applied) && r.applied == |r.appliedNames|
      invariant pendingSeen ==> k < i
    {
      InPrefix(files, k, i);
      OneMoreName(files, i);
      assert files[..i + 1][..i] == files[..i];
      if files[i].name in applied {
        assert !pendingSeen; // the out-of-order error cannot happen
        continue;
      }
      pendingSeen := true;
      err := Execute();
      if err.Some? {
        return;
      }
      tx := tx + {files[i].name};
      r := r.(applied := r.applied + 1, appliedNames := r.appliedNames + [files[i].name]);
    }
    assert files[..|files|] == files;
  }

  lemma NamesOfNothing(files: seq<File>)
    ensures NameSet(files[..0]) == {}
  {
  }

  lemma OneMoreName(files: seq<File>, i: nat)
    requires i < |files|
    ensures NameSet(files[..i + 1]) == NameSet(files[..i]) + {files[i].name}
  {
    assert forall f :: f in files[..i + 1] <==> f in files[..i] || f == files[i];
  }

  /** Reading, executing and recording one migration. */
  method Execute() returns (err: Option<RunError>) {
    err := None;
    for step := 0 to 5 {
      var failed := Fails();
      if failed {
        return Some(if step == 0 then Cancelled else if step == 1 then ReadFile else if step == 2 then EmptyFile
                    else if step == 3 then Apply else Record);
      }
    }
  }

  /** After a successful run, a run over the same directory applies nothing and leaves the
      history alone, whether or not it succeeds. */
  method RunTwice(db: Database, listing: Option<seq<Entry>>)
    returns (first: Option<RunError>, second: Option<RunError>, r: RunResult)
    modifies db
    ensures first == None ==> listing.Some? && db.history == CanonicalNames(listing.value)
    ensures first == second == None ==> r.appliedNames == [] && r.applied == 0
    ensures first != None && second != None ==> db.history == old(db.history)
  {
    hide Acceptable, IsMigrationList, IsPrefixHistory, CanonicalNames;
    var r0;
    r0, first := db.Run(listing);
    r, second := db.Run(listing);
    SomethingInIt(r.appliedNames);
  }

  lemma SomethingInIt(names: seq<string>)
    ensures names == [] || exists name :: name in names
  {
    assert names == [] || names[0] in names;
  }
}
