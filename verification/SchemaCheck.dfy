/** The schema checker: comparing the applied names with the required ones. */
module SchemaCheck {
  import opened Basics
  import opened Sequences
  import opened StringOrder
  import opened MigrationDiscovery
  import opened MigrationRunner
  import opened ReleaseCompatibility

  // ----- required and applied names -----

  /** sort.Strings. */
  function SortNames(names: seq<string>): (r: seq<string>)
    ensures multiset(r) == multiset(names) && |r| == |names|
  {
    Sort(names, AtMost)
  }

  lemma NamesAreTotal(names: seq<string>)
    ensures TotalOn(names, AtMost)
  {
    hide Less;
    forall x, y | x in names && y in names
      ensures AtMost(x, y) || AtMost(y, x)
    {
      if Less(x, y) {
        LessIsAsymmetric(x, y);
      }
    }
    forall x, y, z | x in names && y in names && z in names && AtMost(x, y) && AtMost(y, z)
      ensures AtMost(x, z)
    {
      LessThrough(x, y, z);
    }
  }

  lemma SortedNames(names: seq<string>)
    ensures SortedBy(SortNames(names), AtMost)
    ensures forall x :: x in SortNames(names) <==> x in names
  {
    NamesAreTotal(names);
    SortSorts(names, AtMost);
    SameElements(SortNames(names), names);
  }

  ghost predicate Distinct(names: seq<string>) {
    forall i, j :: 0 <= i < j < |names| ==> names[i] != names[j]
  }

  function Elements(names: seq<string>): (r: set<string>) {
    set x | x in names
  }

  lemma {:induction false} DistinctByCounting(names: seq<string>)
    ensures |Elements(names)| <= |names|
    ensures Distinct(names) <==> |Elements(names)| == |names|
  {
    if names != [] {
      hide Distinct;
      DistinctByCounting(names[1..]);
      assert Elements(names) == {names[0]} + Elements(names[1..]);
      DistinctUnfold(names);
    }
  }

  lemma DistinctUnfold(names: seq<string>)
    requires names != []
    ensures Distinct(names) <==> Distinct(names[1..]) && names[0] !in Elements(names[1..])
  {
    assert forall j :: 0 < j < |names| ==> names[j] == names[1..][j - 1];
    assert forall x :: x in names[1..] ==> x in Elements(names[1..]);
  }

  lemma PermutationKeepsDistinct(a: seq<string>, b: seq<string>)
    requires multiset(a) == multiset(b)
    ensures Distinct(a) <==> Distinct(b)
  {
    hide Distinct;
    DistinctByCounting(a);
    DistinctByCounting(b);
    SameElements(a, b);
    assert Elements(a) == Elements(b);
    assert |multiset(a)| == |a| && |multiset(b)| == |b|;
  }

  lemma SortedAndDistinct(names: seq<string>)
    requires SortedBy(names, AtMost)
    ensures Distinct(names) <==> Increasing(names)
  {
    hide Less;
    if Distinct(names) {
      forall i, j | 0 <= i < j < |names|
        ensures Less(names[i], names[j])
      {
        AtMostMeansLess(names[i], names[j]);
      }
    } else {
      var i, j :| 0 <= i < j < |names| && names[i] == names[j];
      LessIsIrreflexive(names[i]);
    }
  }

  /** requiredNames: from a directory or from an explicit list, but not both. */
  method RequiredNames(directory: Option<Option<seq<Entry>>>, explicit: seq<string>) returns (r: Option<seq<string>>)
    ensures r.Some? ==> r.value != [] && Increasing(r.value) && forall x :: x in r.value ==> IsCanonicalName(x)
    ensures directory == None ==>
      && (r.Some? <==> explicit != [] && Distinct(explicit) && forall x :: x in explicit ==> IsCanonicalName(x))
      && (r.Some? ==> Elements(r.value) == Elements(explicit))
    ensures directory.Some? ==>
      && (r.Some? <==>
            && explicit == [] && directory.value.Some?
            && Acceptable(directory.value.value) && CanonicalNames(directory.value.value) != {})
      && (r.Some? ==> Elements(r.value) == CanonicalNames(directory.value.value))
  {
    hide IsCanonicalName, Less, Acceptable, IsMigrationList, CanonicalNames, Increasing, Distinct;
    if directory.Some? && |explicit| > 0 {
      return None;
    }
    var names := explicit;
    if directory.Some? {
      var discovered := Discover(directory.value);
      if discovered.DiscoverFailed? {
        return None;
      }
      names := Names(discovered.files);
      ListedNames(discovered.files);
    }
    if |names| == 0 {
      assert Elements(names) == {};
      return None;
    }
    assert names[0] in Elements(names);
    r := SortedRequired(names);
  }

  lemma ListedNames(files: seq<File>)
    requires IsMigrationList(files)
    ensures Distinct(Names(files)) && Elements(Names(files)) == NameSet(files)
    ensures forall x :: x in Names(files) ==> IsCanonicalName(x)
  {
    hide Less, IsCanonicalName;
    forall i, j | 0 <= i < j < |files|
      ensures Names(files)[i] != Names(files)[j]
    {
      if files[i].name == files[j].name {
        NamesAreDistinct(files, i, j);
      }
    }
    forall x | x in NameSet(files)
      ensures x in Names(files)
    {
      var i :| 0 <= i < |files| && files[i].name == x;
      assert Names(files)[i] == x;
    }
    assert forall i :: 0 <= i < |files| ==> files[i] in files && IsFile(files[i]);
  }

  /** Sorts the names and rejects unsupported and repeated ones. */
  method SortedRequired(names: seq<string>) returns (r: Option<seq<string>>)
    ensures r.Some? <==> Distinct(names) && forall x :: x in names ==> IsCanonicalName(x)
    ensures r.Some? ==> Increasing(r.value) && Elements(r.value) == Elements(names) && |r.value| == |names|
    ensures r.Some? ==> forall x :: x in r.value ==> IsCanonicalName(x)
  {
    hide IsCanonicalName, Less, AtMost, Increasing, Distinct, SortedBy;
    var sorted := SortNames(names);
    SortedNames(names);
    PermutationKeepsDistinct(names, sorted);
    SortedAndDistinct(sorted);
    for index := 0 to |sorted|
      invariant forall k :: 0 <= k < index ==> IsCanonicalName(sorted[k])
      invariant forall k :: 0 < k < index ==> sorted[k - 1] != sorted[k]
    {
      if !IsCanonicalName(sorted[index]) {
        assert sorted[index] in names;
        return None;
      }
      if index > 0 && sorted[index - 1] == sorted[index] {
        Repeats(sorted, index);
        return None;
      }
    }
    NeighboursDiffer(sorted);
    return Some(sorted);
  }

  lemma Repeats(names: seq<string>, index: nat)
    requires 0 < index < |names| && names[index - 1] == names[index]
    ensures !Distinct(names)
  {
  }

  lemma NeighboursDiffer(names: seq<string>)
    requires SortedBy(names, AtMost) && forall k :: 0 < k < |names| ==> names[k - 1] != names[k]
    ensures Distinct(names)
  {
    hide Less;
    forall i, j | 0 <= i < j < |names|
      ensures names[i] != names[j]
    {
      AtMostMeansLess(names[i], names[i + 1]);
      if j > i + 1 {
        LessThrough(names[i], names[i + 1], names[j]);
      }
      LessIsIrreflexive(names[i]);
    }
  }

  /** readAppliedReadOnly over the names the query returned: unique, and sorted here. */
  method ReadApplied(rows: seq<string>) returns (r: Option<seq<string>>)
    ensures r.Some? <==> Distinct(rows)
    ensures r.Some? ==> Distinct(r.value) && Elements(r.value) == Elements(rows)
  {
    hide Distinct, Less;
    var seen: set<string> := {};
    NoRowsAreDistinct();
    for i := 0 to |rows|
      invariant seen == Elements(rows[..i]) && Distinct(rows[..i])
    {
      RowsSoFar(rows, i);
      if rows[i] in seen {
        return None;
      }
      seen := seen + {rows[i]};
    }
    assert rows[..|rows|] == rows;
    SortedNames(rows);
    PermutationKeepsDistinct(rows, SortNames(rows));
    return Some(SortNames(rows));
  }

  lemma NoRowsAreDistinct()
    ensures Distinct([])
  {
  }

  lemma RowsSoFar(rows: seq<string>, i: nat)
    requires i < |rows| && Distinct(rows[..i])
    ensures Elements(rows[..i + 1]) == Elements(rows[..i]) + {rows[i]}
    ensures Distinct(rows[..i + 1]) <==> rows[i] !in Elements(rows[..i])
    ensures Distinct(rows) ==> Distinct(rows[..i + 1])
  {
    assert rows[..i + 1] == rows[..i] + [rows[i]];
    assert forall x :: x in Elements(rows[..i]) <==> exists k :: 0 <= k < i && rows[k] == x;
  }

  // ----- the comparison -----

  datatype Report = Report(
    missing: seq<string>, unknownNames: seq<string>, unknownCount: nat,
    compatibleNames: seq<string>, compatibleCount: nat)

  /** An applied name outside the required ones that the policy, if any, tolerates. */
  predicate Tolerated(required: seq<string>, policy: Option<Policy>, name: string) {
    name !in required && policy.Some? && AllowsAfter(policy.value, required, name)
  }

  predicate Unknown(required: seq<string>, policy: Option<Policy>, name: string) {
    name !in required && !Tolerated(required, policy, name)
  }

  /** An applied name whose schema Check inspects afterwards. */
  predicate Inspected(required: seq<string>, policy: Option<Policy>, name: string) {
    policy.Some? && if name in required then Allows(policy.value, name) else AllowsAfter(policy.value, required, name)
  }

  /** The comparison in Check. */
  method CompareNames(required: seq<string>, applied: seq<string>, policy: Option<Policy>)
    returns (report: Report, inspected: seq<string>)
    ensures report.missing == Filter(required, n => n !in applied)
    ensures report.compatibleNames == SortNames(Filter(applied, n => Tolerated(required, policy, n)))
    ensures report.compatibleCount == |report.compatibleNames|
    ensures report.unknownCount == |Filter(applied, n => Unknown(required, policy, n))|
    ensures report.unknownNames == SortNames(Filter(applied, n => Unknown(required, policy, n) && IsCanonicalName(n)))
    ensures inspected == Filter(applied, n => Inspected(required, policy, n))
  {
    hide AllowsAfter, Allows, IsCanonicalName, SortNames;
    var unknownNames, unknownCount, compatibleNames, compatibleCount := [], 0, [], 0;
    inspected := [];
    ghost var tolerated := n => Tolerated(required, policy, n);
    ghost var unknown := n => Unknown(required, policy, n);
    ghost var reported := n => Unknown(required, policy, n) && IsCanonicalName(n);
    ghost var inspects := n => Inspected(required, policy, n);
    for i := 0 to |applied|
      invariant compatibleNames == Filter(applied[..i], tolerated) && compatibleCount == |compatibleNames|
      invariant unknownNames == Filter(applied[..i], reported) && unknownCount == |Filter(applied[..i], unknown)|
      invariant inspected == Filter(applied[..i], inspects)
    {
      var name := applied[i];
      OneMore(applied, i, tolerated);
      OneMore(applied, i, unknown);
      OneMore(applied, i, reported);
      OneMore(applied, i, inspects);
      if name in required {
        if policy.Some? && Allows(policy.value, name) {
          inspected := inspected + [name];
        }
        continue;
      }
      if policy.Some? && AllowsAfter(policy.value, required, name) {
        compatibleCount := compatibleCount + 1;
        compatibleNames := compatibleNames + [name];
        inspected := inspected + [name];
        continue;
      }
      unknownCount := unknownCount + 1;
      if IsCanonicalName(name) {
        unknownNames := unknownNames + [name];
      }
    }
    assert applied[..|applied|] == applied;
    var missing := [];
    ghost var isMissing := n => n !in applied;
    for i := 0 to |required|
      invariant missing == Filter(required[..i], isMissing)
    {
      OneMore(required, i, isMissing);
      if required[i] !in applied {
        missing := missing + [required[i]];
      }
    }
    assert required[..|required|] == required;
    report := Report(missing, SortNames(unknownNames), unknownCount, SortNames(compatibleNames), compatibleCount);
  }

  lemma OneMore(names: seq<string>, i: nat, p: string -> bool)
    requires i < |names|
    ensures Filter(names[..i + 1], p) == Filter(names[..i], p) + (if p(names[i]) then [names[i]] else [])
  {
    assert names[..i + 1] == names[..i] + [names[i]];
    FilterConcat(names[..i], [names[i]], p);
  }

  /** No history issue is raised. */
  predicate Accepts(report: Report) {
    report.missing == [] && report.unknownCount == 0
  }

  ghost predicate IsComparison(report: Report, required: seq<string>, applied: seq<string>, policy: Option<Policy>) {
    && report.missing == Filter(required, n => n !in applied)
    && report.unknownCount == |Filter(applied, n => Unknown(required, policy, n))|
  }

  lemma {:induction false} FilterIsEmpty(names: seq<string>, p: string -> bool)
    ensures Filter(names, p) == [] <==> forall n :: n in names ==> !p(n)
  {
    if names != [] {
      FilterIsEmpty(names[1..], p);
      assert forall n :: n in names <==> n == names[0] || n in names[1..];
    }
  }

  lemma AcceptedMeansEveryNameIsAccountedFor(report: Report, required: seq<string>, applied: seq<string>,
          policy: Option<Policy>)
    requires IsComparison(report, required, applied, policy)
    ensures Accepts(report) <==>
      && (forall n :: n in required ==> n in applied)
      && (forall n :: n in applied ==> n in required || Tolerated(required, policy, n))
  {
    hide Tolerated;
    FilterIsEmpty(required, n => n !in applied);
    FilterIsEmpty(applied, n => Unknown(required, policy, n));
  }

  /** The one name a policy tolerates beyond these required names, if any. */
  ghost function Successor(required: seq<string>, policy: Option<Policy>): (r: set<string>) {
    if policy == None then {}
    else if required == BASELINE then {CHAT_MIGRATION}
    else if required == BASELINE + [CHAT_MIGRATION] && |policy.value.compatible| == 2 then {MOBILE_MIGRATION}
    else {}
  }

  lemma ReviewedAllows(policy: Policy, name: string)
    requires IsReviewed(policy)
    ensures Allows(policy, name) <==> name == CHAT_MIGRATION || (|policy.compatible| == 2 && name == MOBILE_MIGRATION)
  {
    assert Reviewed()[..1] == [Reviewed()[0]];
    assert policy.compatible[0].name == CHAT_MIGRATION;
    assert |policy.compatible| == 2 ==> policy.compatible[1].name == MOBILE_MIGRATION;
  }

  /** The two histories an exception applies to. */
  lemma AllowedOnlyAfterItsHistory(policy: Policy, required: seq<string>, name: string)
    ensures AllowsAfter(policy, required, name) <==>
      && Allows(policy, name)
      && ((required == BASELINE && name == CHAT_MIGRATION)
          || (required == BASELINE + [CHAT_MIGRATION] && name == MOBILE_MIGRATION))
  {
    hide IsBaseline, Allows;
    BaselineIsExact(required);
    if required != [] {
      var n := |required| - 1;
      BaselineIsExact(required[..n]);
      assert required == required[..n] + [required[n]];
      assert (BASELINE + [CHAT_MIGRATION])[..|BASELINE|] == BASELINE;
    }
    assert |required| == |BASELINE| + 1 ==> required != BASELINE;
  }

  lemma ToleratedIsSuccessor(required: seq<string>, policy: Option<Policy>, name: string)
    requires policy.Some? ==> IsReviewed(policy.value)
    ensures Tolerated(required, policy, name) <==> name !in required && name in Successor(required, policy)
  {
    if policy.Some? {
      hide IsBaseline, Allows, IsReviewed, AllowsAfter;
      ReviewedNamesDiffer();
      ReviewedAllows(policy.value, name);
      AllowedOnlyAfterItsHistory(policy.value, required, name);
    }
  }

  /** Whose schema is inspected afterwards: of the required names those the policy lists, and
      of the others the tolerated one. Without a policy it is nobody's. */
  lemma InspectedIff(required: seq<string>, policy: Option<Policy>, name: string)
    requires policy.Some? ==> IsReviewed(policy.value)
    ensures Inspected(required, policy, name) <==>
      && policy.Some?
      && if name in required
         then name == CHAT_MIGRATION || (|policy.value.compatible| == 2 && name == MOBILE_MIGRATION)
         else name in Successor(required, policy)
  {
    hide IsReviewed, Allows, AllowsAfter, Successor;
    ToleratedIsSuccessor(required, policy, name);
    if policy.Some? {
      ReviewedAllows(policy.value, name);
    }
  }

  /** The verdict, exactly. With no policy the applied set must be the required set. With a
      reviewed policy one more name may be applied: 034 over exactly 001 to 033, or, if the
      policy lists it, 035 over exactly 001 to 034. */
  lemma VerdictIsExact(report: Report, required: seq<string>, applied: seq<string>, policy: Option<Policy>)
    requires IsComparison(report, required, applied, policy) && (policy.Some? ==> IsReviewed(policy.value))
    ensures Accepts(report) <==>
      Elements(required) <= Elements(applied) <= Elements(required) + Successor(required, policy)
  {
    hide Tolerated, IsComparison, Successor, IsReviewed;
    AcceptedMeansEveryNameIsAccountedFor(report, required, applied, policy);
    forall name
      ensures Tolerated(required, policy, name) <==> name !in required && name in Successor(required, policy)
    {
      ToleratedIsSuccessor(required, policy, name);
    }
    assert forall n :: n in required <==> n in Elements(required);
    assert forall n :: n in applied <==> n in Elements(applied);
    assert Accepts(report) ==> Elements(applied) <= Elements(required) + Successor(required, policy);
  }

  /** A reader of 001 to 033 never accepts a history with 035, whatever else is applied: at
      most one of the two exceptions holds at a time. */
  lemma NeverBothExceptions(report: Report, applied: seq<string>, policy: Option<Policy>)
    requires IsComparison(report, BASELINE, applied, policy) && (policy.Some? ==> IsReviewed(policy.value))
    ensures MOBILE_MIGRATION in applied ==> !Accepts(report)
  {
    hide IsComparison, IsReviewed, Less;
    VerdictIsExact(report, BASELINE, applied, policy);
    ReviewedNamesDiffer();
    MobileIsNotInBaseline();
    assert MOBILE_MIGRATION in applied ==> MOBILE_MIGRATION in Elements(applied);
  }

  /** After a successful migration run, the checker over the same, non-empty directory finds
      the history to be exactly what it requires, with or without a policy. */
  method RunThenCheck(db: Database, listing: Option<seq<Entry>>, policy: Option<Policy>)
    returns (err: Option<RunError>, report: Option<Report>)
    modifies db
    ensures err == None ==> listing.Some?
    ensures err == None && CanonicalNames(listing.value) != {} ==>
      report.Some? && Accepts(report.value) && report.value.unknownNames == [] && report.value.compatibleCount == 0
  {
    hide IsCanonicalName, Acceptable, IsReviewed, Less, Increasing, CanonicalNames, Tolerated;
    var r;
    report := None;
    r, err := db.Run(listing);
    if err.Some? {
      return;
    }
    var rows := RowsOf(db.history);
    var applied := ReadApplied(rows);
    var required := RequiredNames(Some(listing), []);
    if required.Some? && applied.Some? {
      var compared, inspected := CompareNames(required.value, applied.value, policy);
      SameNamesCompareClean(compared, required.value, applied.value, policy);
      report := Some(compared);
    }
  }

  /** SELECT name: the recorded names in some order, each once. */
  method RowsOf(history: set<string>) returns (rows: seq<string>)
    ensures Distinct(rows) && Elements(rows) == history
  {
    rows := [];
    var todo := history;
    while todo != {}
      invariant todo <= history && Elements(rows) == history - todo && Distinct(rows)
      decreases todo
    {
      var name :| name in todo;
      assert forall k :: 0 <= k < |rows| ==> rows[k] in Elements(rows);
      assert Elements(rows + [name]) == Elements(rows) + {name};
      rows := rows + [name];
      todo := todo - {name};
    }
  }

  lemma SameNamesCompareClean(report: Report, required: seq<string>, applied: seq<string>, policy: Option<Policy>)
    requires Elements(required) == Elements(applied)
    requires report.missing == Filter(required, n => n !in applied)
    requires report.compatibleNames == SortNames(Filter(applied, n => Tolerated(required, policy, n)))
    requires report.compatibleCount == |report.compatibleNames|
    requires report.unknownCount == |Filter(applied, n => Unknown(required, policy, n))|
    requires report.unknownNames == SortNames(Filter(applied, n => Unknown(required, policy, n) && IsCanonicalName(n)))
    ensures Accepts(report) && report.unknownNames == [] && report.compatibleCount == 0
  {
    hide IsCanonicalName, AllowsAfter;
    assert forall n :: n in required <==> n in Elements(required);
    assert forall n :: n in applied <==> n in Elements(applied);
    FilterIsEmpty(required, n => n !in applied);
    FilterIsEmpty(applied, n => Tolerated(required, policy, n));
    FilterIsEmpty(applied, n => Unknown(required, policy, n));
    FilterIsEmpty(applied, n => Unknown(required, policy, n) && IsCanonicalName(n));
  }
}
