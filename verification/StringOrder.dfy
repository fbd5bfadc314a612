/** The lexicographic order on strings and sorting by a total preorder. */
module StringOrder {

  predicate Less(a: string, b: string) {
    b != "" && (a == "" || a[0] < b[0] || (a[0] == b[0] && Less(a[1..], b[1..])))
  }

  predicate AtMost(a: string, b: string) {
    !Less(b, a)
  }

  /** Position k is the first at which the two strings differ, or where the first one ends. */
  ghost predicate DiffersAt(a: string, b: string, k: nat) {
    k <= |a| && k < |b| && a[..k] == b[..k] && (k == |a| || a[k] < b[k])
  }

  /** A string comes before another when it is a proper prefix of it, or has the smaller
      character where they first differ. */
  lemma {:induction false} LessIff(a: string, b: string)
    ensures Less(a, b) <==> exists k: nat :: DiffersAt(a, b, k)
  {
    if a == "" || b == "" || a[0] != b[0] {
      assert Less(a, b) ==> DiffersAt(a, b, 0);
      forall k: nat | DiffersAt(a, b, k)
        ensures k > 0 ==> a != "" && b != "" && a[0] == b[0]
      {
        SameStart(a, b, k);
      }
    } else {
      LessIff(a[1..], b[1..]);
      forall k: nat | k > 0
        ensures DiffersAt(a, b, k) <==> DiffersAt(a[1..], b[1..], k - 1)
      {
        OneCharacterOn(a, b, k);
      }
      if Less(a, b) {
        var k: nat :| DiffersAt(a[1..], b[1..], k);
        assert DiffersAt(a, b, k + 1);
      }
    }
  }

  lemma SameStart(a: string, b: string, k: nat)
    requires DiffersAt(a, b, k)
    ensures k > 0 ==> a != "" && b != "" && a[0] == b[0]
  {
    if k > 0 {
      assert a[..k][0] == b[..k][0];
    }
  }

  lemma OneCharacterOn(a: string, b: string, k: nat)
    requires a != "" && b != "" && a[0] == b[0] && k > 0
    ensures DiffersAt(a, b, k) <==> DiffersAt(a[1..], b[1..], k - 1)
  {
    if k <= |a| && k <= |b| {
      assert a[..k] == [a[0]] + a[1..][..k - 1] && b[..k] == [b[0]] + b[1..][..k - 1];
      assert a[..k] == b[..k] ==> a[..k][1..] == b[..k][1..];
    }
  }

  lemma {:induction false} LessIsIrreflexive(a: string)
    ensures !Less(a, a)
  {
    if a != "" {
      LessIsIrreflexive(a[1..]);
    }
  }

  lemma {:induction false} LessIsTransitive(a: string, b: string, c: string)
    requires Less(a, b) && Less(b, c)
    ensures Less(a, c)
  {
    if a != "" && a[0] == b[0] == c[0] {
      LessIsTransitive(a[1..], b[1..], c[1..]);
    }
  }

  lemma {:induction false} LessIsTotal(a: string, b: string)
    ensures Less(a, b) || a == b || Less(b, a)
  {
    if a != "" && b != "" && a[0] == b[0] {
      LessIsTotal(a[1..], b[1..]);
      assert a == [a[0]] + a[1..] && b == [b[0]] + b[1..];
    }
  }

  lemma LessIsAsymmetric(a: string, b: string)
    requires Less(a, b)
    ensures !Less(b, a) && a != b
  {
    LessIsIrreflexive(a);
    if Less(b, a) {
      LessIsTransitive(a, b, a);
    }
  }

  /** Comparing a pair of strings through a third, with at least one strict step. */
  lemma LessThrough(a: string, b: string, c: string)
    requires AtMost(a, b) && AtMost(b, c)
    ensures AtMost(a, c)
    ensures Less(a, b) || Less(b, c) ==> Less(a, c)
  {
    LessIsTotal(a, b);
    LessIsTotal(b, c);
    if Less(a, b) && Less(b, c) {
      LessIsTransitive(a, b, c);
      LessIsAsymmetric(a, c);
    }
  }

  ghost predicate Increasing(s: seq<string>) {
    forall i, j :: 0 <= i < j < |s| ==> Less(s[i], s[j])
  }

  // ----- sorting -----

  function Insert<T>(x: T, s: seq<T>, atMost: (T, T) -> bool): (r: seq<T>)
    ensures multiset(r) == multiset(s) + multiset{x}
  {
    if s == [] then [x]
    else if atMost(x, s[0]) then [x] + s
    else
      assert s == [s[0]] + s[1..];
      [s[0]] + Insert(x, s[1..], atMost)
  }

  /** A sort; on a list a total preorder leaves no ties in, every sort agrees with it. */
  function Sort<T>(s: seq<T>, atMost: (T, T) -> bool): (r: seq<T>)
    ensures multiset(r) == multiset(s) && |r| == |s|
  {
    if s == [] then [] else
      assert s == [s[0]] + s[1..];
      assert |multiset(Insert(s[0], Sort(s[1..], atMost), atMost))| == |s|;
      Insert(s[0], Sort(s[1..], atMost), atMost)
  }

  ghost predicate TotalOn<T>(s: seq<T>, atMost: (T, T) -> bool) {
    && (forall x, y :: x in s && y in s ==> atMost(x, y) || atMost(y, x))
    && (forall x, y, z :: x in s && y in s && z in s && atMost(x, y) && atMost(y, z) ==> atMost(x, z))
  }

  ghost predicate SortedBy<T>(s: seq<T>, atMost: (T, T) -> bool) {
    forall i, j :: 0 <= i < j < |s| ==> atMost(s[i], s[j])
  }

  lemma SameElements<T>(a: seq<T>, b: seq<T>)
    requires multiset(a) == multiset(b)
    ensures forall x :: x in a <==> x in b
  {
    assert forall x :: x in a <==> x in multiset(a);
    assert forall x :: x in b <==> x in multiset(b);
  }

  lemma TailElements<T>(s: seq<T>, rest: seq<T>)
    requires s != [] && multiset(rest) == multiset(s[1..])
    ensures forall y :: y in [s[0]] + rest ==> y in s
  {
    SameElements(rest, s[1..]);
    assert forall y :: y in rest ==> y in s[1..];
    assert forall y :: y in s[1..] ==> y in s;
  }

  lemma BoundCarriesOver<T>(low: T, s: seq<T>, rest: seq<T>, atMost: (T, T) -> bool)
    requires multiset(rest) == multiset(s) && forall y :: y in s ==> atMost(low, y)
    ensures forall y :: y in rest ==> atMost(low, y)
  {
    SameElements(rest, s);
  }

  lemma TotalOnFewer<T>(s: seq<T>, t: seq<T>, atMost: (T, T) -> bool)
    requires TotalOn(s, atMost) && forall x :: x in t ==> x in s
    ensures TotalOn(t, atMost)
  {
  }

  lemma PrependSorted<T>(x: T, s: seq<T>, atMost: (T, T) -> bool)
    requires SortedBy(s, atMost) && forall y :: y in s ==> atMost(x, y)
    ensures SortedBy([x] + s, atMost)
  {
  }

  lemma HeadIsLeast<T>(s: seq<T>, atMost: (T, T) -> bool)
    requires s != [] && SortedBy(s, atMost)
    ensures forall y :: y in s[1..] ==> atMost(s[0], y)
  {
  }

  lemma {:induction false} InsertSorts<T>(x: T, s: seq<T>, atMost: (T, T) -> bool)
    requires SortedBy(s, atMost) && TotalOn([x] + s, atMost)
    ensures SortedBy(Insert(x, s, atMost), atMost)
  {
    if s != [] {
      HeadIsLeast(s, atMost);
      assert x in [x] + s && forall y :: y in s ==> y in [x] + s;
      if atMost(x, s[0]) {
        assert forall y :: y in s ==> y == s[0] || y in s[1..];
        PrependSorted(x, s, atMost);
      } else {
        assert forall y :: y in s[1..] ==> y in s;
        assert atMost(s[0], x);
        TotalOnFewer([x] + s, [x] + s[1..], atMost);
        InsertSorts(x, s[1..], atMost);
        var rest := Insert(x, s[1..], atMost);
        BoundCarriesOver(s[0], s[1..] + [x], rest, atMost);
        PrependSorted(s[0], rest, atMost);
      }
    }
  }

  lemma {:induction false} SortSorts<T>(s: seq<T>, atMost: (T, T) -> bool)
    requires TotalOn(s, atMost)
    ensures SortedBy(Sort(s, atMost), atMost)
  {
    hide TotalOn, SortedBy;
    if s == [] {
      assert SortedBy(s, atMost) by {
        EmptyIsSorted(s, atMost);
      }
    } else {
      var rest := Sort(s[1..], atMost);
      TotalOnFewer(s, s[1..], atMost);
      SortSorts(s[1..], atMost);
      TailElements(s, rest);
      TotalOnFewer(s, [s[0]] + rest, atMost);
      InsertSorts(s[0], rest, atMost);
    }
  }

  lemma EmptyIsSorted<T>(s: seq<T>, atMost: (T, T) -> bool)
    requires s == []
    ensures SortedBy(s, atMost)
  {
  }
}
