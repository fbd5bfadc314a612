/** Reconciling the message list of a topic with a server snapshot. */
module TopicMerge {
  import opened Basics
  import opened Sequences
  import opened StringOrder

  /** A message; `ref` is the identity of the object, `time` is Date.parse(createdAt) when
      that is finite, and an empty clientMessageId stands for a missing one too. */
  datatype Message = Message(ref: nat, id: string, clientMessageId: string, time: Option<int>, content: string)

  /** The merged list; `same` when it is the very list object that was passed as current. */
  datatype Result = Result(list: seq<Message>, same: bool)

  function Key(m: Message): (k: string) {
    if m.clientMessageId != "" then m.clientMessageId else m.id
  }

  function KeySet(s: seq<Message>): (r: set<string>) {
    set m | m in s :: Key(m)
  }

  /** Two rows stand for one message: the name of a row is its client id, or its id when it
      has none. */
  lemma SameKeyIff(a: Message, b: Message)
    ensures Key(a) == Key(b) <==>
      || (a.clientMessageId != "" && b.clientMessageId == a.clientMessageId)
      || (a.clientMessageId == "" && b.clientMessageId == "" && a.id == b.id)
      || (a.clientMessageId != "" && b.clientMessageId == "" && a.clientMessageId == b.id)
      || (a.clientMessageId == "" && b.clientMessageId != "" && a.id == b.clientMessageId)
  {
  }

  /** The comparator: by time when both are finite and differ, else by id. */
  predicate NotAfter(a: Message, b: Message) {
    if a.time.Some? && b.time.Some? && a.time != b.time then a.time.value < b.time.value else AtMost(a.id, b.id)
  }

  predicate Precedes(a: Message, b: Message) {
    a.time.Some? && b.time.Some? && (a.time.value < b.time.value || (a.time == b.time && Less(a.id, b.id)))
  }

  /** new Map by key: of messages with one key, the last. */
  function ByKey(s: seq<Message>): (r: map<string, Message>)
    ensures forall m :: m in s ==> Key(m) in r
    ensures forall k :: k in r ==> r[k] in s && Key(r[k]) == k
  {
    if s == [] then map[] else
      assert s == s[..|s| - 1] + [s[|s| - 1]];
      ByKey(s[..|s| - 1])[Key(s[|s| - 1]) := s[|s| - 1]]
  }

  function Newest(m: Message, incoming: seq<Message>): (r: Message) {
    var byKey := ByKey(incoming);
    if Key(m) in byKey then byKey[Key(m)] else m
  }

  function Unsorted(current: seq<Message>, incoming: seq<Message>): (r: seq<Message>) {
    Map(current, m => Newest(m, incoming)) + Filter(incoming, m => Key(m) !in KeySet(current))
  }

  predicate SameObjects(a: seq<Message>, b: seq<Message>) {
    |a| == |b| && forall i :: 0 <= i < |a| ==> a[i].ref == b[i].ref
  }

  function Merged(current: seq<Message>, incoming: seq<Message>): (r: Result) {
    var next := Sort(Unsorted(current, incoming), NotAfter);
    if SameObjects(next, current) then Result(current, true) else Result(next, false)
  }

  /** mergeWorkspaceTopicMessages. */
  method MergeWorkspaceTopicMessages(current: seq<Message>, incoming: seq<Message>) returns (r: Result)
    ensures r == Merged(current, incoming)
  {
    hide Key, Newest;
    var next := Map(current, m => Newest(m, incoming));
    var currentKeys := KeySet(current);
    ghost var isNew := (m: Message) => Key(m) !in KeySet(current);
    for i := 0 to |incoming|
      invariant next == Map(current, m => Newest(m, incoming)) + Filter(incoming[..i], isNew)
    {
      assert incoming[..i + 1] == incoming[..i] + [incoming[i]];
      FilterConcat(incoming[..i], [incoming[i]], isNew);
      if Key(incoming[i]) !in currentKeys {
        next := next + [incoming[i]];
      }
    }
    assert incoming[..|incoming|] == incoming;
    next := Sort(next, NotAfter);
    return if SameObjects(next, current) then Result(current, true) else Result(next, false);
  }

  // ----- distinct keys, and permutations -----

  ghost predicate DistinctKeys(s: seq<Message>) {
    DistinctBy(s, Key)
  }

  /** Distinctness does not depend on the order. */
  lemma {:induction false} DistinctKeysByCounting(s: seq<Message>)
    ensures |KeySet(s)| <= |s|
    ensures DistinctKeys(s) <==> |KeySet(s)| == |s|
  {
    if s != [] {
      hide Key, DistinctKeys;
      var rest := s[1..];
      DistinctKeysByCounting(rest);
      assert forall m :: m in s <==> m == s[0] || m in rest;
      assert KeySet(s) == {Key(s[0])} + KeySet(rest);
      DistinctKeysUnfold(s);
    }
  }

  lemma DistinctKeysUnfold(s: seq<Message>)
    requires s != []
    ensures DistinctKeys(s) <==> DistinctKeys(s[1..]) && Key(s[0]) !in KeySet(s[1..])
  {
    hide Key;
    assert forall j :: 0 < j < |s| ==> s[j] == s[1..][j - 1];
    assert forall m :: m in s[1..] ==> Key(m) in KeySet(s[1..]);
  }

  lemma PermutationKeepsDistinctKeys(a: seq<Message>, b: seq<Message>)
    requires DistinctKeys(a) && multiset(a) == multiset(b)
    ensures DistinctKeys(b)
  {
    hide DistinctKeys, Key;
    DistinctKeysByCounting(a);
    DistinctKeysByCounting(b);
    SameElements(a, b);
    assert KeySet(a) == KeySet(b);
    assert |multiset(a)| == |a| && |multiset(b)| == |b|;
  }

  /** What both lists together are assumed to be: one id per key, finite times, and one
      value per object. */
  ghost predicate Coherent(current: seq<Message>, incoming: seq<Message>) {
    forall a, b :: a in current + incoming && b in current + incoming ==>
      && a.time.Some?
      && (a.id == b.id ==> Key(a) == Key(b))
      && (a.ref == b.ref ==> a == b)
  }

  lemma KeptRows(current: seq<Message>, incoming: seq<Message>)
    ensures var kept := Map(current, m => Newest(m, incoming));
      && (forall i :: 0 <= i < |kept| ==> Key(kept[i]) == Key(current[i]))
      && (forall m :: m in kept ==> m in incoming || (m in current && Key(m) !in KeySet(incoming)))
      && (forall m :: m in current && Key(m) !in KeySet(incoming) ==> m in kept)
  {
    hide Key;
    var kept := Map(current, m => Newest(m, incoming));
    forall m | m in current && Key(m) !in KeySet(incoming)
      ensures m in kept
    {
      var i :| 0 <= i < |current| && current[i] == m;
      assert kept[i] == m;
    }
  }

  lemma UnsortedRows(current: seq<Message>, incoming: seq<Message>)
    requires DistinctKeys(current) && DistinctKeys(incoming)
    ensures DistinctKeys(Unsorted(current, incoming))
    ensures forall m :: m in Unsorted(current, incoming) <==>
      m in incoming || (m in current && Key(m) !in KeySet(incoming))
  {
    hide Key, Newest;
    var isNew := (m: Message) => Key(m) !in KeySet(current);
    var kept, added := Map(current, m => Newest(m, incoming)), Filter(incoming, isNew);
    KeptRows(current, incoming);
    FilterKeepsDistinct(incoming, Key, isNew);
    assert forall m :: m in added ==> Key(m) !in KeySet(current);
    assert forall i :: 0 <= i < |added| ==> added[i] in added;
    forall m | m in incoming
      ensures m in kept + added
    {
      if m !in added {
        var i :| 0 <= i < |current| && Key(current[i]) == Key(m);
        OnlyOneOfAKey(incoming, m, current[i]);
        assert kept[i] == m;
      }
    }
  }

  lemma OnlyOneOfAKey(incoming: seq<Message>, m: Message, c: Message)
    requires DistinctKeys(incoming) && m in incoming && Key(c) == Key(m)
    ensures Newest(c, incoming) == m
  {
    hide Key;
  }

  lemma RowsAreTotal(s: seq<Message>)
    requires forall m :: m in s ==> m.time.Some?
    ensures TotalOn(s, NotAfter)
  {
    hide Less;
    forall a, b | a in s && b in s
      ensures NotAfter(a, b) || NotAfter(b, a)
    {
      LessIsTotal(a.id, b.id);
      if Less(a.id, b.id) {
        LessIsAsymmetric(a.id, b.id);
      }
    }
    forall a, b, c | a in s && b in s && c in s && NotAfter(a, b) && NotAfter(b, c)
      ensures NotAfter(a, c)
    {
      if a.time == b.time == c.time {
        LessThrough(a.id, b.id, c.id);
      }
    }
  }

  lemma SortedNext(current: seq<Message>, incoming: seq<Message>)
    requires DistinctKeys(current) && DistinctKeys(incoming) && Coherent(current, incoming)
    ensures var next := Sort(Unsorted(current, incoming), NotAfter);
      && DistinctKeys(next) && SortedBy(next, NotAfter)
      && (forall m :: m in next <==> m in incoming || (m in current && Key(m) !in KeySet(incoming)))
      && (forall i, j :: 0 <= i < j < |next| ==> Precedes(next[i], next[j]))
  {
    hide Key, Unsorted;
    var next := Sort(Unsorted(current, incoming), NotAfter);
    UnsortedRows(current, incoming);
    SameElements(next, Unsorted(current, incoming));
    PermutationKeepsDistinctKeys(Unsorted(current, incoming), next);
    assert forall m :: m in next ==> m in current + incoming;
    RowsAreTotal(Unsorted(current, incoming));
    SortSorts(Unsorted(current, incoming), NotAfter);
    forall i, j | 0 <= i < j < |next|
      ensures Precedes(next[i], next[j])
    {
      assert NotAfter(next[i], next[j]) && next[i] in next && next[j] in next;
      LessIsTotal(next[i].id, next[j].id);
    }
  }

  lemma SameObjectsAreEqual(current: seq<Message>, incoming: seq<Message>, next: seq<Message>)
    requires Coherent(current, incoming) && SameObjects(next, current)
    requires forall m :: m in next ==> m in current + incoming
    ensures next == current
  {
    forall i | 0 <= i < |next|
      ensures next[i] == current[i]
    {
      assert next[i] in next && current[i] in current + incoming;
    }
  }

  /** The merged list is strictly ordered by time and then id; its messages are the incoming
      ones and the current ones whose key did not come in, so its keys are the union and the
      incoming version wins. */
  lemma MergeIsTheOrderedUnion(current: seq<Message>, incoming: seq<Message>)
    requires DistinctKeys(current) && DistinctKeys(incoming) && Coherent(current, incoming)
    ensures var r := Merged(current, incoming).list;
      && DistinctKeys(r)
      && (forall m :: m in r <==> m in incoming || (m in current && Key(m) !in KeySet(incoming)))
      && (forall i, j :: 0 <= i < j < |r| ==> Precedes(r[i], r[j]))
      && KeySet(r) == KeySet(current) + KeySet(incoming)
  {
    hide Unsorted, Key, Precedes;
    SortedNext(current, incoming);
    var next := Sort(Unsorted(current, incoming), NotAfter);
    if SameObjects(next, current) {
      SameObjectsAreEqual(current, incoming, next);
    }
    assert Merged(current, incoming).list == next;
    UnionOfKeys(current, incoming, next);
  }

  /** In the merged list no two rows share a client id, and no two rows without one share an
      id. */
  lemma NoMessageTwice(current: seq<Message>, incoming: seq<Message>)
    requires DistinctKeys(current) && DistinctKeys(incoming) && Coherent(current, incoming)
    ensures var r := Merged(current, incoming).list;
      forall i, j :: 0 <= i < j < |r| ==>
        && (r[i].clientMessageId != "" ==> r[j].clientMessageId != r[i].clientMessageId)
        && (r[i].clientMessageId == "" && r[j].clientMessageId == "" ==> r[i].id != r[j].id)
  {
    hide Merged, Coherent;
    MergeIsTheOrderedUnion(current, incoming);
  }

  lemma UnionOfKeys(current: seq<Message>, incoming: seq<Message>, r: seq<Message>)
    requires forall m :: m in r <==> m in incoming || (m in current && Key(m) !in KeySet(incoming))
    ensures KeySet(r) == KeySet(current) + KeySet(incoming)
  {
    hide Key;
    forall k | k in KeySet(current) + KeySet(incoming)
      ensures k in KeySet(r)
    {
      if k in KeySet(incoming) {
        var m :| m in incoming && Key(m) == k;
        assert m in r;
      } else {
        var m :| m in current && Key(m) == k;
        assert m in r;
      }
    }
  }

  lemma {:induction false} SortedListStays(s: seq<Message>)
    requires SortedBy(s, NotAfter)
    ensures Sort(s, NotAfter) == s
  {
    hide NotAfter;
    if s != [] {
      SortedListStays(s[1..]);
      assert s == [s[0]] + s[1..];
    }
  }

  /** A merge with a snapshot that is already in the list changes nothing and returns the
      very list. */
  lemma NothingNewIsTheSameList(list: seq<Message>, incoming: seq<Message>)
    requires DistinctKeys(list) && SortedBy(list, NotAfter) && forall m :: m in incoming ==> m in list
    ensures Merged(list, incoming) == Result(list, true)
  {
    hide Key, NotAfter, SortedBy;
    var isNew := (m: Message) => Key(m) !in KeySet(list);
    assert Filter(incoming, isNew) == [] by {
      assert forall m :: m in Filter(incoming, isNew) ==> m in list && Key(m) !in KeySet(list);
      if Filter(incoming, isNew) != [] {
        assert Filter(incoming, isNew)[0] in Filter(incoming, isNew);
        assert false;
      }
    }
    forall i | 0 <= i < |list|
      ensures Newest(list[i], incoming) == list[i]
    {
      var newest := Newest(list[i], incoming);
      assert Key(newest) == Key(list[i]) && newest in list;
    }
    assert Unsorted(list, incoming) == list;
    SortedListStays(list);
  }

  /** Merging the same snapshot again returns the very same list. */
  lemma SecondMergeReturnsTheSameList(current: seq<Message>, incoming: seq<Message>)
    requires DistinctKeys(current) && DistinctKeys(incoming) && Coherent(current, incoming)
    ensures var r := Merged(current, incoming).list; Merged(r, incoming) == Result(r, true)
  {
    hide Unsorted, Key, Precedes, NotAfter;
    MergeIsTheOrderedUnion(current, incoming);
    SortedNext(current, incoming);
    var next := Sort(Unsorted(current, incoming), NotAfter);
    if SameObjects(next, current) {
      SameObjectsAreEqual(current, incoming, next);
    }
    assert Merged(current, incoming).list == next;
    NothingNewIsTheSameList(next, incoming);
  }
}
