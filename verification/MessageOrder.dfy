/** A merged message window stays ordered by creation time. */
module MessageOrder {
  import opened Basics
  import opened MessageWindow
  import opened Sequences

  ghost predicate Ordered(s: seq<Message>) {
    && (forall m :: m in s ==> Time(m).Some?)
    && forall i, j :: 0 <= i <= j < |s| ==> Time(s[i]).value <= Time(s[j]).value
  }

  /** The two windows give the rows they share the same creation time. */
  ghost predicate Agree(local: seq<Message>, incoming: seq<Message>) {
    forall l, i :: l in local && i in incoming && Key(l) == Key(i) ==> Time(l) == Time(i)
  }

  ghost predicate NoneBefore(time: Option<int>, s: seq<Message>) {
    forall m :: m in s ==> !Before(Time(m), time)
  }

  ghost predicate NoneAfter(s: seq<Message>, time: Option<int>) {
    forall m :: m in s ==> !Before(time, Time(m))
  }

  ghost predicate AllNotAfter(a: seq<Message>, b: seq<Message>) {
    forall x, y :: x in a && y in b ==> !Before(Time(y), Time(x))
  }

  lemma {:induction false} FilterKeepsOrder(s: seq<Message>, p: Message -> bool)
    requires Ordered(s)
    ensures Ordered(Filter(s, p))
  {
    if s != [] {
      FilterKeepsOrder(s[1..], p);
      assert forall m :: m in Filter(s[1..], p) ==> m in s[1..] && Time(s[0]).value <= Time(m).value;
    }
  }

  lemma MapKeepsOrder(s: seq<Message>, f: Message -> Message)
    requires Ordered(s) && forall m :: m in s ==> Time(f(m)) == Time(m)
    ensures Ordered(Map(s, f))
    ensures forall m :: m in Map(s, f) ==> exists x :: x in s && Time(x) == Time(m)
  {
    assert forall i :: 0 <= i < |s| ==> s[i] in s && Time(Map(s, f)[i]) == Time(s[i]);
  }

  lemma ConcatKeepsOrder(a: seq<Message>, b: seq<Message>)
    requires Ordered(a) && Ordered(b) && AllNotAfter(a, b)
    ensures Ordered(a + b)
  {
    forall i, j | 0 <= i <= j < |a + b|
      ensures Time((a + b)[i]).value <= Time((a + b)[j]).value
    {
      if i < |a| <= j {
        assert a[i] in a && b[j - |a|] in b;
      }
    }
  }

  lemma SuffixIsOrdered(s: seq<Message>, from: nat)
    requires Ordered(s) && from < |s|
    ensures Ordered(s[from + 1..])
  {
  }

  /** What a filter leaves of the rows behind row `at`. */
  lemma FilteredBehind(s: seq<Message>, at: nat, time: Option<int>, p: Message -> bool)
    requires Ordered(s) && at < |s| && Time(s[at]) == time
    ensures Ordered(Filter(s[at + 1..], p)) && NoneBefore(time, Filter(s[at + 1..], p))
  {
    hide Time;
    SuffixIsOrdered(s, at);
    FilterKeepsOrder(s[at + 1..], p);
    forall m | m in s[at + 1..]
      ensures !Before(Time(m), time)
    {
      var i :| 0 <= i < |s[at + 1..]| && s[at + 1..][i] == m;
      assert s[at + 1 + i] == m && s[at] in s && m in s;
    }
  }

  lemma FilteredNotOlder(s: seq<Message>, time: Option<int>, p: Message -> bool)
    requires Ordered(s) && forall m :: p(m) ==> AtLeast(Time(m), time)
    ensures Ordered(Filter(s, p)) && NoneBefore(time, Filter(s, p))
  {
    FilterKeepsOrder(s, p);
  }

  lemma LastIsLatest(s: seq<Message>)
    requires Ordered(s) && |s| > 0
    ensures NoneAfter(s, Time(s[|s| - 1])) && NoneBefore(Time(s[0]), s)
  {
  }

  lemma MergeKeepsTime(local: Message, incoming: Message, baseline: Option<Message>)
    requires Time(local).Some? && Time(local) == Time(incoming)
    ensures Time(MergePreserved(local, incoming, baseline)) == Time(local)
  {
  }

  lemma KeptRowKeepsTime(row: Message, local: seq<Message>, incoming: seq<Message>, o: Options, all: bool)
    requires row in local && Ordered(local) && Agree(local, incoming)
    ensures Time(KeptRow(row, incoming, o, all)) == Time(row)
  {
    hide Key, MergePreserved, Time;
    var byKey := ByKey(incoming);
    if Key(row) in byKey {
      assert Time(byKey[Key(row)]) == Time(row);
      MergeKeepsTime(row, byKey[Key(row)], Lookup(ByKey(Baseline(o)), Key(row)));
    }
  }

  lemma IncomingRowKeepsTime(row: Message, local: seq<Message>, incoming: seq<Message>, o: Options)
    requires row in incoming && Ordered(incoming) && Agree(local, incoming)
    ensures Time(IncomingRow(row, local, o)) == Time(row)
  {
    hide Key, MergePreserved, Time;
    var byKey := ByKey(local);
    if Key(row) in byKey {
      assert Time(byKey[Key(row)]) == Time(row);
      MergeKeepsTime(byKey[Key(row)], row, Lookup(ByKey(Baseline(o)), Key(row)));
    }
  }

  lemma KeepLocalIsOrdered(local: seq<Message>, incoming: seq<Message>, o: Options, relation: Relation, all: bool)
    requires Ordered(local) && Agree(local, incoming)
    ensures Ordered(KeepLocal(local, incoming, o, relation, all))
    ensures forall m :: m in KeepLocal(local, incoming, o, relation, all) ==>
      exists x :: x in local && Time(x) == Time(m)
  {
    hide KeptRow, Key, Time, Retained, Agree;
    var keepAll := all || (PreservesLoadedHistory(o) && |local| > |incoming| && relation != Disjoint);
    var p := row => Retained(row, incoming, o, keepAll);
    var f := row => KeptRow(row, incoming, o, all);
    var kept := Filter(local, p);
    FilterKeepsOrder(local, p);
    forall m | m in kept
      ensures Time(f(m)) == Time(m)
    {
      KeptRowKeepsTime(m, local, incoming, o, all);
    }
    MapKeepsOrder(kept, f);
  }

  lemma TakeIncomingIsOrdered(local: seq<Message>, incoming: seq<Message>, o: Options, preserveChanged: bool)
    requires Ordered(incoming) && Agree(local, incoming)
    ensures Ordered(TakeIncoming(local, incoming, o, preserveChanged))
    ensures forall m :: m in TakeIncoming(local, incoming, o, preserveChanged) ==>
      exists x :: x in incoming && Time(x) == Time(m)
  {
    hide IncomingRow, Key, Time, Agree;
    if preserveChanged {
      var f := row => IncomingRow(row, local, o);
      forall m | m in incoming
        ensures Time(f(m)) == Time(m)
      {
        IncomingRowKeepsTime(m, local, incoming, o);
      }
      MapKeepsOrder(incoming, f);
    }
  }

  lemma BehindIsOrdered(local: seq<Message>, at: nat, time: Option<int>, incoming: seq<Message>, o: Options)
    requires Ordered(local) && at < |local| && Time(local[at]) == time
    ensures Ordered(RowsBehind(local, at + 1, incoming, o)) && NoneBefore(time, RowsBehind(local, at + 1, incoming, o))
  {
    hide Ordered, NoneBefore, IsNew;
    FilteredBehind(local, at, time, m => IsNew(m, incoming, o));
  }

  lemma NotOlderIsOrdered(local: seq<Message>, time: Option<int>, incoming: seq<Message>, o: Options)
    requires Ordered(local)
    ensures Ordered(RowsNotOlder(local, time, incoming, o)) && NoneBefore(time, RowsNotOlder(local, time, incoming, o))
  {
    hide Ordered, NoneBefore, IsNew;
    FilteredNotOlder(local, time, m => IsNew(m, incoming, o) && AtLeast(Time(m), time));
  }

  lemma PostRequestIsOrdered(local: seq<Message>, incoming: seq<Message>, o: Options)
    requires |incoming| > 0 && Ordered(local) && Ordered(incoming) && Agree(local, incoming)
    ensures Ordered(PostRequest(local, incoming, o))
    ensures NoneBefore(Time(incoming[|incoming| - 1]), PostRequest(local, incoming, o))
  {
    hide Key, Time, Ordered, NoneBefore, RowsBehind, RowsNotOlder;
    var localIndexes := Indexes(local);
    var last := incoming[|incoming| - 1];
    if Key(last) in localIndexes {
      BehindIsOrdered(local, localIndexes[Key(last)], Time(last), incoming, o);
    } else {
      NotOlderIsOrdered(local, Time(last), incoming, o);
    }
  }

  lemma LatestWindowIsOrdered(local: seq<Message>, incoming: seq<Message>, o: Options)
    requires |incoming| > 0 && Ordered(local) && Ordered(incoming) && Agree(local, incoming)
    ensures Ordered(LatestWindow(local, incoming, o)) && NoneBefore(Time(incoming[0]), LatestWindow(local, incoming, o))
  {
    hide TakeIncoming, PostRequest, Agree, Time;
    TakeIncomingIsOrdered(local, incoming, o, RevisionChanged(o));
    PostRequestIsOrdered(local, incoming, o);
    LastIsLatest(incoming);
    var taken, added := TakeIncoming(local, incoming, o, RevisionChanged(o)), PostRequest(local, incoming, o);
    var last := incoming[|incoming| - 1];
    assert last in incoming && forall m :: m in taken ==> Time(m).Some?;
    forall x | x in taken
      ensures !Before(Time(last), Time(x))
    {
      var z :| z in incoming && Time(z) == Time(x);
    }
    ConcatKeepsOrder(taken, added);
  }

  lemma AuthoritativeIsOrdered(local: seq<Message>, incoming: seq<Message>, o: Options)
    requires |incoming| > 0 && Ordered(local) && Ordered(incoming) && Agree(local, incoming)
    ensures Ordered(Authoritative(local, incoming, o))
  {
    hide LatestWindow, Agree, Key;
    LatestWindowIsOrdered(local, incoming, o);
    var latest := LatestWindow(local, incoming, o);
    if o.preserveOlderReadingHistory {
      var p := (m: Message) => Key(m) !in KeySet(latest) && Before(Time(m), Time(incoming[0]));
      FilterKeepsOrder(local, p);
      assert OlderHistory(local, incoming, latest) == Filter(local, p);
      ConcatKeepsOrder(Filter(local, p), latest);
    }
  }

  lemma MissingIsOrdered(incoming: seq<Message>, at: nat, time: Option<int>, merged: seq<Message>)
    requires Ordered(incoming) && at < |incoming| && Time(incoming[at]) == time
    ensures Ordered(RowsMissing(incoming[at + 1..], merged))
    ensures NoneBefore(time, RowsMissing(incoming[at + 1..], merged))
  {
    hide Ordered, NoneBefore, Key;
    FilteredBehind(incoming, at, time, (m: Message) => Key(m) !in KeySet(merged));
  }

  lemma AppendNewerIsOrdered(local: seq<Message>, incoming: seq<Message>, o: Options, relation: Relation)
    requires |local| > 0 && Ordered(local) && Ordered(incoming) && Agree(local, incoming)
    ensures AppendNewer(local, incoming, o, relation).Some? ==> Ordered(AppendNewer(local, incoming, o, relation).value)
  {
    hide KeepLocal, Key, Time, RowsMissing;
    var last := local[|local| - 1];
    if AppendNewer(local, incoming, o, relation).Some? {
      var at := Indexes(incoming)[Key(last)];
      var merged := KeepLocal(local, incoming, o, relation, false);
      KeepLocalIsOrdered(local, incoming, o, relation, false);
      assert incoming[at] in incoming && last in local && Time(incoming[at]) == Time(last);
      MissingIsOrdered(incoming, at, Time(last), merged);
      LastIsLatest(local);
      ConcatKeepsOrder(merged, RowsMissing(incoming[at + 1..], merged));
    }
  }

  /** In every branch and under all options, two windows ordered by creation time that agree
      on the times of shared rows merge into an ordered window. */
  lemma MergeStaysOrdered(local: seq<Message>, incoming: seq<Message>, o: Options)
    requires Ordered(local) && Ordered(incoming) && Agree(local, incoming)
    ensures Ordered(Merge(local, incoming, o))
  {
    hide KeepLocal, TakeIncoming, AppendNewer, Authoritative, KeepsLocal, Ordered, Agree, Key;
    if IsStale(o) {
      KeepLocalIsOrdered(local, incoming, o, RelationOf(local, incoming), true);
    } else if incoming == [] {
      FilterKeepsOrder(local, m => Key(m) !in KeySet(Baseline(o)));
    } else if local != [] {
      var relation := RelationOf(local, incoming);
      AuthoritativeIsOrdered(local, incoming, o);
      AppendNewerIsOrdered(local, incoming, o, relation);
      KeepLocalIsOrdered(local, incoming, o, relation, false);
      TakeIncomingIsOrdered(local, incoming, o, RevisionChanged(o));
    }
  }
}
