/** The ordinary refresh, stated on keys and positions: which keys the merged window has, in
    which order, when the newest sent row is among them, and which version a row takes. */
module RefreshBranch {
  import opened Basics
  import opened Sequences
  import opened MessageWindow
  import opened LocalChanges
  import opened AuthoritativeWindow
  import opened StaleResponses

  /** Some message is in both windows. */
  ghost predicate Shares(local: seq<Message>, incoming: seq<Message>) {
    exists k :: k != "" && k in KeySet(local) && k in KeySet(incoming)
  }

  /** The last sent row is loaded, and other rows are loaded behind it. */
  ghost predicate EndsInside(local: seq<Message>, incoming: seq<Message>)
    requires local != [] && incoming != []
  {
    && Shares(local, incoming) && Key(incoming[|incoming| - 1]) in KeySet(local)
    && Key(incoming[|incoming| - 1]) != Key(local[|local| - 1])
  }

  /** More is loaded than was sent, and the caller wants to keep it. */
  ghost predicate HoldsHistory(local: seq<Message>, incoming: seq<Message>, o: Options) {
    o.preserveLoadedHistory != Some(false) && |local| > |incoming| && Shares(local, incoming)
  }

  /** Position y of the sent window is the last loaded row, and no unknown row comes before it. */
  ghost predicate ContinuesAt(local: seq<Message>, incoming: seq<Message>, y: nat)
    requires local != []
  {
    && y < |incoming| && Key(incoming[y]) == Key(local[|local| - 1])
    && (forall z :: y < z < |incoming| ==> Key(incoming[z]) != Key(incoming[y]))
    && forall z :: 0 <= z <= y ==> Key(incoming[z]) in KeySet(local)
  }

  /** The sent window continues the loaded one. */
  ghost predicate Continues(local: seq<Message>, incoming: seq<Message>)
    requires local != [] && incoming != []
  {
    !EndsInside(local, incoming) && exists y: nat :: ContinuesAt(local, incoming, y)
  }

  /** The rows the request did not know of, and those the server sent. */
  ghost function NotOmitted(local: seq<Message>, incoming: seq<Message>, o: Options): (r: seq<Message>) {
    Filter(local, m => Key(m) in KeySet(incoming) || o.baseline == None || Key(m) !in KeySet(o.baseline.value))
  }

  /** The sent rows that are not loaded. */
  ghost function Unknown(sent: seq<Message>, local: seq<Message>): (r: seq<Message>) {
    Filter(sent, m => Key(m) !in KeySet(local))
  }

  // ----- the relation of two windows -----

  lemma OneMoreIndex(s: seq<Message>, n: nat, k: string)
    requires |s| == n + 1 && Key(s[n]) != k && k in KeySet(s)
    ensures k in KeySet(s[..n]) && Indexes(s)[k] == Indexes(s[..n])[k]
    ensures ByKey(s)[k] == ByKey(s[..n])[k]
  {
    hide Key, KeySet;
    assert s == s[..n] + [s[n]];
    assert k in Indexes(s[..n]) && k in ByKey(s[..n]);
  }

  lemma IndexOfTheLast(s: seq<Message>, n: nat)
    requires |s| == n + 1
    ensures Key(s[n]) in KeySet(s) && Indexes(s)[Key(s[n])] == n && ByKey(s)[Key(s[n])] == s[n]
  {
    hide Key;
  }

  lemma {:induction false} LastIndex(s: seq<Message>, k: string)
    requires k in KeySet(s)
    ensures Indexes(s)[k] < |s| && Key(s[Indexes(s)[k]]) == k
    ensures forall z :: Indexes(s)[k] < z < |s| ==> Key(s[z]) != k
  {
    hide Key, Indexes, KeySet;
    var n := |s| - 1;
    if Key(s[n]) != k {
      OneMoreIndex(s, n, k);
      LastIndex(s[..n], k);
      forall z | Indexes(s)[k] < z < |s|
        ensures Key(s[z]) != k
      {
        if z < n {
          assert s[z] == s[..n][z];
        }
      }
    } else {
      IndexOfTheLast(s, n);
    }
  }

  lemma BehindTheEnd(s: seq<Message>, k: string)
    requires k in KeySet(s)
    ensures s != [] && (Indexes(s)[k] < |s| - 1 <==> Key(s[|s| - 1]) != k)
  {
    hide Key;
    LastIndex(s, k);
  }

  lemma SharesIff(local: seq<Message>, incoming: seq<Message>)
    ensures Shares(local, incoming) <==>
      Filter(Map(incoming, Key), k => k != "" && k in Indexes(local)) != []
  {
    hide Key, Indexes, KeySet;
    var common := Filter(Map(incoming, Key), k => k != "" && k in Indexes(local));
    if Shares(local, incoming) {
      var k :| k != "" && k in KeySet(local) && k in KeySet(incoming);
      var i :| 0 <= i < |incoming| && Key(incoming[i]) == k;
      assert Map(incoming, Key)[i] == k;
      assert k in common;
    }
    if common != [] {
      assert common[0] in common;
      var i :| 0 <= i < |incoming| && Map(incoming, Key)[i] == common[0];
      assert Key(incoming[i]) == common[0];
    }
  }

  /** What the relation says, as far as a merge asks. */
  lemma RelationMeans(local: seq<Message>, incoming: seq<Message>)
    requires local != [] && incoming != []
    ensures var r := RelationOf(local, incoming);
      && (r != Disjoint <==> Shares(local, incoming))
      && (r == IncomingOlder <==> EndsInside(local, incoming))
      && (r == IncomingNewer <==>
          && Shares(local, incoming) && !EndsInside(local, incoming)
          && Key(local[|local| - 1]) in KeySet(incoming)
          && Key(local[|local| - 1]) != Key(incoming[|incoming| - 1]))
      && (r == IncomingContained ==> |local| > |incoming|)
  {
    hide Key, Shares;
    SharesIff(local, incoming);
    var sent, loaded := Key(incoming[|incoming| - 1]), Key(local[|local| - 1]);
    if sent in KeySet(local) {
      BehindTheEnd(local, sent);
    }
    if loaded in KeySet(incoming) {
      BehindTheEnd(incoming, loaded);
    }
  }

  // ----- the branches -----

  lemma KeptKeys(local: seq<Message>, incoming: seq<Message>, o: Options, relation: Relation)
    requires relation != Disjoint <==> Shares(local, incoming)
    ensures Map(KeepLocal(local, incoming, o, relation, false), Key) ==
      Map(if HoldsHistory(local, incoming, o) then local else NotOmitted(local, incoming, o), Key)
  {
    hide KeptRow, Key, KeySet, Shares;
    var keepAll := PreservesLoadedHistory(o) && |local| > |incoming| && relation != Disjoint;
    var p, f := row => Retained(row, incoming, o, keepAll), row => KeptRow(row, incoming, o, false);
    forall m | m in local
      ensures Key(f(m)) == Key(m)
    {
      KeptRowSourced(m, local, incoming, o, false);
    }
    MapKeepsKeys(Filter(local, p), f);
    if keepAll {
      FilterAll(local, p);
    } else {
      FilterAgrees(local, p,
                   m => Key(m) in KeySet(incoming) || o.baseline == None || Key(m) !in KeySet(o.baseline.value));
    }
  }

  lemma UnknownBehind(sent: seq<Message>, merged: seq<Message>, local: seq<Message>)
    requires Map(merged, Key) == Map(local, Key)
    ensures RowsMissing(sent, merged) == Unknown(sent, local)
  {
    hide Key, KeySet;
    SameKeys(merged, local);
    FilterAgrees(sent, m => Key(m) !in KeySet(merged), m => Key(m) !in KeySet(local));
  }

  lemma ConcatKeys(a: seq<Message>, b: seq<Message>)
    ensures Map(a + b, Key) == Map(a, Key) + Map(b, Key)
  {
    hide Key;
  }

  /** The prefix is known exactly when no unknown row comes before the last loaded one. */
  lemma PrefixIsKnownIff(local: seq<Message>, incoming: seq<Message>, y: nat)
    requires local != [] && Key(local[|local| - 1]) in KeySet(incoming)
    requires y == Indexes(incoming)[Key(local[|local| - 1])]
    ensures ContinuesAt(local, incoming, y) <==> !exists m :: m in incoming[..y + 1] && Key(m) !in KeySet(local)
  {
    hide Key, KeySet;
    LastIndex(incoming, Key(local[|local| - 1]));
    assert forall z :: 0 <= z <= y ==> incoming[z] == incoming[..y + 1][z];
  }

  lemma AppendsIff(local: seq<Message>, incoming: seq<Message>, o: Options, relation: Relation, y: nat)
    requires local != [] && Key(local[|local| - 1]) in KeySet(incoming)
    requires y == Indexes(incoming)[Key(local[|local| - 1])]
    ensures var r, merged := AppendNewer(local, incoming, o, relation), KeepLocal(local, incoming, o, relation, false);
      r == if ContinuesAt(local, incoming, y) then Some(merged + RowsMissing(incoming[y + 1..], merged)) else None
  {
    hide Key, KeySet, KeepLocal, RowsMissing, ContinuesAt, Indexes;
    PrefixIsKnownIff(local, incoming, y);
  }

  /** Appending the newer rows, when that branch is reached. */
  lemma AppendedKeys(local: seq<Message>, incoming: seq<Message>, o: Options, relation: Relation, y: nat)
    requires local != [] && (relation != Disjoint <==> Shares(local, incoming)) && HoldsHistory(local, incoming, o)
    requires Key(local[|local| - 1]) in KeySet(incoming) && y == Indexes(incoming)[Key(local[|local| - 1])]
    ensures AppendNewer(local, incoming, o, relation).Some? <==> ContinuesAt(local, incoming, y)
    ensures ContinuesAt(local, incoming, y) ==>
      Map(AppendNewer(local, incoming, o, relation).value, Key) ==
        Map(local, Key) + Map(Unknown(incoming[y + 1..], local), Key)
  {
    hide Key, KeySet, Shares, KeepLocal, RowsMissing, Unknown, ContinuesAt, Map, AppendNewer, NotOmitted;
    AppendsIff(local, incoming, o, relation, y);
    var merged, sent := KeepLocal(local, incoming, o, relation, false), incoming[y + 1..];
    KeptKeys(local, incoming, o, relation);
    UnknownBehind(sent, merged, local);
    ConcatKeys(merged, RowsMissing(sent, merged));
  }

  lemma OnlyContinuation(local: seq<Message>, incoming: seq<Message>, y: nat)
    requires local != [] && ContinuesAt(local, incoming, y)
    ensures Key(local[|local| - 1]) in KeySet(incoming) && y == Indexes(incoming)[Key(local[|local| - 1])]
  {
    hide Key;
    LastIndex(incoming, Key(local[|local| - 1]));
  }

  lemma NothingBehindTheEnd(local: seq<Message>, incoming: seq<Message>, y: nat)
    requires local != [] && incoming != []
    ensures ContinuesAt(local, incoming, y) && Key(incoming[|incoming| - 1]) == Key(local[|local| - 1]) ==>
      Unknown(incoming[y + 1..], local) == []
  {
    hide Key;
  }

  /** When the loaded rows are kept, and when the sent rows behind them are appended. */
  lemma BranchIs(local: seq<Message>, incoming: seq<Message>, o: Options)
    requires local != [] && incoming != []
    ensures KeepsLocal(local, incoming, o) <==> HoldsHistory(local, incoming, o) || EndsInside(local, incoming)
    ensures NewerAppended(local, incoming, o).Some? <==>
      && HoldsHistory(local, incoming, o) && Continues(local, incoming)
      && Key(incoming[|incoming| - 1]) != Key(local[|local| - 1])
  {
    hide Key, KeySet, Shares, EndsInside, AppendNewer, RelationOf, ContinuesAt;
    var relation, loaded := RelationOf(local, incoming), Key(local[|local| - 1]);
    RelationMeans(local, incoming);
    if Continues(local, incoming) {
      var z: nat :| ContinuesAt(local, incoming, z);
      OnlyContinuation(local, incoming, z);
    }
    if loaded in KeySet(incoming) && HoldsHistory(local, incoming, o) {
      AppendedKeys(local, incoming, o, relation, Indexes(incoming)[loaded]);
    }
  }

  lemma MergeTakes(local: seq<Message>, incoming: seq<Message>, o: Options)
    requires IsCurrent(o) && !o.authoritativeWindow && local != [] && incoming != []
    ensures var appended := NewerAppended(local, incoming, o);
      Merge(local, incoming, o) ==
        if appended.Some? then appended.value
        else if KeepsLocal(local, incoming, o) then
          KeepLocal(local, incoming, o, RelationOf(local, incoming), false)
        else TakeIncoming(local, incoming, o, RevisionChanged(o))
  {
    hide NewerAppended, KeepsLocal, KeepLocal, RelationOf, TakeIncoming;
  }

  /** The sent rows behind the last loaded one that are not loaded, when the answer
      continues the window. */
  ghost function Continuation(local: seq<Message>, incoming: seq<Message>): (r: seq<Message>)
    requires local != [] && incoming != []
  {
    if Continues(local, incoming) then
      var y: nat :| ContinuesAt(local, incoming, y);
      Unknown(incoming[y + 1..], local)
    else []
  }

  /** There is only one place at which it can continue. */
  lemma ContinuationAt(local: seq<Message>, incoming: seq<Message>, y: nat)
    requires local != [] && incoming != [] && !EndsInside(local, incoming) && ContinuesAt(local, incoming, y)
    ensures Continuation(local, incoming) == Unknown(incoming[y + 1..], local)
  {
    hide Key, EndsInside, Unknown;
    forall z: nat | ContinuesAt(local, incoming, z)
      ensures z == y
    {
      hide ContinuesAt;
      OnlyContinuation(local, incoming, y);
      OnlyContinuation(local, incoming, z);
    }
  }

  lemma ContinuationIs(local: seq<Message>, incoming: seq<Message>, o: Options)
    requires local != [] && incoming != [] && HoldsHistory(local, incoming, o)
    ensures
      var appended := NewerAppended(local, incoming, o);
      if appended.Some? then Map(appended.value, Key) == Map(local, Key) + Map(Continuation(local, incoming), Key)
      else Continuation(local, incoming) == []
  {
    hide Key, KeySet, Shares, EndsInside, AppendNewer, RelationOf, ContinuesAt, Unknown, KeepsLocal, HoldsHistory;
    BranchIs(local, incoming, o);
    RelationMeans(local, incoming);
    if Continues(local, incoming) {
      var y: nat :| ContinuesAt(local, incoming, y);
      ContinuationAt(local, incoming, y);
      OnlyContinuation(local, incoming, y);
      AppendedKeys(local, incoming, o, RelationOf(local, incoming), y);
      NothingBehindTheEnd(local, incoming, y);
    }
  }

  // ----- main results -----

  /** With nothing loaded the sent window is taken as it is; when nothing was sent, the window
      is emptied, except for rows the request did not know of if something changed locally
      and such rows are wanted. */
  lemma EmptyWindows(local: seq<Message>, incoming: seq<Message>, o: Options)
    requires IsCurrent(o)
    ensures incoming != [] ==> Merge([], incoming, o) == incoming
    ensures Merge(local, [], o) ==
      if LocallyChanged(o) && WantsNewRows(o) then
        Filter(local, m => o.baseline == None || Key(m) !in KeySet(o.baseline.value))
      else []
  {
    hide Key, KeySet;
    FilterAgrees(local, m => Key(m) !in KeySet(Baseline(o)),
                 m => o.baseline == None || Key(m) !in KeySet(o.baseline.value));
  }

  /** The keys of a refreshed window, in order. A window that is longer than the answer keeps
      all its rows, and gains the sent rows behind its last one when the answer continues it
      without a gap; else a window the answer ends inside of loses the rows the server
      omitted; else the sent window takes its place. */
  lemma RefreshedKeys(local: seq<Message>, incoming: seq<Message>, o: Options)
    requires IsCurrent(o) && !o.authoritativeWindow && local != [] && incoming != []
    ensures Map(Merge(local, incoming, o), Key) ==
      if HoldsHistory(local, incoming, o) then Map(local, Key) + Map(Continuation(local, incoming), Key)
      else if EndsInside(local, incoming) then Map(NotOmitted(local, incoming, o), Key)
      else Map(incoming, Key)
  {
    hide Key, KeySet, Shares, KeepLocal, TakeIncoming, RelationOf, Continues, EndsInside, HoldsHistory, KeepsLocal,
      NewerAppended, Merge, NotOmitted, Continuation, IsCurrent;
    MergeTakes(local, incoming, o);
    BranchIs(local, incoming, o);
    RelationMeans(local, incoming);
    KeptKeys(local, incoming, o, RelationOf(local, incoming));
    TakeIncomingRows(local, incoming, o, RevisionChanged(o));
    if HoldsHistory(local, incoming, o) {
      ContinuationIs(local, incoming, o);
    }
  }

  /** The newest sent row is in the refreshed window, unless a longer window that shares some
      row with the answer neither holds that row nor is continued by the answer. */
  lemma NewestSentRowArrivesIff(local: seq<Message>, incoming: seq<Message>, o: Options)
    requires IsCurrent(o) && !o.authoritativeWindow && local != [] && incoming != []
    ensures var newest := Key(incoming[|incoming| - 1]);
      newest in KeySet(Merge(local, incoming, o)) <==>
        !HoldsHistory(local, incoming, o) || newest in KeySet(local) || Continues(local, incoming)
  {
    hide Key, Shares, Merge, IsCurrent, HoldsHistory, Continues;
    var r, last := Merge(local, incoming, o), incoming[|incoming| - 1];
    RefreshedKeys(local, incoming, o);
    if HoldsHistory(local, incoming, o) {
      KeysOfConcat(r, local, Continuation(local, incoming));
      if Continues(local, incoming) {
        NewestIsBehind(local, incoming);
      }
    } else if EndsInside(local, incoming) {
      SameKeys(r, NotOmitted(local, incoming, o));
      var l :| l in local && Key(l) == Key(last);
      assert l in NotOmitted(local, incoming, o);
    } else {
      SameKeys(r, incoming);
    }
  }

  lemma KeysOfConcat(r: seq<Message>, a: seq<Message>, b: seq<Message>)
    requires Map(r, Key) == Map(a, Key) + Map(b, Key)
    ensures KeySet(r) == KeySet(a) + KeySet(b)
  {
    hide Key;
    ConcatKeys(a, b);
    SameKeys(r, a + b);
    forall k
      ensures k in KeySet(a + b) <==> k in KeySet(a) || k in KeySet(b)
    {
      if k in KeySet(a) {
        var m :| m in a && Key(m) == k;
        assert m in a + b;
      }
      if k in KeySet(b) {
        var m :| m in b && Key(m) == k;
        assert m in a + b;
      }
    }
  }

  lemma NewestIsBehind(local: seq<Message>, incoming: seq<Message>)
    requires local != [] && incoming != [] && Continues(local, incoming)
    ensures var newest := Key(incoming[|incoming| - 1]);
      newest in KeySet(local) || newest in KeySet(Continuation(local, incoming))
  {
    hide Key, EndsInside;
    var y: nat :| ContinuesAt(local, incoming, y);
    ContinuationAt(local, incoming, y);
    var last := incoming[|incoming| - 1];
    if y == |incoming| - 1 {
      assert Key(last) in KeySet(local);
    } else {
      assert last == incoming[y + 1..][|incoming| - y - 2];
      if Key(last) !in KeySet(local) {
        assert last in Continuation(local, incoming);
      }
    }
  }

  /** The version a shared row takes, in terms of the request: the sent one exactly when the
      answer is current and either the loaded row is the very object the request started
      from, or the sent window takes the place of the loaded one and nothing changed locally. */
  lemma AdoptsIff(local: seq<Message>, incoming: seq<Message>, o: Options, l: Message)
    requires local != [] && incoming != []
    ensures Adopts(l, local, incoming, o) <==>
      && IsCurrent(o)
      && (|| WasRequested(l, o)
          || ((o.authoritativeWindow || (!HoldsHistory(local, incoming, o) && !EndsInside(local, incoming)))
              && !LocallyChanged(o)))
  {
    hide Key, KeepsLocal, NewerAppended, HoldsHistory, EndsInside, ChangedAfterRequest, WasRequested;
    BranchIs(local, incoming, o);
    WasRequestedIff(l, o);
  }

  /** The last row of this key. */
  ghost predicate IsLastOfKey(s: seq<Message>, j: nat, k: string) {
    j < |s| && Key(s[j]) == k && forall z :: j < z < |s| ==> Key(s[z]) != k
  }

  /** The last requested row of its key is this very object. */
  ghost predicate WasRequested(l: Message, o: Options) {
    && o.baseline.Some? && l.ref.Some?
    && exists j: nat :: IsLastOfKey(o.baseline.value, j, Key(l)) && o.baseline.value[j].ref == l.ref
  }

  lemma {:induction false} LastOfKey(s: seq<Message>, k: string)
    requires k in KeySet(s)
    ensures ByKey(s)[k] == s[Indexes(s)[k]]
  {
    hide Key, Indexes, ByKey, KeySet;
    var n := |s| - 1;
    if Key(s[n]) != k {
      OneMoreIndex(s, n, k);
      LastOfKey(s[..n], k);
    } else {
      IndexOfTheLast(s, n);
    }
  }

  lemma LastIndexIsLast(s: seq<Message>, k: string)
    requires k in KeySet(s)
    ensures IsLastOfKey(s, Indexes(s)[k], k)
  {
    hide Key;
    LastIndex(s, k);
  }

  lemma OnlyLastOfKey(s: seq<Message>, j: nat, k: string)
    requires IsLastOfKey(s, j, k)
    ensures j < |s| && k in KeySet(s) && ByKey(s)[k] == s[j]
  {
    hide Key;
    LastOfKey(s, k);
    LastIndex(s, k);
  }

  lemma WasRequestedIff(l: Message, o: Options)
    ensures ChangedAfterRequest(l, o) <==> !WasRequested(l, o)
  {
    hide Key, IsLastOfKey, ByKey;
    var b, k := Baseline(o), Key(l);
    if k in KeySet(b) {
      LastOfKey(b, k);
      LastIndexIsLast(b, k);
    }
    forall j: nat | IsLastOfKey(b, j, k)
      ensures j < |b| && k in KeySet(b) && ByKey(b)[k] == b[j]
    {
      OnlyLastOfKey(b, j, k);
    }
  }
}
