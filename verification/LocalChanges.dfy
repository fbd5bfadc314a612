/** What becomes of one loaded row in a merge: a change made after the request is not undone
    by the older snapshot that answers it. */
module LocalChanges {
  import opened Basics
  import opened Sequences
  import opened MessageWindow

  /** The rows of the result come from the sent window rather than from the loaded one. */
  predicate TakesServerWindow(local: seq<Message>, incoming: seq<Message>, o: Options) {
    o.authoritativeWindow || (NewerAppended(local, incoming, o).None? && !KeepsLocal(local, incoming, o))
  }

  /** The sent version of a shared row replaces the loaded one: never for a stale response,
      else when the row is still the object the request started from, or when a server
      window arrives at an unchanged revision. */
  predicate Adopts(l: Message, local: seq<Message>, incoming: seq<Message>, o: Options) {
    && !IsStale(o)
    && (!ChangedAfterRequest(l, o) || (TakesServerWindow(local, incoming, o) && !RevisionChanged(o)))
  }

  function MergedWithBaseline(l: Message, i: Message, o: Options): (m: Message) {
    MergePreserved(l, i, Lookup(ByKey(Baseline(o)), Key(l)))
  }

  /** m is the row a shared key ends up with, given whether the sent version is adopted. */
  ghost predicate Becomes(m: Message, l: Message, incoming: seq<Message>, o: Options, adopted: bool) {
    && (Key(l) !in KeySet(incoming) ==> m == l)
    && forall i :: i in incoming && Key(i) == Key(l) ==> m == if adopted then i else MergedWithBaseline(l, i, o)
  }

  lemma OnlyRowOfItsKey(s: seq<Message>, m: Message)
    requires DistinctKeys(s) && m in s
    ensures Key(m) in ByKey(s) && ByKey(s)[Key(m)] == m
    ensures forall x :: x in s && Key(x) == Key(m) ==> x == m
  {
    hide Key;
  }

  lemma KeptRowBecomes(incoming: seq<Message>, o: Options, all: bool, l: Message)
    requires DistinctKeys(incoming)
    ensures Becomes(KeptRow(l, incoming, o, all), l, incoming, o, !all && !ChangedAfterRequest(l, o))
  {
    hide Key, MergePreserved, ChangedAfterRequest;
    forall i | i in incoming && Key(i) == Key(l)
      ensures ByKey(incoming)[Key(l)] == i
    {
      OnlyRowOfItsKey(incoming, i);
    }
  }

  lemma KeptWindowRow(local: seq<Message>, incoming: seq<Message>, o: Options, relation: Relation, all: bool,
          l: Message, m: Message)
    requires DistinctKeys(local) && DistinctKeys(incoming) && l in local
    requires m in KeepLocal(local, incoming, o, relation, all) && Key(m) == Key(l)
    ensures Becomes(m, l, incoming, o, !all && !ChangedAfterRequest(l, o))
  {
    hide Key, KeptRow, Retained, Becomes, ChangedAfterRequest;
    var keepAll := all || (PreservesLoadedHistory(o) && |local| > |incoming| && relation != Disjoint);
    var kept := Filter(local, row => Retained(row, incoming, o, keepAll));
    var i :| 0 <= i < |kept| && KeptRow(kept[i], incoming, o, all) == m;
    assert kept[i] in local;
    KeptRowSourced(kept[i], local, incoming, o, all);
    OnlyRowOfItsKey(local, l);
    KeptRowBecomes(incoming, o, all, l);
  }

  lemma TakenRow(local: seq<Message>, incoming: seq<Message>, o: Options, preserve: bool, l: Message, m: Message)
    requires DistinctKeys(local) && DistinctKeys(incoming) && l in local
    requires m in TakeIncoming(local, incoming, o, preserve) && Key(m) == Key(l)
    ensures Becomes(m, l, incoming, o, !preserve || !ChangedAfterRequest(l, o))
  {
    hide Key, MergePreserved, ChangedAfterRequest;
    var k :| 0 <= k < |incoming| && TakeIncoming(local, incoming, o, preserve)[k] == m;
    var i := incoming[k];
    OnlyRowOfItsKey(local, l);
    if preserve {
      assert m == IncomingRow(i, local, o);
      IncomingRowSourced(i, local, incoming, o);
    }
    OnlyRowOfItsKey(incoming, i);
    assert Key(l) in KeySet(incoming);
  }

  /** A loaded row that no sent row shares its key with stays itself. */
  lemma LoadedRow(local: seq<Message>, incoming: seq<Message>, o: Options, l: Message, m: Message, adopted: bool)
    requires DistinctKeys(local) && l in local && m in local && Key(m) == Key(l) && Key(m) !in KeySet(incoming)
    ensures Becomes(m, l, incoming, o, adopted)
  {
    hide Key;
    OnlyRowOfItsKey(local, l);
    assert forall i :: i in incoming ==> Key(i) in KeySet(incoming);
  }

  lemma AuthoritativeRow(local: seq<Message>, incoming: seq<Message>, o: Options, l: Message, m: Message)
    requires DistinctKeys(local) && DistinctKeys(incoming) && |incoming| > 0 && l in local
    requires m in Authoritative(local, incoming, o) && Key(m) == Key(l)
    ensures Becomes(m, l, incoming, o, !RevisionChanged(o) || !ChangedAfterRequest(l, o))
  {
    hide Key, TakeIncoming, PostRequest, Becomes, ChangedAfterRequest;
    var latest := LatestWindow(local, incoming, o);
    var taken, added := TakeIncoming(local, incoming, o, RevisionChanged(o)), PostRequest(local, incoming, o);
    var adopted := !RevisionChanged(o) || !ChangedAfterRequest(l, o);
    PostRequestRows(local, incoming, o);
    TakeIncomingRows(local, incoming, o, RevisionChanged(o));
    if m in taken {
      TakenRow(local, incoming, o, RevisionChanged(o), l, m);
    } else if m in added && m in latest {
      assert Key(m) in KeySet(added);
      AddedRowIsLoaded(local, incoming, o, m);
      LoadedRow(local, incoming, o, l, m, adopted);
    } else {
      assert m in OlderHistory(local, incoming, latest);
      LatestWindowRows(local, incoming, o);
      LoadedRow(local, incoming, o, l, m, adopted);
    }
  }

  lemma AddedRowIsLoaded(local: seq<Message>, incoming: seq<Message>, o: Options, m: Message)
    requires |incoming| > 0 && m in PostRequest(local, incoming, o)
    ensures m in local
  {
    hide Key, IsNew;
  }

  lemma AppendedRow(local: seq<Message>, incoming: seq<Message>, o: Options, relation: Relation, l: Message, m: Message)
    requires DistinctKeys(local) && DistinctKeys(incoming) && l in local
    requires AppendNewer(local, incoming, o, relation).Some? && m in AppendNewer(local, incoming, o, relation).value
    requires Key(m) == Key(l)
    ensures Becomes(m, l, incoming, o, !ChangedAfterRequest(l, o))
  {
    hide Key, KeepLocal, Becomes, ChangedAfterRequest;
    var merged := KeepLocal(local, incoming, o, relation, false);
    if m in merged {
      KeptWindowRow(local, incoming, o, relation, false, l, m);
    } else {
      var at := Indexes(incoming)[Key(local[|local| - 1])];
      assert m in incoming[at + 1..] && Key(m) !in KeySet(merged);
      assert m in incoming && Key(l) in KeySet(incoming);
      SharedRowIsKept(local, incoming, o, relation, l);
      assert false;
    }
  }

  lemma SharedRowIsKept(local: seq<Message>, incoming: seq<Message>, o: Options, relation: Relation, l: Message)
    requires l in local && Key(l) in KeySet(incoming)
    ensures Key(l) in KeySet(KeepLocal(local, incoming, o, relation, false))
  {
    hide Key, KeptRow;
    var keepAll := PreservesLoadedHistory(o) && |local| > |incoming| && relation != Disjoint;
    var kept := Filter(local, row => Retained(row, incoming, o, keepAll));
    assert l in kept;
    var i :| 0 <= i < |kept| && kept[i] == l;
    KeptRowSourced(l, local, incoming, o, false);
    assert KeepLocal(local, incoming, o, relation, false)[i] == KeptRow(l, incoming, o, false);
  }

  /** In every branch and option combination: the row a loaded key ends up with, if any, is the
      loaded row itself when the server did not send that key, else the sent row when that is
      adopted, else the merge of both. */
  lemma EveryLoadedRowIsAccountedFor(local: seq<Message>, incoming: seq<Message>, o: Options, l: Message, m: Message)
    requires DistinctKeys(local) && DistinctKeys(incoming) && l in local
    requires m in Merge(local, incoming, o) && Key(m) == Key(l)
    ensures Becomes(m, l, incoming, o, Adopts(l, local, incoming, o))
  {
    hide Key, KeepLocal, Authoritative, AppendNewer, TakeIncoming, KeepsLocal, Becomes, ChangedAfterRequest,
         DistinctKeys;
    var relation := RelationOf(local, incoming);
    if IsStale(o) {
      KeptWindowRow(local, incoming, o, relation, true, l, m);
    } else if incoming == [] {
      LoadedRow(local, incoming, o, l, m, Adopts(l, local, incoming, o));
    } else if o.authoritativeWindow {
      AuthoritativeRow(local, incoming, o, l, m);
    } else if NewerAppended(local, incoming, o).Some? {
      AppendedRow(local, incoming, o, relation, l, m);
    } else if KeepsLocal(local, incoming, o) {
      KeptWindowRow(local, incoming, o, relation, false, l, m);
    } else {
      TakenRow(local, incoming, o, RevisionChanged(o), l, m);
    }
  }

  lemma MergedTombstone(l: Message, i: Message, o: Options)
    ensures Tombstoned(MergedWithBaseline(l, i, o)) <==> Tombstoned(l) || Tombstoned(i)
  {
  }

  /** Exactly when a shared row is tombstoned after a merge, in every branch: when the server
      says so, or when it was so locally and the sent row is not adopted. Hence a local
      tombstone is replaced if and only if the server sends the row without one and it is
      adopted. */
  lemma SharedRowIsTombstonedIff(local: seq<Message>, incoming: seq<Message>, o: Options, l: Message, i: Message,
          m: Message)
    requires DistinctKeys(local) && DistinctKeys(incoming) && l in local && i in incoming
    requires m in Merge(local, incoming, o) && Key(m) == Key(l) == Key(i)
    ensures Tombstoned(m) <==> Tombstoned(i) || (Tombstoned(l) && !Adopts(l, local, incoming, o))
  {
    hide Key, Merge, Tombstoned, Adopts, MergedWithBaseline, DistinctKeys;
    EveryLoadedRowIsAccountedFor(local, incoming, o, l, m);
    MergedTombstone(l, i, o);
  }

  /** A recall or deletion made locally after the request, noted by a new revision, is undone
      by no response, whatever branch it takes. */
  lemma LocalTombstonesSurvive(local: seq<Message>, incoming: seq<Message>, o: Options)
    requires DistinctKeys(local) && DistinctKeys(incoming) && RevisionChanged(o)
    ensures forall l, m ::
      l in local && m in Merge(local, incoming, o) && Key(m) == Key(l) && Tombstoned(l) && ChangedAfterRequest(l, o) ==>
        Tombstoned(m)
  {
    hide Key, Merge, Tombstoned, ChangedAfterRequest, DistinctKeys;
    forall l, m |
      && l in local && m in Merge(local, incoming, o) && Key(m) == Key(l)
      && Tombstoned(l) && ChangedAfterRequest(l, o)
      ensures Tombstoned(m)
    {
      SurvivesHere(local, incoming, o, l, m);
    }
  }

  lemma SurvivesHere(local: seq<Message>, incoming: seq<Message>, o: Options, l: Message, m: Message)
    requires DistinctKeys(local) && DistinctKeys(incoming) && RevisionChanged(o)
    requires l in local && m in Merge(local, incoming, o) && Key(m) == Key(l)
    requires Tombstoned(l) && ChangedAfterRequest(l, o)
    ensures Tombstoned(m)
  {
    hide Key, Merge, Tombstoned, ChangedAfterRequest, DistinctKeys;
    if Key(l) in KeySet(incoming) {
      var i :| i in incoming && Key(i) == Key(l);
      SharedRowIsTombstonedIff(local, incoming, o, l, i, m);
    } else {
      EveryLoadedRowIsAccountedFor(local, incoming, o, l, m);
    }
  }
}
