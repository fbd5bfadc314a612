/** A response that a later request has overtaken only annotates the loaded window. */
module StaleResponses {
  import opened Basics
  import opened MessageWindow
  import opened Sequences

  lemma {:induction false} FilterAll<T(!new)>(s: seq<T>, p: T -> bool)
    requires forall x :: x in s ==> p(x)
    ensures Filter(s, p) == s
  {
    if s != [] {
      FilterAll(s[1..], p);
    }
  }

  ghost predicate DistinctIDs(s: seq<Attachment>) {
    forall i, j :: 0 <= i < j < |s| ==> s[i].id != s[j].id
  }

  /** No earlier attachment has its id. */
  predicate IsFirst(s: seq<Attachment>, x: nat)
    requires x < |s|
  {
    forall z :: 0 <= z < x ==> s[z].id != s[x].id
  }

  predicate Restricts(result: Field<bool>, local: Field<bool>, incoming: Field<bool>) {
    && (local.Value? && incoming.Value? ==> result == Value(local.value && incoming.value))
    && (local.Value? && !incoming.Value? ==> result == local)
    && (!local.Value? && incoming.Value? ==> result == incoming)
    && (!local.Value? && !incoming.Value? ==> Spread(result, incoming, local))
  }

  /** The later of two spread properties wins, unless it is missing. */
  predicate Spread<T(==)>(result: Field<T>, earlier: Field<T>, later: Field<T>) {
    (later == Absent ==> result == earlier) && (later != Absent ==> result == later)
  }

  /** Likewise for all other properties. */
  ghost predicate SpreadRest(result: map<string, string>, earlier: map<string, string>, later: map<string, string>) {
    && result.Keys == earlier.Keys + later.Keys
    && forall k :: k in result ==> result[k] == if k in later then later[k] else earlier[k]
  }

  /** Shared attachments are removed iff either side removed them, their permissions are the
      conjunction, and the rest of them is as loaded; the others are as sent. Of several
      loaded ones with one id the first counts. */
  ghost predicate Reconciled(result: seq<Attachment>, local: seq<Attachment>, incoming: seq<Attachment>) {
    && |result| == |incoming|
    && forall y :: 0 <= y < |incoming| ==>
      && result[y].id == incoming[y].id
      && ((forall a :: a in local ==> a.id != incoming[y].id) ==> result[y] == incoming[y])
      && forall x :: 0 <= x < |local| && local[x].id == incoming[y].id && IsFirst(local, x) ==>
        && (result[y].status == Value("removed") <==>
              local[x].status == Value("removed") || incoming[y].status == Value("removed"))
        && (result[y].status != Value("removed") ==> result[y].status == local[x].status)
        && SpreadRest(result[y].rest, incoming[y].rest, local[x].rest)
        && Restricts(result[y].canDownload, local[x].canDownload, incoming[y].canDownload)
        && Restricts(result[y].canPreview, local[x].canPreview, incoming[y].canPreview)
        && Restricts(result[y].canRemove, local[x].canRemove, incoming[y].canRemove)
  }

  lemma AttachmentsAreReconciled(local: seq<Attachment>, incoming: seq<Attachment>)
    ensures Reconciled(MergeAttachments(local, incoming), local, incoming)
  {
    hide Permission;
    forall x, y | 0 <= x < |local| && 0 <= y < |incoming| && local[x].id == incoming[y].id && IsFirst(local, x)
      ensures FirstWithID(local, incoming[y].id) == Some(local[x])
    {
      var first := FirstIsFirst(local, incoming[y].id);
    }
    PermissionRestricts();
  }

  lemma PermissionRestricts()
    ensures forall l, i :: Restricts(Permission(l, i), l, i)
  {
  }

  /** What a stale response does to a loaded row when it carries that row too; `baseline` is
      the row of that key the request started from. */
  ghost predicate Annotated(result: Message, local: Message, incoming: Message, baseline: Option<Message>) {
    var hiddenSince := baseline == None || (local.hidden == Value(true)) != (baseline.value.hidden == Value(true));
    && Key(result) == Key(local)
    && result.id == (if Tombstoned(incoming) then incoming.id else local.id)
    && (Tombstoned(result) <==> Tombstoned(local) || Tombstoned(incoming))
    && (local.attachments.Value? && incoming.attachments.Value? ==>
          && result.attachments.Value?
          && Reconciled(result.attachments.value, local.attachments.value, incoming.attachments.value))
    && (!Tombstoned(incoming) ==>
          && result.createdAt == local.createdAt && result.rest == local.rest
          && result.recalledAt == local.recalledAt && result.deletedAt == local.deletedAt
          && result.clientMessageId == local.clientMessageId
          && (!incoming.attachments.Value? ==> result.attachments == local.attachments))
    // a tombstone brings its content with it
    && (Tombstoned(incoming) ==>
          && Spread(result.createdAt, local.createdAt, incoming.createdAt)
          && Spread(result.recalledAt, local.recalledAt, incoming.recalledAt)
          && Spread(result.deletedAt, local.deletedAt, incoming.deletedAt)
          && Spread(result.clientMessageId, local.clientMessageId, incoming.clientMessageId)
          && SpreadRest(result.rest, local.rest, incoming.rest)
          && (!local.attachments.Value? || !incoming.attachments.Value? ==>
                Spread(result.attachments, local.attachments, incoming.attachments)))
    // hiding or unhiding a row since the request wins over the server's view of it
    && (hiddenSince || !incoming.hidden.Value? ==> result.hidden == local.hidden)
    && (!hiddenSince && incoming.hidden.Value? ==> result.hidden == incoming.hidden)
  }

  lemma MergedRowIsAnnotated(local: Message, incoming: Message, baseline: Option<Message>)
    requires Key(local) == Key(incoming)
    ensures Annotated(MergePreserved(local, incoming, baseline), local, incoming, baseline)
  {
    hide MergeAttachments, Reconciled;
    MergeKeepsKey(local, incoming, baseline);
    if local.attachments.Value? && incoming.attachments.Value? {
      AttachmentsAreReconciled(local.attachments.value, incoming.attachments.value);
    }
  }

  lemma StaleMergeIsRowByRow(local: seq<Message>, incoming: seq<Message>, o: Options)
    requires !IsCurrent(o)
    ensures Merge(local, incoming, o) == Map(local, row => KeptRow(row, incoming, o, true))
  {
    hide KeptRow, RelationOf, KeySet, Key;
    FilterAll(local, row => Retained(row, incoming, o, true));
  }

  /** A stale response keeps exactly the loaded keys in order; a row it does not carry is
      untouched, and a row it carries is annotated. */
  lemma StaleResponseKeepsTheWindow(local: seq<Message>, incoming: seq<Message>, o: Options)
    requires !IsCurrent(o) && DistinctKeys(incoming)
    ensures |Merge(local, incoming, o)| == |local|
    ensures forall i :: 0 <= i < |local| ==>
      && Key(Merge(local, incoming, o)[i]) == Key(local[i])
      && (Key(local[i]) !in KeySet(incoming) ==> Merge(local, incoming, o)[i] == local[i])
    ensures forall i, j :: 0 <= i < |local| && 0 <= j < |incoming| && Key(local[i]) == Key(incoming[j]) ==>
      Annotated(Merge(local, incoming, o)[i], local[i], incoming[j], Lookup(ByKey(Baseline(o)), Key(local[i])))
  {
    hide Key, MergePreserved, Merge, Annotated;
    StaleMergeIsRowByRow(local, incoming, o);
    var byKey := ByKey(incoming);
    forall i | 0 <= i < |local|
      ensures Key(Merge(local, incoming, o)[i]) == Key(local[i])
      ensures forall j :: 0 <= j < |incoming| && Key(local[i]) == Key(incoming[j]) ==>
        Annotated(Merge(local, incoming, o)[i], local[i], incoming[j], Lookup(ByKey(Baseline(o)), Key(local[i])))
    {
      if Key(local[i]) in byKey {
        var baseline := Lookup(ByKey(Baseline(o)), Key(local[i]));
        MergeKeepsKey(local[i], byKey[Key(local[i])], baseline);
        MergedRowIsAnnotated(local[i], byKey[Key(local[i])], baseline);
      }
    }
  }

  // ----- applying a stale response twice -----

  /** A permission that the earlier one with the same id cannot take back. */
  predicate CarriesPermission(f: Field<bool>, y: Field<bool>) {
    if f.Value? then y.Value? && (y.value ==> f.value) else y.Value? || f == Absent || f == y
  }

  /** The later attachment already carries what the first one with its id imposes: its
      removal, its status, its permissions and its other properties. */
  predicate Carries(f: Attachment, y: Attachment) {
    && f.id == y.id
    && (f.status == Value("removed") ==> y.status == Value("removed"))
    && (y.status == f.status || y.status == Value("removed"))
    && CarriesPermission(f.canDownload, y.canDownload)
    && CarriesPermission(f.canPreview, y.canPreview)
    && CarriesPermission(f.canRemove, y.canRemove)
    && forall k :: k in f.rest ==> k in y.rest && y.rest[k] == f.rest[k]
  }

  /** Every later attachment that repeats an id carries what the first with that id imposes. */
  predicate Settled(s: seq<Attachment>) {
    forall x, y :: 0 <= x < y < |s| && s[x].id == s[y].id && IsFirst(s, x) ==> Carries(s[x], s[y])
  }

  lemma CarriesMeansUnchanged(f: Attachment, y: Attachment)
    ensures MergeAttachment(f, y) == y <==> Carries(f, y)
  {
    if Carries(f, y) {
      assert y.rest + f.rest == y.rest;
    }
  }

  /** Merging the attachment list with itself changes nothing. */
  ghost predicate SelfMerging(s: seq<Attachment>) {
    forall y :: 0 <= y < |s| ==> MergedView(s, s[y]) == s[y]
  }

  lemma {:induction false} FirstIsFirst(s: seq<Attachment>, id: string) returns (x: nat)
    requires exists a :: a in s && a.id == id
    ensures x < |s| && s[x].id == id && IsFirst(s, x) && FirstWithID(s, id) == Some(s[x])
  {
    if s[0].id == id {
      x := 0;
    } else {
      assert forall a :: a in s <==> a == s[0] || a in s[1..];
      var rest := FirstIsFirst(s[1..], id);
      x := rest + 1;
      assert forall z :: 0 < z < x ==> s[z] == s[1..][z - 1];
    }
  }

  lemma SettledMeansSelfMerging(s: seq<Attachment>)
    ensures Settled(s) <==> SelfMerging(s)
  {
    hide MergeAttachment, Carries;
    forall y | 0 <= y < |s|
      ensures Settled(s) ==> MergedView(s, s[y]) == s[y]
      ensures SelfMerging(s) ==> forall x :: 0 <= x < y && s[x].id == s[y].id && IsFirst(s, x) ==> Carries(s[x], s[y])
    {
      assert s[y] in s;
      var x := FirstIsFirst(s, s[y].id);
      CarriesMeansUnchanged(s[x], s[y]);
      SelfMerge(s[y]);
      assert x <= y && forall z :: 0 <= z < y && s[z].id == s[y].id && IsFirst(s, z) ==> z == x;
    }
  }

  lemma SelfMerge(a: Attachment)
    ensures MergeAttachment(a, a) == a
  {
    assert a.rest + a.rest == a.rest;
  }

  lemma DistinctIDsAreSettled(s: seq<Attachment>)
    requires DistinctIDs(s)
    ensures Settled(s)
  {
    hide Carries;
  }

  lemma PermissionTwice(l: Field<bool>, f: Field<bool>, y: Field<bool>)
    requires Permission(f, y) == y
    ensures Permission(Permission(l, f), y) == Permission(l, y)
  {
  }

  lemma MergeTwice(l: Attachment, f: Attachment, y: Attachment)
    requires MergeAttachment(f, y) == y
    ensures MergeAttachment(MergeAttachment(l, f), y) == MergeAttachment(l, y)
  {
    hide Permission;
    PermissionTwice(l.canDownload, f.canDownload, y.canDownload);
    PermissionTwice(l.canPreview, f.canPreview, y.canPreview);
    PermissionTwice(l.canRemove, f.canRemove, y.canRemove);
    assert y.rest + (f.rest + l.rest) == (y.rest + f.rest) + l.rest;
  }

  lemma {:induction false} FirstMerged(local: seq<Attachment>, incoming: seq<Attachment>, id: string)
    ensures FirstWithID(MergeAttachments(local, incoming), id) ==
      match FirstWithID(incoming, id)
      case None => None
      case Some(a) => Some(MergedView(local, a))
  {
    hide MergeAttachment;
    if incoming != [] {
      FirstMerged(local, incoming[1..], id);
      assert MergeAttachments(local, incoming)[1..] == MergeAttachments(local, incoming[1..]);
      assert MergedView(local, incoming[0]).id == incoming[0].id by {
        ViewKeepsID(local, incoming[0]);
      }
    }
  }

  lemma ViewKeepsID(local: seq<Attachment>, a: Attachment)
    ensures MergedView(local, a).id == a.id
  {
  }

  /** Merging the sent attachments a second time changes nothing, whatever the local ones,
      if and only if the sent list is settled. */
  lemma AttachmentsSettleIff(incoming: seq<Attachment>)
    ensures Settled(incoming) <==>
      forall local :: MergeAttachments(MergeAttachments(local, incoming), incoming) == MergeAttachments(local, incoming)
  {
    if Settled(incoming) {
      forall local
        ensures MergeAttachments(MergeAttachments(local, incoming), incoming) == MergeAttachments(local, incoming)
      {
        SettledAttachmentsMergeOnce(local, incoming);
      }
    } else {
      NothingLocal(incoming);
      assert MergeAttachments(MergeAttachments([], incoming), incoming) != MergeAttachments([], incoming);
    }
  }

  lemma NothingLocal(incoming: seq<Attachment>)
    ensures MergeAttachments([], incoming) == incoming
    ensures MergeAttachments(incoming, incoming) == incoming <==> Settled(incoming)
  {
    hide Settled, MergedView;
    SettledMeansSelfMerging(incoming);
    assert MergeAttachments([], incoming) == incoming by { NothingToMerge(incoming); }
  }

  lemma NothingToMerge(incoming: seq<Attachment>)
    ensures MergeAttachments([], incoming) == incoming
  {
  }

  lemma SettledAttachmentsMergeOnce(local: seq<Attachment>, incoming: seq<Attachment>)
    requires Settled(incoming)
    ensures MergeAttachments(MergeAttachments(local, incoming), incoming) == MergeAttachments(local, incoming)
  {
    hide MergeAttachment, Settled;
    SettledMeansSelfMerging(incoming);
    var merged := MergeAttachments(local, incoming);
    forall y | 0 <= y < |incoming|
      ensures MergedView(merged, incoming[y]) == MergedView(local, incoming[y])
    {
      var a := incoming[y];
      FirstMerged(local, incoming, a.id);
      var first := FirstWithID(incoming, a.id);
      assert first.Some? && MergedView(incoming, a) == MergeAttachment(first.value, a);
      match FirstWithID(local, a.id)
      case None =>
      case Some(l) => MergeTwice(l, first.value, a);
    }
  }

  lemma RowsMergeOnce(l: Message, i: Message, baseline: Option<Message>)
    requires i.attachments.Value? ==> Settled(i.attachments.value)
    ensures var m := MergePreserved(l, i, baseline); MergePreserved(m, i, baseline) == m
  {
    hide MergeAttachments, Settled;
    if i.attachments.Value? {
      NothingLocal(i.attachments.value);
      if l.attachments.Value? {
        SettledAttachmentsMergeOnce(l.attachments.value, i.attachments.value);
      }
    }
    assert (l.rest + i.rest) + i.rest == l.rest + i.rest;
  }

  ghost predicate AllSettled(incoming: seq<Message>) {
    forall i :: i in incoming && i.attachments.Value? ==> Settled(i.attachments.value)
  }

  lemma SettledResponsesApplyOnce(local: seq<Message>, incoming: seq<Message>, o: Options)
    requires !IsCurrent(o) && AllSettled(incoming)
    ensures Merge(Merge(local, incoming, o), incoming, o) == Merge(local, incoming, o)
  {
    hide Key, MergePreserved, Merge, Settled;
    var once := Merge(local, incoming, o);
    StaleMergeIsRowByRow(local, incoming, o);
    StaleMergeIsRowByRow(once, incoming, o);
    var byKey := ByKey(incoming);
    forall i | 0 <= i < |local|
      ensures KeptRow(once[i], incoming, o, true) == once[i]
    {
      if Key(local[i]) in byKey {
        var baseline := Lookup(ByKey(Baseline(o)), Key(local[i]));
        MergeKeepsKey(local[i], byKey[Key(local[i])], baseline);
        RowsMergeOnce(local[i], byKey[Key(local[i])], baseline);
      }
    }
  }

  lemma UnsettledResponseShows(incoming: seq<Message>, o: Options, i: Message) returns (local: seq<Message>)
    requires !IsCurrent(o) && DistinctKeys(incoming)
    requires i in incoming && i.attachments.Value? && !Settled(i.attachments.value)
    ensures Merge(Merge(local, incoming, o), incoming, o) != Merge(local, incoming, o)
  {
    hide Key, MergePreserved, Merge, Settled;
    var l := i.(attachments := Value([]));
    local := [l];
    assert Key(l) == Key(i) by { OnlyAttachmentsDiffer(i); }
    var once := Merge(local, incoming, o);
    StaleMergeIsRowByRow(local, incoming, o);
    StaleMergeIsRowByRow(once, incoming, o);
    assert ByKey(incoming)[Key(i)] == i;
    var baseline := Lookup(ByKey(Baseline(o)), Key(i));
    MergeKeepsKey(l, i, baseline);
    assert once[0] == MergePreserved(l, i, baseline);
    assert Merge(once, incoming, o)[0] == MergePreserved(once[0], i, baseline);
    UnsettledRow(l, i, baseline);
  }

  lemma OnlyAttachmentsDiffer(i: Message)
    ensures Key(i.(attachments := Value([]))) == Key(i)
  {
  }

  lemma UnsettledRow(l: Message, i: Message, baseline: Option<Message>)
    requires l.attachments == Value([]) && i.attachments.Value? && !Settled(i.attachments.value)
    ensures var m := MergePreserved(l, i, baseline); MergePreserved(m, i, baseline) != m
  {
    hide MergeAttachments, Settled;
    NothingLocal(i.attachments.value);
  }

  /** Applying one stale response twice equals applying it once, for every loaded window, if
      and only if the attachment lists it carries are settled; distinct ids are enough. */
  lemma StaleResponseAppliesOnceIff(incoming: seq<Message>, o: Options)
    requires !IsCurrent(o) && DistinctKeys(incoming)
    ensures AllSettled(incoming) <==>
      forall local :: Merge(Merge(local, incoming, o), incoming, o) == Merge(local, incoming, o)
  {
    hide Merge, Settled, DistinctKeys;
    if AllSettled(incoming) {
      forall local
        ensures Merge(Merge(local, incoming, o), incoming, o) == Merge(local, incoming, o)
      {
        SettledResponsesApplyOnce(local, incoming, o);
      }
    } else {
      var i :| i in incoming && i.attachments.Value? && !Settled(i.attachments.value);
      var local := UnsettledResponseShows(incoming, o, i);
    }
  }

  /** A response that repeats an attachment id can change a row again. */
  lemma RepeatedAttachmentIDIsNotSettled()
    ensures
      var first := Attachment("a", Absent, Value(false), Absent, Absent, map[]);
      var second := Attachment("a", Absent, Value(true), Absent, Absent, map[]);
      !Settled([first, second]) && !DistinctIDs([first, second])
  {
    var first := Attachment("a", Absent, Value(false), Absent, Absent, map[]);
    var second := Attachment("a", Absent, Value(true), Absent, Absent, map[]);
    var both := [first, second];
    assert IsFirst(both, 0) && both[0].id == both[1].id && !Carries(both[0], both[1]);
  }
}
