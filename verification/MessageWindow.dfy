/** Reconciling the loaded message window with a server window and the window as it was
    when the request was made. */
module MessageWindow {
  import opened Basics
  import opened Sequences

  /** An object property: missing (or undefined), null, or a value. */
  datatype Field<+T> = Absent | Null | Value(value: T)

  /** A timestamp and what Date.parse makes of it; None is NaN. */
  datatype Stamp = Stamp(text: string, time: Option<int>)

  datatype Attachment = Attachment(
    id: string, status: Field<string>, canDownload: Field<bool>, canPreview: Field<bool>, canRemove: Field<bool>,
    rest: map<string, string>)

  /** A row. `ref` is the identity of the object; None is an object built by a merge,
      which is no row of any request baseline. */
  datatype Message = Message(
    ref: Option<nat>, id: string, clientMessageId: Field<string>, createdAt: Field<Stamp>,
    recalledAt: Field<string>, deletedAt: Field<string>, hidden: Field<bool>,
    attachments: Field<seq<Attachment>>, rest: map<string, string>)

  datatype Options = Options(
    baseline: Option<seq<Message>>, requestRevision: Option<int>, currentRevision: Option<int>,
    requestGeneration: Option<int>, latestGeneration: Option<int>, preserveLoadedHistory: Option<bool>,
    authoritativeWindow: bool, preservePostRequest: Option<bool>, preserveOlderReadingHistory: bool)

  // ----- rows -----

  function Over<T>(base: Field<T>, top: Field<T>): (r: Field<T>) {
    if top == Absent then base else top
  }

  predicate Truthy(f: Field<string>) {
    f.Value? && f.value != ""
  }

  function Key(m: Message): (k: string) {
    if m.id != "" then m.id else if Truthy(m.clientMessageId) then "client:" + m.clientMessageId.value else ""
  }

  /** Date.parse(createdAt ?? ""). */
  function Time(m: Message): (t: Option<int>) {
    if m.createdAt.Value? then m.createdAt.value.time else None
  }

  predicate Before(a: Option<int>, b: Option<int>) {
    a.Some? && b.Some? && a.value < b.value
  }

  predicate AtLeast(a: Option<int>, b: Option<int>) {
    a.Some? && b.Some? && a.value >= b.value
  }

  predicate Tombstoned(m: Message) {
    Truthy(m.recalledAt) || Truthy(m.deletedAt)
  }

  predicate SameObject(a: Message, b: Message) {
    a.ref.Some? && a.ref == b.ref
  }

  function KeySet(s: seq<Message>): (r: set<string>)
    ensures forall k :: k in r <==> exists i :: 0 <= i < |s| && Key(s[i]) == k
  {
    set m | m in s :: Key(m)
  }

  /** new Map of the rows by key: of rows with one key, the last. */
  function ByKey(s: seq<Message>): (r: map<string, Message>)
    ensures r.Keys == KeySet(s)
    ensures forall k :: k in r ==> r[k] in s && Key(r[k]) == k
  {
    if s == [] then map[] else
      var last := s[|s| - 1];
      assert s == s[..|s| - 1] + [last];
      ByKey(s[..|s| - 1])[Key(last) := last]
  }

  function Indexes(s: seq<Message>): (r: map<string, nat>)
    ensures r.Keys == KeySet(s)
    ensures forall k :: k in r ==> r[k] < |s| && Key(s[r[k]]) == k
  {
    if s == [] then map[] else
      var last := s[|s| - 1];
      assert s == s[..|s| - 1] + [last];
      Indexes(s[..|s| - 1])[Key(last) := |s| - 1]
  }

  // ----- attachments -----

  function FirstWithID(s: seq<Attachment>, id: string): (r: Option<Attachment>)
    ensures r.Some? ==> r.value in s && r.value.id == id
    ensures r.None? ==> forall a :: a in s ==> a.id != id
  {
    if s == [] then None else if s[0].id == id then Some(s[0]) else FirstWithID(s[1..], id)
  }

  function Permission(local: Field<bool>, incoming: Field<bool>): (r: Field<bool>) {
    if local.Value? && incoming.Value? then Value(local.value && incoming.value)
    else if incoming.Value? then incoming
    else if local.Value? then local
    else Over(incoming, local)
  }

  function MergeAttachment(local: Attachment, incoming: Attachment): (r: Attachment) {
    Attachment(
      local.id,
      if local.status == Value("removed") || incoming.status == Value("removed") then Value("removed")
      else local.status,
      Permission(local.canDownload, incoming.canDownload),
      Permission(local.canPreview, incoming.canPreview),
      Permission(local.canRemove, incoming.canRemove),
      incoming.rest + local.rest)
  }

  function MergedView(local: seq<Attachment>, incoming: Attachment): (r: Attachment) {
    match FirstWithID(local, incoming.id)
    case None => incoming
    case Some(a) => MergeAttachment(a, incoming)
  }

  function MergeAttachments(local: seq<Attachment>, incoming: seq<Attachment>): (r: seq<Attachment>)
    ensures |r| == |incoming| && forall i :: 0 <= i < |r| ==> r[i].id == incoming[i].id
  {
    Map(incoming, a => MergedView(local, a))
  }

  // ----- one row -----

  function MergedHidden(local: Message, incoming: Message, baseline: Option<Message>): (r: Field<bool>) {
    var localHidden := local.hidden == Value(true);
    if baseline == None || localHidden != (baseline.value.hidden == Value(true)) then local.hidden
    else if incoming.hidden.Value? then incoming.hidden
    else local.hidden
  }

  function MergePreserved(local: Message, incoming: Message, baseline: Option<Message>): (r: Message) {
    var hidden := MergedHidden(local, incoming, baseline);
    var next :=
      if Tombstoned(incoming) then
        Message(
          None, incoming.id, Over(local.clientMessageId, incoming.clientMessageId),
          Over(local.createdAt, incoming.createdAt), Over(local.recalledAt, incoming.recalledAt),
          Over(local.deletedAt, incoming.deletedAt), hidden, Over(local.attachments, incoming.attachments),
          local.rest + incoming.rest)
      else local.(ref := None, hidden := hidden);
    if local.attachments.Value? && incoming.attachments.Value? then
      next.(attachments := Value(MergeAttachments(local.attachments.value, incoming.attachments.value)))
    else next
  }

  // ----- windows -----

  datatype Relation = IncomingOlder | IncomingNewer | IncomingContained | IncomingContains | Overlap | Disjoint

  function RelationOf(local: seq<Message>, incoming: seq<Message>): (r: Relation)
    ensures r == IncomingNewer ==> |local| > 0
  {
    if local == [] || incoming == [] then Disjoint
    else
      var localIndexes, incomingIndexes := Indexes(local), Indexes(incoming);
      var common := Filter(Map(incoming, Key), k => k != "" && k in localIndexes);
      var incomingLast, localLast := Key(incoming[|incoming| - 1]), Key(local[|local| - 1]);
      if common == [] then Disjoint
      else if incomingLast in localIndexes && localIndexes[incomingLast] < |local| - 1 then IncomingOlder
      else if localLast in incomingIndexes && incomingIndexes[localLast] < |incoming| - 1 then IncomingNewer
      else if |local| > |incoming| && |common| == |incoming| then IncomingContained
      else if |incoming| > |local| && |common| == |local| then IncomingContains
      else Overlap
  }

  function Baseline(o: Options): (r: seq<Message>) {
    if o.baseline.Some? then o.baseline.value else []
  }

  function Lookup(m: map<string, Message>, key: string): (r: Option<Message>) {
    if key in m then Some(m[key]) else None
  }

  /** The row is not the very object the request started from. */
  predicate ChangedAfterRequest(row: Message, o: Options) {
    var baseline := ByKey(Baseline(o));
    o.baseline == None || Key(row) !in baseline || !SameObject(baseline[Key(row)], row)
  }

  predicate PreservesLoadedHistory(o: Options) {
    o.preserveLoadedHistory != Some(false)
  }

  predicate Retained(row: Message, incoming: seq<Message>, o: Options, keepAll: bool) {
    Key(row) in KeySet(incoming) || keepAll || o.baseline == None || Key(row) !in KeySet(Baseline(o))
  }

  function KeptRow(row: Message, incoming: seq<Message>, o: Options, preserveAllLocal: bool): (r: Message) {
    var byKey := ByKey(incoming);
    if Key(row) !in byKey then row
    else if preserveAllLocal || ChangedAfterRequest(row, o) then
      MergePreserved(row, byKey[Key(row)], Lookup(ByKey(Baseline(o)), Key(row)))
    else byKey[Key(row)]
  }

  /** mergeKeepingLocalWindow. */
  function KeepLocal(local: seq<Message>, incoming: seq<Message>, o: Options, relation: Relation,
          preserveAllLocal: bool): (r: seq<Message>) {
    var keepAll := preserveAllLocal || (PreservesLoadedHistory(o) && |local| > |incoming| && relation != Disjoint);
    Map(Filter(local, row => Retained(row, incoming, o, keepAll)), row => KeptRow(row, incoming, o, preserveAllLocal))
  }

  function RowsMissing(rows: seq<Message>, merged: seq<Message>): (r: seq<Message>) {
    Filter(rows, m => Key(m) !in KeySet(merged))
  }

  /** mergeLoadedHistoryWithNewerWindow; None is null. */
  function AppendNewer(local: seq<Message>, incoming: seq<Message>, o: Options,
          relation: Relation): (r: Option<seq<Message>>)
    requires |local| > 0
  {
    var incomingIndexes := Indexes(incoming);
    var localLast := Key(local[|local| - 1]);
    if localLast !in incomingIndexes then None
    else
      var at := incomingIndexes[localLast];
      if exists m :: m in incoming[..at + 1] && Key(m) !in KeySet(local) then None
      else
        var merged := KeepLocal(local, incoming, o, relation, false);
        Some(merged + RowsMissing(incoming[at + 1..], merged))
  }

  function IncomingRow(row: Message, local: seq<Message>, o: Options): (r: Message) {
    var byKey := ByKey(local);
    if Key(row) !in byKey then row
    else if ChangedAfterRequest(byKey[Key(row)], o) then
      MergePreserved(byKey[Key(row)], row, Lookup(ByKey(Baseline(o)), Key(row)))
    else row
  }

  /** mergeIncomingWindow. */
  function TakeIncoming(local: seq<Message>, incoming: seq<Message>, o: Options,
          preserveChanged: bool): (r: seq<Message>) {
    if !preserveChanged then incoming else Map(incoming, row => IncomingRow(row, local, o))
  }

  /** preservePostRequestMessages. */
  function NotInBaseline(local: seq<Message>, o: Options): (r: seq<Message>) {
    Filter(local, m => Key(m) !in KeySet(Baseline(o)))
  }

  predicate IsNew(m: Message, incoming: seq<Message>, o: Options) {
    Key(m) !in KeySet(Baseline(o)) && Key(m) !in KeySet(incoming)
  }

  function RowsBehind(local: seq<Message>, from: nat, incoming: seq<Message>, o: Options): (r: seq<Message>)
    requires from <= |local|
  {
    Filter(local[from..], m => IsNew(m, incoming, o))
  }

  function RowsNotOlder(local: seq<Message>, time: Option<int>, incoming: seq<Message>, o: Options): (r: seq<Message>) {
    Filter(local, m => IsNew(m, incoming, o) && AtLeast(Time(m), time))
  }

  /** The rows appendPostRequestMessages adds: those behind the server's last row, or, when
      that row is not loaded, those not older than it. */
  function PostRequest(local: seq<Message>, incoming: seq<Message>, o: Options): (r: seq<Message>)
    requires |incoming| > 0
  {
    var localIndexes := Indexes(local);
    var last := incoming[|incoming| - 1];
    if Key(last) in localIndexes then RowsBehind(local, localIndexes[Key(last)] + 1, incoming, o)
    else RowsNotOlder(local, Time(last), incoming, o)
  }

  predicate IsStale(o: Options) {
    o.requestGeneration.Some? && o.latestGeneration.Some? && o.latestGeneration.value > o.requestGeneration.value
  }

  predicate RevisionChanged(o: Options) {
    o.requestRevision.Some? && o.currentRevision.Some? && o.currentRevision != o.requestRevision
  }

  predicate PreservesPostRequest(o: Options) {
    if o.preservePostRequest.Some? then o.preservePostRequest.value else !o.authoritativeWindow
  }

  function LatestWindow(local: seq<Message>, incoming: seq<Message>, o: Options): (r: seq<Message>)
    requires |incoming| > 0
  {
    var merged := TakeIncoming(local, incoming, o, RevisionChanged(o));
    if RevisionChanged(o) && PreservesPostRequest(o) then merged + PostRequest(local, incoming, o) else merged
  }

  function OlderHistory(local: seq<Message>, incoming: seq<Message>, latest: seq<Message>): (r: seq<Message>)
    requires |incoming| > 0
  {
    Filter(local, m => Key(m) !in KeySet(latest) && Before(Time(m), Time(incoming[0])))
  }

  function Authoritative(local: seq<Message>, incoming: seq<Message>, o: Options): (r: seq<Message>)
    requires |incoming| > 0
  {
    var latest := LatestWindow(local, incoming, o);
    if o.preserveOlderReadingHistory then OlderHistory(local, incoming, latest) + latest else latest
  }

  predicate KeepsLocal(local: seq<Message>, incoming: seq<Message>, o: Options) {
    var relation := RelationOf(local, incoming);
    || relation == IncomingOlder
    || (relation == IncomingContained && PreservesLoadedHistory(o))
    || (PreservesLoadedHistory(o) && |local| > |incoming| && relation != Disjoint)
  }

  function NewerAppended(local: seq<Message>, incoming: seq<Message>, o: Options): (r: Option<seq<Message>>) {
    var relation := RelationOf(local, incoming);
    if relation == IncomingNewer && PreservesLoadedHistory(o) && |local| > |incoming| then
      AppendNewer(local, incoming, o, relation)
    else None
  }

  function Refreshed(local: seq<Message>, incoming: seq<Message>, o: Options): (r: seq<Message>) {
    var relation := RelationOf(local, incoming);
    var appended := NewerAppended(local, incoming, o);
    if appended.Some? then appended.value
    else if KeepsLocal(local, incoming, o) then KeepLocal(local, incoming, o, relation, false)
    else TakeIncoming(local, incoming, o, RevisionChanged(o))
  }

  /** mergeWorkspaceMessageWindow. */
  function Merge(local: seq<Message>, incoming: seq<Message>, o: Options): (r: seq<Message>) {
    if IsStale(o) then KeepLocal(local, incoming, o, RelationOf(local, incoming), true)
    else if incoming == [] then
      if RevisionChanged(o) && PreservesPostRequest(o) then NotInBaseline(local, o) else []
    else if local == [] then incoming
    else if o.authoritativeWindow then Authoritative(local, incoming, o)
    else Refreshed(local, incoming, o)
  }

  // ----- what the options say -----

  /** The answer belongs to the latest request. */
  ghost predicate IsCurrent(o: Options) {
    o.requestGeneration.Some? && o.latestGeneration.Some? ==> o.requestGeneration.value >= o.latestGeneration.value
  }

  /** The local revision moved on while the request was under way. */
  ghost predicate LocallyChanged(o: Options) {
    o.requestRevision.Some? && o.currentRevision.Some? && o.requestRevision.value != o.currentRevision.value
  }

  /** Rows that came up since the request are wanted: as asked, else unless the window is
      authoritative. */
  ghost predicate WantsNewRows(o: Options) {
    o.preservePostRequest == Some(true) || (o.preservePostRequest == None && !o.authoritativeWindow)
  }

  lemma OptionsMean(o: Options)
    ensures IsStale(o) <==> !IsCurrent(o)
    ensures RevisionChanged(o) <==> LocallyChanged(o)
    ensures PreservesPostRequest(o) <==> WantsNewRows(o)
  {
  }

  /** When two rows are taken for one message: their ids are equal, or neither has an id and
      their client ids are equal (an empty one is none), or the id of one spells out the
      client id of the other. */
  lemma SameKeyIff(a: Message, b: Message)
    ensures Key(a) == Key(b) <==>
      if a.id != "" && b.id != "" then a.id == b.id
      else if a.id != "" then ClientID(b) != "" && a.id == "client:" + ClientID(b)
      else if b.id != "" then ClientID(a) != "" && b.id == "client:" + ClientID(a)
      else ClientID(a) == ClientID(b)
  {
    if a.id == "" && b.id == "" && Key(a) == Key(b) && Truthy(a.clientMessageId) && Truthy(b.clientMessageId) {
      assert Key(a)[|"client:"|..] == a.clientMessageId.value;
      assert Key(b)[|"client:"|..] == b.clientMessageId.value;
    }
  }

  function ClientID(m: Message): (id: string) {
    match m.clientMessageId
    case Value(id) => id
    case Absent => ""
    case Null => ""
  }

  // ----- distinct keys -----

  ghost predicate DistinctKeys(s: seq<Message>) {
    DistinctBy(s, Key)
  }

  lemma MapKeepsKeys(s: seq<Message>, f: Message -> Message)
    requires forall m :: m in s ==> Key(f(m)) == Key(m)
    ensures Map(Map(s, f), Key) == Map(s, Key)
  {
  }

  lemma SameKeys(a: seq<Message>, b: seq<Message>)
    requires Map(a, Key) == Map(b, Key)
    ensures KeySet(a) == KeySet(b) && (DistinctKeys(a) <==> DistinctKeys(b))
  {
    assert forall i :: 0 <= i < |a| ==> Key(a[i]) == Map(a, Key)[i];
    assert forall i :: 0 <= i < |b| ==> Key(b[i]) == Map(b, Key)[i];
  }

  lemma ConcatKeepsDistinctKeys(a: seq<Message>, b: seq<Message>)
    requires DistinctKeys(a) && DistinctKeys(b) && KeySet(a) !! KeySet(b)
    ensures DistinctKeys(a + b) && KeySet(a + b) == KeySet(a) + KeySet(b)
  {
    assert forall i :: 0 <= i < |a| ==> Key(a[i]) in KeySet(a);
    assert forall i :: 0 <= i < |b| ==> Key(b[i]) in KeySet(b);
    forall k | k in KeySet(a) + KeySet(b)
      ensures k in KeySet(a + b)
    {
      var m :| m in (if k in KeySet(a) then a else b) && Key(m) == k;
      assert m in a + b;
    }
  }

  /** A merged row keeps the key its two sides share. */
  lemma MergeKeepsKey(local: Message, incoming: Message, baseline: Option<Message>)
    requires Key(local) == Key(incoming)
    ensures Key(MergePreserved(local, incoming, baseline)) == Key(local)
  {
  }

  lemma FilteredKeys(s: seq<Message>, p: Message -> bool)
    ensures KeySet(Filter(s, p)) <= KeySet(s)
  {
    forall k | k in KeySet(Filter(s, p))
      ensures k in KeySet(s)
    {
      var m :| m in Filter(s, p) && Key(m) == k;
      assert m in s;
    }
  }

  // ----- where the rows of a result come from -----

  predicate IsMergeOf(m: Message, l: Message, i: Message, o: Options) {
    Key(l) == Key(i) && m == MergePreserved(l, i, Lookup(ByKey(Baseline(o)), Key(l)))
  }

  ghost predicate Sourced(m: Message, local: seq<Message>, incoming: seq<Message>, o: Options) {
    || (m in local && Key(m) !in KeySet(incoming))
    || m in incoming
    || exists l, i :: l in local && i in incoming && IsMergeOf(m, l, i, o)
  }

  ghost predicate AllSourced(r: seq<Message>, local: seq<Message>, incoming: seq<Message>, o: Options) {
    forall m :: m in r ==> Sourced(m, local, incoming, o)
  }

  lemma KeptRowSourced(row: Message, local: seq<Message>, incoming: seq<Message>, o: Options, all: bool)
    requires row in local
    ensures Sourced(KeptRow(row, incoming, o, all), local, incoming, o)
    ensures Key(KeptRow(row, incoming, o, all)) == Key(row)
  {
    var byKey := ByKey(incoming);
    if Key(row) in byKey {
      var sent, baseline := byKey[Key(row)], Lookup(ByKey(Baseline(o)), Key(row));
      MergeKeepsKey(row, sent, baseline);
      assert IsMergeOf(MergePreserved(row, sent, baseline), row, sent, o);
    }
  }

  lemma IncomingRowSourced(row: Message, local: seq<Message>, incoming: seq<Message>, o: Options)
    requires row in incoming
    ensures Sourced(IncomingRow(row, local, o), local, incoming, o)
    ensures Key(IncomingRow(row, local, o)) == Key(row)
  {
    var byKey := ByKey(local);
    if Key(row) in byKey {
      var loaded, baseline := byKey[Key(row)], Lookup(ByKey(Baseline(o)), Key(row));
      MergeKeepsKey(loaded, row, baseline);
      assert IsMergeOf(MergePreserved(loaded, row, baseline), loaded, row, o);
    }
  }

  lemma KeepLocalRows(local: seq<Message>, incoming: seq<Message>, o: Options, relation: Relation, all: bool)
    ensures var r := KeepLocal(local, incoming, o, relation, all);
      AllSourced(r, local, incoming, o) && KeySet(r) <= KeySet(local) && (DistinctKeys(local) ==> DistinctKeys(r))
  {
    hide KeptRow, Sourced, Retained, IsMergeOf, Key;
    var keepAll := all || (PreservesLoadedHistory(o) && |local| > |incoming| && relation != Disjoint);
    var p := row => Retained(row, incoming, o, keepAll);
    var f := row => KeptRow(row, incoming, o, all);
    var kept := Filter(local, p);
    forall m | m in kept
      ensures Sourced(f(m), local, incoming, o) && Key(f(m)) == Key(m)
    {
      KeptRowSourced(m, local, incoming, o, all);
    }
    FilteredKeys(local, p);
    MapKeepsKeys(kept, f);
    SameKeys(Map(kept, f), kept);
    if DistinctKeys(local) {
      FilterKeepsDistinct(local, Key, p);
    }
  }

  lemma TakeIncomingRows(local: seq<Message>, incoming: seq<Message>, o: Options, preserveChanged: bool)
    ensures var r := TakeIncoming(local, incoming, o, preserveChanged);
      && AllSourced(r, local, incoming, o) && Map(r, Key) == Map(incoming, Key)
      && KeySet(r) == KeySet(incoming) && (DistinctKeys(incoming) ==> DistinctKeys(r))
  {
    hide IncomingRow, IsMergeOf, Key;
    if preserveChanged {
      var f := row => IncomingRow(row, local, o);
      forall m | m in incoming
        ensures Sourced(f(m), local, incoming, o) && Key(f(m)) == Key(m)
      {
        IncomingRowSourced(m, local, incoming, o);
      }
      MapKeepsKeys(incoming, f);
      SameKeys(Map(incoming, f), incoming);
    }
  }

  lemma PostRequestRows(local: seq<Message>, incoming: seq<Message>, o: Options)
    requires |incoming| > 0
    ensures var r := PostRequest(local, incoming, o);
      && AllSourced(r, local, incoming, o) && KeySet(r) <= KeySet(local) && KeySet(r) !! KeySet(incoming)
      && (DistinctKeys(local) ==> DistinctKeys(r))
  {
    hide Key, AllSourced, DistinctKeys, RowsBehind, RowsNotOlder;
    var localIndexes := Indexes(local);
    var last := incoming[|incoming| - 1];
    if Key(last) in localIndexes {
      BehindRows(local, localIndexes[Key(last)] + 1, incoming, o);
    } else {
      NotOlderRows(local, Time(last), incoming, o);
    }
  }

  lemma BehindRows(local: seq<Message>, from: nat, incoming: seq<Message>, o: Options)
    requires from <= |local|
    ensures var r := RowsBehind(local, from, incoming, o);
      && AllSourced(r, local, incoming, o) && KeySet(r) <= KeySet(local) && KeySet(r) !! KeySet(incoming)
      && (DistinctKeys(local) ==> DistinctKeys(r))
  {
    hide Key, AllSourced, DistinctKeys;
    NewRows(local, from, m => IsNew(m, incoming, o), incoming, o);
  }

  lemma NotOlderRows(local: seq<Message>, time: Option<int>, incoming: seq<Message>, o: Options)
    ensures var r := RowsNotOlder(local, time, incoming, o);
      && AllSourced(r, local, incoming, o) && KeySet(r) <= KeySet(local) && KeySet(r) !! KeySet(incoming)
      && (DistinctKeys(local) ==> DistinctKeys(r))
  {
    hide Key, AllSourced, DistinctKeys;
    assert local[0..] == local;
    NewRows(local, 0, m => IsNew(m, incoming, o) && AtLeast(Time(m), time), incoming, o);
  }

  lemma NewRows(local: seq<Message>, from: nat, p: Message -> bool, incoming: seq<Message>, o: Options)
    requires from <= |local| && forall m :: p(m) ==> Key(m) !in KeySet(incoming)
    ensures var r := Filter(local[from..], p);
      && AllSourced(r, local, incoming, o) && KeySet(r) <= KeySet(local) && KeySet(r) !! KeySet(incoming)
      && (DistinctKeys(local) ==> DistinctKeys(r))
  {
    hide IsMergeOf, Key;
    FilteredKeys(local[from..], p);
    if DistinctKeys(local) {
      FilterKeepsDistinct(local[from..], Key, p);
    }
  }

  lemma LatestWindowRows(local: seq<Message>, incoming: seq<Message>, o: Options)
    requires |incoming| > 0
    ensures var r := LatestWindow(local, incoming, o);
      && AllSourced(r, local, incoming, o)
      && KeySet(r) <= KeySet(local) + KeySet(incoming) && KeySet(incoming) <= KeySet(r)
      && (DistinctKeys(local) && DistinctKeys(incoming) ==> DistinctKeys(r))
  {
    hide Sourced, TakeIncoming, PostRequest, Key, DistinctKeys;
    TakeIncomingRows(local, incoming, o, RevisionChanged(o));
    PostRequestRows(local, incoming, o);
    JoinedRows(TakeIncoming(local, incoming, o, RevisionChanged(o)), PostRequest(local, incoming, o),
               local, incoming, o);
  }

  lemma JoinedRows(a: seq<Message>, b: seq<Message>, local: seq<Message>, incoming: seq<Message>, o: Options)
    requires AllSourced(a, local, incoming, o) && AllSourced(b, local, incoming, o) && KeySet(a) !! KeySet(b)
    ensures AllSourced(a + b, local, incoming, o) && KeySet(a + b) == KeySet(a) + KeySet(b)
    ensures DistinctKeys(a) && DistinctKeys(b) ==> DistinctKeys(a + b)
  {
    hide Sourced, Key, DistinctKeys;
    forall k
      ensures k in KeySet(a + b) <==> k in KeySet(a) || k in KeySet(b)
    {
      if k in KeySet(a) {
        var m :| m in a && Key(m) == k;
        assert m in a + b;
      }
      if k in KeySet(b) {
        var m :| m in b && Key(m) == k;
        assert m in a + b;
      }
    }
    if DistinctKeys(a) && DistinctKeys(b) {
      ConcatKeepsDistinctKeys(a, b);
    }
  }

  lemma AuthoritativeRows(local: seq<Message>, incoming: seq<Message>, o: Options)
    requires |incoming| > 0
    ensures var r := Authoritative(local, incoming, o);
      && AllSourced(r, local, incoming, o) && KeySet(r) <= KeySet(local) + KeySet(incoming)
      && (DistinctKeys(local) && DistinctKeys(incoming) ==> DistinctKeys(r))
  {
    hide LatestWindow, Key, IsMergeOf;
    LatestWindowRows(local, incoming, o);
    var latest := LatestWindow(local, incoming, o);
    if o.preserveOlderReadingHistory {
      var p := (m: Message) => Key(m) !in KeySet(latest) && Before(Time(m), Time(incoming[0]));
      var older := Filter(local, p);
      assert older == OlderHistory(local, incoming, latest);
      assert AllSourced(older, local, incoming, o) && KeySet(older) !! KeySet(latest);
      FilteredKeys(local, p);
      if DistinctKeys(local) {
        FilterKeepsDistinct(local, Key, p);
      }
      JoinedRows(older, latest, local, incoming, o);
    }
  }

  lemma MissingRows(incoming: seq<Message>, from: nat, merged: seq<Message>, local: seq<Message>, o: Options)
    requires from <= |incoming|
    ensures var r := RowsMissing(incoming[from..], merged);
      && AllSourced(r, local, incoming, o) && KeySet(r) <= KeySet(incoming) && KeySet(r) !! KeySet(merged)
      && (DistinctKeys(incoming) ==> DistinctKeys(r)) && forall m :: m in r ==> m in incoming
  {
    hide Key, IsMergeOf;
    var p := (m: Message) => Key(m) !in KeySet(merged);
    FilteredKeys(incoming[from..], p);
    if DistinctKeys(incoming) {
      FilterKeepsDistinct(incoming[from..], Key, p);
    }
  }

  lemma AppendNewerRows(local: seq<Message>, incoming: seq<Message>, o: Options, relation: Relation)
    requires |local| > 0
    ensures var r := AppendNewer(local, incoming, o, relation); r.Some? ==>
      && AllSourced(r.value, local, incoming, o) && KeySet(r.value) <= KeySet(local) + KeySet(incoming)
      && (DistinctKeys(local) && DistinctKeys(incoming) ==> DistinctKeys(r.value))
  {
    hide KeepLocal, Key, AllSourced, DistinctKeys, RowsMissing, KeySet;
    if AppendNewer(local, incoming, o, relation).Some? {
      var at := Indexes(incoming)[Key(local[|local| - 1])];
      var merged := KeepLocal(local, incoming, o, relation, false);
      KeepLocalRows(local, incoming, o, relation, false);
      MissingRows(incoming, at + 1, merged, local, o);
      JoinedRows(merged, RowsMissing(incoming[at + 1..], merged), local, incoming, o);
    }
  }

  lemma RefreshedRows(local: seq<Message>, incoming: seq<Message>, o: Options)
    ensures var r := Refreshed(local, incoming, o);
      && AllSourced(r, local, incoming, o) && KeySet(r) <= KeySet(local) + KeySet(incoming)
      && (DistinctKeys(local) && DistinctKeys(incoming) ==> DistinctKeys(r))
  {
    hide AllSourced, AppendNewer, KeepLocal, TakeIncoming, DistinctKeys, KeySet, KeepsLocal;
    var relation := RelationOf(local, incoming);
    if relation == IncomingNewer {
      AppendNewerRows(local, incoming, o, relation);
    }
    KeepLocalRows(local, incoming, o, relation, false);
    TakeIncomingRows(local, incoming, o, RevisionChanged(o));
  }

  /** In every branch and under all options: every row of the result is an untouched local
      row the server did not send, a row the server sent, or the merge of a local and a sent
      row of one key; and from windows with distinct keys come distinct keys. */
  lemma EveryRowIsDrawnFromTheInputs(local: seq<Message>, incoming: seq<Message>, o: Options)
    ensures AllSourced(Merge(local, incoming, o), local, incoming, o)
    ensures KeySet(Merge(local, incoming, o)) <= KeySet(local) + KeySet(incoming)
    ensures DistinctKeys(local) && DistinctKeys(incoming) ==> DistinctKeys(Merge(local, incoming, o))
  {
    hide KeepLocal, Authoritative, Refreshed, IsMergeOf, Key;
    if IsStale(o) {
      KeepLocalRows(local, incoming, o, RelationOf(local, incoming), true);
    } else if incoming == [] {
      var p := (m: Message) => Key(m) !in KeySet(Baseline(o));
      assert NotInBaseline(local, o) == Filter(local, p);
      FilteredKeys(local, p);
      if DistinctKeys(local) {
        FilterKeepsDistinct(local, Key, p);
      }
    } else if local != [] {
      AuthoritativeRows(local, incoming, o);
      RefreshedRows(local, incoming, o);
    }
  }

  /** A recall or deletion the server reports is never lost, in any branch. */
  lemma ServerTombstonesSurvive(local: seq<Message>, incoming: seq<Message>, o: Options)
    requires DistinctKeys(incoming)
    ensures forall m, i ::
      m in Merge(local, incoming, o) && i in incoming && Key(m) == Key(i) && Tombstoned(i) ==> Tombstoned(m)
  {
    hide Merge, Key, Tombstoned;
    EveryRowIsDrawnFromTheInputs(local, incoming, o);
    forall m, i | m in Merge(local, incoming, o) && i in incoming && Key(m) == Key(i) && Tombstoned(i)
      ensures Tombstoned(m)
    {
      TombstoneSurvives(local, incoming, o, m, i);
    }
  }

  lemma TombstoneSurvives(local: seq<Message>, incoming: seq<Message>, o: Options, m: Message, i: Message)
    requires DistinctKeys(incoming) && Sourced(m, local, incoming, o) && i in incoming && Key(m) == Key(i)
    requires Tombstoned(i)
    ensures Tombstoned(m)
  {
    hide Key;
    assert Key(i) in KeySet(incoming);
    if m !in incoming {
      var l, j :| l in local && j in incoming && IsMergeOf(m, l, j, o);
      MergeKeepsKey(l, j, Lookup(ByKey(Baseline(o)), Key(l)));
      assert j == i;
    }
  }
}
