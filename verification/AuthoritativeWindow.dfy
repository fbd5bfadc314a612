/** What an authoritative server window leaves of the loaded one. */
module AuthoritativeWindow {
  import opened MessageWindow
  import opened Sequences

  /** Some earlier local row has this key. */
  ghost predicate Behind(m: Message, key: string, local: seq<Message>) {
    exists i, j :: 0 <= i < j < |local| && Key(local[i]) == key && local[j] == m
  }

  /** A row that came up after the request: neither requested nor sent, and behind the last
      sent row (or, when that is not loaded, not older than it). */
  ghost predicate IsPostRequest(m: Message, local: seq<Message>, incoming: seq<Message>, o: Options)
    requires |incoming| > 0
  {
    var last := incoming[|incoming| - 1];
    && LocallyChanged(o) && WantsNewRows(o)
    && Key(m) !in KeySet(Baseline(o)) && Key(m) !in KeySet(incoming)
    && if Key(last) in KeySet(local) then Behind(m, Key(last), local)
       else Time(m).Some? && Time(last).Some? && Time(m).value >= Time(last).value
  }

  ghost predicate IsOlderHistory(m: Message, local: seq<Message>, incoming: seq<Message>, o: Options)
    requires |incoming| > 0
  {
    && o.preserveOlderReadingHistory
    && Time(m).Some? && Time(incoming[0]).Some? && Time(m).value < Time(incoming[0]).value
    && Key(m) !in KeySet(incoming) && !IsPostRequest(m, local, incoming, o)
  }

  lemma {:induction false} FilterAgrees<T(!new)>(s: seq<T>, p: T -> bool, q: T -> bool)
    requires forall x :: x in s ==> p(x) == q(x)
    ensures Filter(s, p) == Filter(s, q)
  {
    if s != [] {
      FilterAgrees(s[1..], p, q);
    }
  }

  lemma {:induction false} FilterBehind<T(!new)>(s: seq<T>, from: nat, p: T -> bool, q: T -> bool)
    requires from <= |s|
    requires forall i :: 0 <= i < |s| ==> p(s[i]) == (i >= from && q(s[i]))
    ensures Filter(s, p) == Filter(s[from..], q)
  {
    if s == [] || from == 0 {
      assert s[from..] == s;
      FilterAgrees(s, p, q);
    } else {
      FilterBehind(s[1..], from - 1, p, q);
      assert s[1..][from - 1..] == s[from..];
    }
  }

  lemma {:induction false} FilterNone<T(!new)>(s: seq<T>, p: T -> bool)
    requires forall x :: x in s ==> !p(x)
    ensures Filter(s, p) == []
  {
    if s != [] {
      FilterNone(s[1..], p);
    }
  }

  /** The rows of the window that came up after the request, in order. */
  ghost function PostRequestOf(local: seq<Message>, incoming: seq<Message>, o: Options): (r: seq<Message>)
    requires |incoming| > 0
  {
    Filter(local, m => IsPostRequest(m, local, incoming, o))
  }

  /** The older history of the window, in order. */
  ghost function OlderHistoryOf(local: seq<Message>, incoming: seq<Message>, o: Options): (r: seq<Message>)
    requires |incoming| > 0
  {
    Filter(local, m => IsOlderHistory(m, local, incoming, o))
  }

  lemma PostRequestExactly(local: seq<Message>, incoming: seq<Message>, o: Options)
    requires |incoming| > 0 && DistinctKeys(local) && RevisionChanged(o) && PreservesPostRequest(o)
    ensures PostRequest(local, incoming, o) == PostRequestOf(local, incoming, o)
  {
    hide Key, Time, IsNew, RowsBehind, RowsNotOlder, PostRequestOf;
    var last := incoming[|incoming| - 1];
    if Key(last) in KeySet(local) {
      BehindExactly(local, incoming, o, Indexes(local)[Key(last)]);
    } else {
      NotOlderExactly(local, incoming, o);
    }
  }

  lemma BehindExactly(local: seq<Message>, incoming: seq<Message>, o: Options, at: nat)
    requires |incoming| > 0 && DistinctKeys(local) && RevisionChanged(o) && PreservesPostRequest(o)
    requires at < |local| && Key(local[at]) == Key(incoming[|incoming| - 1])
    ensures RowsBehind(local, at + 1, incoming, o) == PostRequestOf(local, incoming, o)
  {
    OptionsMean(o);
    hide Key, Time, KeySet, RevisionChanged, PreservesPostRequest, LocallyChanged, WantsNewRows, Behind;
    var p := (m: Message) => IsPostRequest(m, local, incoming, o);
    var q := m => IsNew(m, incoming, o);
    assert Key(local[at]) in KeySet(local);
    forall i | 0 <= i < |local|
      ensures p(local[i]) == (i >= at + 1 && q(local[i]))
    {
      BehindIsAfter(local, at, i);
    }
    FilterBehind(local, at + 1, p, q);
  }

  lemma NotOlderExactly(local: seq<Message>, incoming: seq<Message>, o: Options)
    requires |incoming| > 0 && RevisionChanged(o) && PreservesPostRequest(o)
    requires Key(incoming[|incoming| - 1]) !in KeySet(local)
    ensures RowsNotOlder(local, Time(incoming[|incoming| - 1]), incoming, o) == PostRequestOf(local, incoming, o)
  {
    OptionsMean(o);
    hide Key, Time, KeySet, RevisionChanged, PreservesPostRequest, LocallyChanged, WantsNewRows, Behind;
    var time := Time(incoming[|incoming| - 1]);
    FilterAgrees(local, m => IsNew(m, incoming, o) && AtLeast(Time(m), time),
                 m => IsPostRequest(m, local, incoming, o));
  }

  lemma BehindIsAfter(local: seq<Message>, at: nat, i: nat)
    requires DistinctKeys(local) && at < |local| && i < |local|
    ensures Behind(local[i], Key(local[at]), local) <==> i > at
  {
    hide Key;
  }

  lemma LatestKeys(local: seq<Message>, incoming: seq<Message>, o: Options, m: Message)
    requires |incoming| > 0 && DistinctKeys(local) && m in local
    ensures Key(m) in KeySet(LatestWindow(local, incoming, o)) <==>
      Key(m) in KeySet(incoming) || IsPostRequest(m, local, incoming, o)
  {
    hide Key, PostRequest, TakeIncoming, IsPostRequest, IsNew, PostRequestOf;
    TakeIncomingRows(local, incoming, o, RevisionChanged(o));
    if RevisionChanged(o) && PreservesPostRequest(o) {
      PostRequestRows(local, incoming, o);
      PostRequestExactly(local, incoming, o);
      JoinedRows(TakeIncoming(local, incoming, o, RevisionChanged(o)), PostRequest(local, incoming, o),
                 local, incoming, o);
      PostRequestKeys(local, incoming, o, m);
    } else {
      assert !IsPostRequest(m, local, incoming, o) by {
        NotPostRequest(m, local, incoming, o);
      }
    }
  }

  lemma PostRequestKeys(local: seq<Message>, incoming: seq<Message>, o: Options, m: Message)
    requires |incoming| > 0 && DistinctKeys(local) && m in local
    ensures Key(m) in KeySet(PostRequestOf(local, incoming, o)) <==> IsPostRequest(m, local, incoming, o)
  {
    hide Key, IsPostRequest;
    var rows := PostRequestOf(local, incoming, o);
    if Key(m) in KeySet(rows) {
      var x :| x in rows && Key(x) == Key(m);
      assert x in local && x == m;
    }
  }

  lemma NotPostRequest(m: Message, local: seq<Message>, incoming: seq<Message>, o: Options)
    requires |incoming| > 0 && !(RevisionChanged(o) && PreservesPostRequest(o))
    ensures !IsPostRequest(m, local, incoming, o)
  {
  }

  ghost predicate SentRow(m: Message, sent: Message, local: seq<Message>, o: Options) {
    m == sent || (LocallyChanged(o) && exists l :: l in local && IsMergeOf(m, l, sent, o))
  }

  lemma TakenRowIsSent(local: seq<Message>, incoming: seq<Message>, o: Options, i: nat)
    requires i < |incoming|
    ensures SentRow(TakeIncoming(local, incoming, o, RevisionChanged(o))[i], incoming[i], local, o)
  {
    hide Key, MergePreserved;
    var byKey := ByKey(local);
    var sent := incoming[i];
    var m := TakeIncoming(local, incoming, o, RevisionChanged(o))[i];
    assert RevisionChanged(o) ==> m == IncomingRow(sent, local, o);
    if RevisionChanged(o) && m != sent {
      assert IsMergeOf(m, byKey[Key(sent)], sent, o);
    }
  }

  lemma MiddleRows(local: seq<Message>, incoming: seq<Message>, o: Options)
    ensures var middle := TakeIncoming(local, incoming, o, RevisionChanged(o));
      && Map(middle, Key) == Map(incoming, Key)
      && forall i :: 0 <= i < |incoming| ==> SentRow(middle[i], incoming[i], local, o)
  {
    hide Key, SentRow, IncomingRow;
    TakeIncomingRows(local, incoming, o, RevisionChanged(o));
    forall i | 0 <= i < |incoming|
      ensures SentRow(TakeIncoming(local, incoming, o, RevisionChanged(o))[i], incoming[i], local, o)
    {
      TakenRowIsSent(local, incoming, o, i);
    }
  }

  lemma LatestExactly(local: seq<Message>, incoming: seq<Message>, o: Options)
    requires |incoming| > 0 && DistinctKeys(local)
    ensures LatestWindow(local, incoming, o) ==
      TakeIncoming(local, incoming, o, RevisionChanged(o)) + PostRequestOf(local, incoming, o)
  {
    hide TakeIncoming, PostRequest, PostRequestOf;
    if RevisionChanged(o) && PreservesPostRequest(o) {
      PostRequestExactly(local, incoming, o);
    } else {
      NoPostRequest(local, incoming, o);
    }
  }

  lemma NoPostRequest(local: seq<Message>, incoming: seq<Message>, o: Options)
    requires |incoming| > 0 && !(RevisionChanged(o) && PreservesPostRequest(o))
    ensures PostRequestOf(local, incoming, o) == []
  {
    forall m | m in local
      ensures !IsPostRequest(m, local, incoming, o)
    {
      NotPostRequest(m, local, incoming, o);
    }
    hide IsPostRequest;
    FilterNone(local, m => IsPostRequest(m, local, incoming, o));
  }

  /** An authoritative result is exactly the older history the reader may keep, then one row
      for each sent row in the order sent, then the rows that came up after the request. */
  lemma AuthoritativeResultIsExact(local: seq<Message>, incoming: seq<Message>, o: Options)
    returns (middle: seq<Message>)
    requires IsCurrent(o) && o.authoritativeWindow && |incoming| > 0 && DistinctKeys(local)
    ensures Merge(local, incoming, o) ==
      OlderHistoryOf(local, incoming, o) + middle + PostRequestOf(local, incoming, o)
    ensures Map(middle, Key) == Map(incoming, Key)
    ensures forall i :: 0 <= i < |middle| ==> SentRow(middle[i], incoming[i], local, o)
  {
    hide Key, TakeIncoming, LatestWindow, OlderHistory, SentRow, PostRequestOf, OlderHistoryOf, RevisionChanged;
    if local == [] {
      middle := incoming;
      NothingLoaded(incoming, o);
    } else {
      middle := TakeIncoming(local, incoming, o, RevisionChanged(o));
      MiddleRows(local, incoming, o);
      LatestExactly(local, incoming, o);
      OlderHistoryExactly(local, incoming, o);
      ConcatAssociates(OlderHistoryOf(local, incoming, o), middle, PostRequestOf(local, incoming, o));
    }
  }

  lemma NothingLoaded(incoming: seq<Message>, o: Options)
    requires |incoming| > 0
    ensures OlderHistoryOf([], incoming, o) + incoming + PostRequestOf([], incoming, o) == incoming
    ensures forall i :: 0 <= i < |incoming| ==> SentRow(incoming[i], incoming[i], [], o)
  {
    hide IsPostRequest, IsOlderHistory;
    SentAsIs(incoming, [], o);
  }

  lemma SentAsIs(incoming: seq<Message>, local: seq<Message>, o: Options)
    ensures forall i :: 0 <= i < |incoming| ==> SentRow(incoming[i], incoming[i], local, o)
  {
  }

  lemma OlderHistoryExactly(local: seq<Message>, incoming: seq<Message>, o: Options)
    requires |incoming| > 0 && DistinctKeys(local)
    ensures
      (if o.preserveOlderReadingHistory then OlderHistory(local, incoming, LatestWindow(local, incoming, o)) else []) ==
      OlderHistoryOf(local, incoming, o)
  {
    hide Key, Time, IsPostRequest, LatestWindow;
    var latest := LatestWindow(local, incoming, o);
    var p := (m: Message) => IsOlderHistory(m, local, incoming, o);
    if o.preserveOlderReadingHistory {
      var q := (m: Message) => Key(m) !in KeySet(latest) && Before(Time(m), Time(incoming[0]));
      forall m | m in local
        ensures p(m) == q(m)
      {
        LatestKeys(local, incoming, o, m);
      }
      FilterAgrees(local, p, q);
    } else {
      FilterNone(local, p);
    }
  }

  /** A loaded row the server did not send survives exactly when it is older history or came
      up after the request. */
  lemma SurvivorsOfAnOmission(local: seq<Message>, incoming: seq<Message>, o: Options, l: Message)
    requires IsCurrent(o) && o.authoritativeWindow && |incoming| > 0 && DistinctKeys(local)
    requires l in local && Key(l) !in KeySet(incoming)
    ensures Key(l) in KeySet(Merge(local, incoming, o)) <==>
      IsOlderHistory(l, local, incoming, o) || IsPostRequest(l, local, incoming, o)
  {
    hide Key, Time, IsPostRequest, IsOlderHistory, Merge;
    var middle := AuthoritativeResultIsExact(local, incoming, o);
    SameKeys(middle, incoming);
    var older, post := OlderHistoryOf(local, incoming, o), PostRequestOf(local, incoming, o);
    var all := older + middle + post;
    if Key(l) in KeySet(all) {
      var m :| m in all && Key(m) == Key(l);
      assert m in middle ==> Key(m) in KeySet(middle);
      assert m in local && m == l;
    }
    if l in older || l in post {
      assert l in all;
    }
  }

  /** Hence a row the request knew of and the server omitted is gone, unless the reader's
      older history is kept and the row is older than the whole sent window. */
  lemma OmittedBaselineRowsAreGone(local: seq<Message>, incoming: seq<Message>, o: Options, l: Message)
    requires IsCurrent(o) && o.authoritativeWindow && |incoming| > 0 && DistinctKeys(local)
    requires l in local && Key(l) in KeySet(Baseline(o)) && Key(l) !in KeySet(incoming)
    ensures Key(l) in KeySet(Merge(local, incoming, o)) <==>
      && o.preserveOlderReadingHistory
      && Time(l).Some? && Time(incoming[0]).Some? && Time(l).value < Time(incoming[0]).value
  {
    hide Key, Time, Merge, KeySet;
    SurvivorsOfAnOmission(local, incoming, o, l);
  }
}
