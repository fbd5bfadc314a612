/** The member reconciliation worker: a keyset scan whose cursor is committed page by page. */
module Reconciliation {
  import opened Basics
  import opened StringOrder

  const PAGE_LIMIT := 25

  // ----- the member source -----

  /** The rows behind the cursor; `rows` are the active human members in index order. */
  function After(rows: seq<string>, cursor: string): (r: seq<string>) {
    if rows == [] then [] else (if Less(cursor, rows[0]) then [rows[0]] else []) + After(rows[1..], cursor)
  }

  function PageLimit(limit: int): (r: nat)
    ensures 1 <= r <= 25 && (1 <= limit <= 25 <==> r == limit) && (limit < 1 || limit > 25 ==> r == 25)
  {
    if limit <= 0 || limit > PAGE_LIMIT then PAGE_LIMIT else limit
  }

  function ListActiveHumanMembersAfter(rows: seq<string>, cursor: string, limit: int): (r: seq<string>) {
    var found := After(rows, cursor);
    if |found| <= PageLimit(limit) then found else found[..PageLimit(limit)]
  }

  lemma {:induction false} AfterIsExact(rows: seq<string>, cursor: string)
    requires Increasing(rows)
    ensures Increasing(After(rows, cursor))
    ensures forall x :: x in After(rows, cursor) <==> x in rows && Less(cursor, x)
  {
    if rows != [] {
      hide Less;
      AfterIsExact(rows[1..], cursor);
      var rest := After(rows[1..], cursor);
      assert forall x :: x in rows <==> x == rows[0] || x in rows[1..];
      assert forall x :: x in rows[1..] ==> Less(rows[0], x);
      assert forall j :: 0 <= j < |rest| ==> rest[j] in rest && Less(rows[0], rest[j]);
    }
  }

  /** The keyset property: a page holds every row behind the cursor up to its own end, and
      a short page holds them all. */
  lemma PageIsComplete(rows: seq<string>, cursor: string, x: string)
    requires Increasing(rows) && x in rows && Less(cursor, x)
    ensures var page := ListActiveHumanMembersAfter(rows, cursor, PAGE_LIMIT);
      x in page || (|page| == PAGE_LIMIT && Less(page[|page| - 1], x))
  {
    AfterIsExact(rows, cursor);
    var found := After(rows, cursor);
    var i :| 0 <= i < |found| && found[i] == x;
    if |found| > PAGE_LIMIT {
      assert i < PAGE_LIMIT ==> found[..PAGE_LIMIT][i] == x;
    }
  }

  lemma PageIsBehindCursor(rows: seq<string>, cursor: string)
    requires Increasing(rows)
    ensures forall x :: x in ListActiveHumanMembersAfter(rows, cursor, PAGE_LIMIT) ==> x in rows && Less(cursor, x)
  {
    AfterIsExact(rows, cursor);
  }

  // ----- one cycle -----

  datatype Error = ListFailed | SyncFailed | SyncCancelled | Expired

  datatype Outcome = Synced | Failed | Cancelled

  datatype Report = Report(claimed: nat, failed: nat, cancelled: bool)

  function Truncated(members: seq<string>): (page: seq<string>)
    ensures |page| == Min(|members|, PAGE_LIMIT)
  {
    if |members| > PAGE_LIMIT then members[..PAGE_LIMIT] else members
  }

  /** The cursor that follows a committed page; "" starts the next pass. */
  function NextCursor(members: seq<string>): (c: string) {
    if |members| < PAGE_LIMIT then "" else members[PAGE_LIMIT - 1]
  }

  /** The cycle context, once expired, stays expired. */
  method Expires(expired: bool) returns (e: bool)
    ensures expired ==> e
  {
    e := *;
    if expired {
      e := true;
    }
  }

  method SyncMember(memberID: string) returns (o: Outcome) {
    o := *;
  }

  class Reconciler {
    var cursor: string

    constructor ()
      ensures cursor == ""
    {
      cursor := "";
    }

    /** One cycle over the members the source listed, None when listing failed. `synced` are
        the members whose synchronisation succeeded. The cursor moves exactly when every
        member of the page succeeded and the cycle ended in time; an ordinary failure does
        not keep the rest of the page from being attempted. */
    method Process(listing: Option<seq<string>>) returns (report: Report, err: Option<Error>, synced: seq<string>)
      modifies this
      ensures listing == None ==> err == Some(ListFailed) && cursor == old(cursor) && synced == []
      ensures listing.Some? ==>
        var page := Truncated(listing.value);
        && (forall x :: x in synced ==> x in page)
        && (if err == None && !report.cancelled then synced == page && cursor == NextCursor(listing.value)
            else cursor == old(cursor))
        && (!report.cancelled ==> report.claimed == |page| && report.failed == |page| - |synced|)
        && (report.failed > 0 ==> err != None)
    {
      report, err, synced := Report(0, 0, false), None, [];
      var expired := Expires(false);
      if listing == None {
        var cancelled: bool := *;
        return Report(0, 0, cancelled || expired), Some(ListFailed), [];
      }
      var page := listing.value;
      var pageFull := |page| >= PAGE_LIMIT;
      if |page| > PAGE_LIMIT {
        page := page[..PAGE_LIMIT];
      }
      report, err, synced, expired := AttemptPage(page, expired);
      if err == None {
        expired := Expires(expired);
        if expired {
          err := Some(Expired);
        }
      }
      expired := Expires(expired);
      var cancelled := err == Some(SyncCancelled) || expired;
      report := report.(cancelled := cancelled);
      if err == None && !cancelled {
        if !pageFull || |page| == 0 {
          cursor := "";
        } else {
          cursor := page[|page| - 1];
        }
      }
    }

    /** The loop over the members of a page. */
    method AttemptPage(page: seq<string>, expiredBefore: bool)
      returns (report: Report, err: Option<Error>, synced: seq<string>, expired: bool)
      ensures forall x :: x in synced ==> x in page
      ensures err == None ==> synced == page
      ensures err == Some(Expired) ==> expired
      ensures err != Some(SyncCancelled) && !expired ==> report.claimed == |page| && report.failed == |page| - |synced|
      ensures report.failed > 0 ==> err != None
    {
      report, err, synced, expired := Report(0, 0, false), None, [], expiredBefore;
      for i := 0 to |page|
        invariant err == None || err == Some(SyncFailed)
        invariant forall x :: x in synced ==> x in page
        invariant err == None ==> synced == page[..i]
        invariant report.claimed == i && report.failed == i - |synced| && (report.failed > 0 ==> err != None)
      {
        expired := Expires(expired);
        if expired {
          err := Some(Expired);
          break;
        }
        report := report.(claimed := report.claimed + 1);
        var outcome := SyncMember(page[i]);
        if outcome != Synced {
          expired := Expires(expired);
          if outcome == Cancelled || expired {
            err := Some(SyncCancelled);
            break;
          }
          report := report.(failed := report.failed + 1);
          if err == None {
            err := Some(SyncFailed);
          }
          continue;
        }
        synced := synced + [page[i]];
        expired := Expires(expired);
        if expired {
          err := Some(Expired);
          break;
        }
      }
    }
  }

  // ----- runs of cycles, under changing membership -----

  /** A cycle: the member table when it was listed, what was synced, and whether the page
      was committed. */
  datatype Cycle = Cycle(rows: seq<string>, synced: seq<string>, committed: bool)

  ghost predicate IsCycle(c: Cycle, before: string, after: string) {
    && Increasing(c.rows)
    && if c.committed then
         var page := ListActiveHumanMembersAfter(c.rows, before, PAGE_LIMIT);
         c.synced == page && after == NextCursor(page)
       else after == before
  }

  ghost predicate IsRun(cycles: seq<Cycle>, cursors: seq<string>) {
    && |cursors| == |cycles| + 1
    && forall i :: 0 <= i < |cycles| ==> IsCycle(cycles[i], cursors[i], cursors[i + 1])
  }

  /** One cycle against the production source, which may fail, over any member table. */
  method RunCycle(r: Reconciler, rows: seq<string>) returns (c: Cycle)
    requires Increasing(rows)
    modifies r
    ensures IsCycle(c, old(r.cursor), r.cursor) && c.rows == rows
  {
    var listing: Option<seq<string>> := None;
    var fails: bool := *;
    if !fails {
      listing := Some(ListActiveHumanMembersAfter(rows, r.cursor, PAGE_LIMIT));
    }
    var report, err, synced := r.Process(listing);
    c := Cycle(rows, synced, listing.Some? && err == None && !report.cancelled);
  }

  /** Any number of cycles, the member table changing arbitrarily between them. */
  method RunCycles(r: Reconciler, tables: seq<seq<string>>) returns (cycles: seq<Cycle>, cursors: seq<string>)
    requires forall t :: t in tables ==> Increasing(t)
    modifies r
    ensures IsRun(cycles, cursors) && cursors[0] == old(r.cursor) && cursors[|cycles|] == r.cursor
    ensures |cycles| == |tables| && forall i :: 0 <= i < |tables| ==> cycles[i].rows == tables[i]
  {
    hide IsCycle;
    cycles, cursors := [], [r.cursor];
    for i := 0 to |tables|
      invariant |cycles| == i && IsRun(cycles, cursors) && cursors[0] == old(r.cursor) && cursors[i] == r.cursor
      invariant forall k :: 0 <= k < i ==> cycles[k].rows == tables[k]
    {
      var c := RunCycle(r, tables[i]);
      cycles, cursors := cycles + [c], cursors + [r.cursor];
    }
  }

  ghost predicate SyncedIn(cycles: seq<Cycle>, x: string) {
    exists i :: 0 <= i < |cycles| && cycles[i].committed && x in cycles[i].synced
  }

  lemma SyncedEarlier(cycles: seq<Cycle>, k: nat, x: string)
    requires k <= |cycles| && SyncedIn(cycles[..k], x)
    ensures SyncedIn(cycles, x)
  {
    var i :| 0 <= i < k && cycles[..k][i].committed && x in cycles[..k][i].synced;
    assert cycles[i].committed;
  }

  /** A committed cycle syncs a member behind its cursor, unless the new cursor has not
      reached it yet. */
  lemma CycleCovers(c: Cycle, before: string, after: string, x: string)
    requires IsCycle(c, before, after) && c.committed && x in c.rows && Less(before, x)
    ensures x in c.synced || (after != "" && Less(after, x))
  {
    hide Less, Increasing;
    PageIsComplete(c.rows, before, x);
    PageIsBehindCursor(c.rows, before);
    assert !Less(before, "") by { NothingBelowEmpty(before); }
  }

  lemma NothingBelowEmpty(a: string)
    ensures !Less(a, "")
  {
  }

  /** Before the pass ends, everyone the cursor has passed has been synced. */
  lemma {:induction false} PassedMembersAreSynced(cycles: seq<Cycle>, cursors: seq<string>, x: string)
    requires IsRun(cycles, cursors) && cursors[0] == "" && x != ""
    requires forall c :: c in cycles ==> x in c.rows
    ensures !Less(cursors[|cycles|], x) ==> SyncedIn(cycles, x)
    decreases |cycles|
  {
    if cycles == [] {
      assert Less("", x);
    } else {
      var k := |cycles| - 1;
      PassedMembersAreSynced(cycles[..k], cursors[..k + 1], x);
      if SyncedIn(cycles[..k], x) {
        SyncedEarlier(cycles, k, x);
      } else if cycles[k].committed {
        CycleCovers(cycles[k], cursors[k], cursors[k + 1], x);
        assert x in cycles[k].synced ==> SyncedIn(cycles, x);
        assert !Less(cursors[k + 1], x) ==> x in cycles[k].synced;
      }
    }
  }

  /** Coverage of a pass, from an empty cursor to the reset that ends it, whatever failures
      and timeouts lie between and whoever joins or leaves: every member active throughout
      was successfully synced in a committed cycle of the pass. */
  lemma PassCoversEveryStandingMember(cycles: seq<Cycle>, cursors: seq<string>, x: string)
    requires IsRun(cycles, cursors) && |cycles| > 0 && x != ""
    requires cursors[0] == "" && cursors[|cycles|] == "" && cycles[|cycles| - 1].committed
    requires forall c :: c in cycles ==> x in c.rows
    ensures SyncedIn(cycles, x)
  {
    var k := |cycles| - 1;
    PassedMembersAreSynced(cycles[..k], cursors[..k + 1], x);
    if SyncedIn(cycles[..k], x) {
      SyncedEarlier(cycles, k, x);
    } else {
      CycleCovers(cycles[k], cursors[k], "", x);
      assert x in cycles[k].synced;
    }
  }
}
