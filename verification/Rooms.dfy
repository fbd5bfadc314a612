/** The P2P room manager. Each *Section method is one mutex-held section of the manager;
    sends and close batches happen between sections, and a timer callback may run at any
    time, also after its timer was stopped. Valid() is the invariant every section keeps. */
module Rooms {
  import opened Basics

  const MAX_ROOM_PEERS := 2

  /** A member; `ref` is the identity of its peerState. */
  datatype Peer = Peer(ref: nat, id: string, conn: nat)

  /** A room; `ref` is the identity of its roomState. A timer is armed or nil. */
  datatype Room = Room(
    ref: nat, id: string, expiresAt: int, maxPeers: nat, peers: map<string, Peer>, peerOrder: seq<string>,
    expiryTimer: bool, cleanupTimer: bool)

  /** Where an admitted peer is: a member of a live room, removed by a successful Leave,
      taken out by a section that has yet to pass it to a close batch, or passed to one. */
  datatype Place = Member(room: nat, roomID: string, peerID: string) | Departed | Owed | Handed

  ghost predicate Distinct<T>(s: seq<T>) {
    forall i, j :: 0 <= i < j < |s| ==> s[i] != s[j]
  }

  ghost predicate RoomValid(r: Room) {
    && |r.peers| <= r.maxPeers == MAX_ROOM_PEERS
    && Distinct(r.peerOrder)
    && (forall q :: q in r.peerOrder <==> q in r.peers)
    && (forall q :: q in r.peers ==> r.peers[q].id == q)
    && (r.peers != map[] ==> !r.cleanupTimer)
    && r.expiryTimer
  }

  function WithoutFirst(s: seq<string>, x: string): (r: seq<string>) {
    if s == [] then [] else if s[0] == x then s[1..] else [s[0]] + WithoutFirst(s[1..], x)
  }

  lemma {:induction false} WithoutFirstKeepsOrder(s: seq<string>, x: string)
    requires Distinct(s)
    ensures Distinct(WithoutFirst(s, x))
    ensures forall y :: y in WithoutFirst(s, x) <==> y in s && y != x
  {
    if s != [] {
      WithoutFirstKeepsOrder(s[1..], x);
      assert forall y :: y in s <==> y == s[0] || y in s[1..];
      if s[0] != x {
        assert s[0] !in WithoutFirst(s[1..], x);
      }
    }
  }

  /** The others keep their order. */
  lemma {:induction false} WithoutFirstCutsOut(a: seq<string>, x: string, b: seq<string>)
    requires x !in a
    ensures WithoutFirst(a + ([x] + b), x) == a + b
  {
    if a == [] {
      assert a + ([x] + b) == [x] + b && ([x] + b)[1..] == b && a + b == b;
    } else {
      WithoutFirstCutsOut(a[1..], x, b);
      OneKept(a[0], a[1..] + ([x] + b), x);
      hide WithoutFirst;
      assert a + ([x] + b) == [a[0]] + (a[1..] + ([x] + b));
      assert a + b == [a[0]] + (a[1..] + b);
    }
  }

  lemma OneKept(y: string, rest: seq<string>, x: string)
    requires y != x
    ensures WithoutFirst([y] + rest, x) == [y] + WithoutFirst(rest, x)
  {
    assert ([y] + rest)[0] == y && ([y] + rest)[1..] == rest;
  }

  /** removePeerOrder: drops the first occurrence, shifting the rest down. */
  method RemovePeerOrder(peerOrder: seq<string>, peerID: string) returns (r: seq<string>)
    ensures r == WithoutFirst(peerOrder, peerID)
  {
    for index := 0 to |peerOrder|
      invariant WithoutFirst(peerOrder, peerID) == peerOrder[..index] + WithoutFirst(peerOrder[index..], peerID)
    {
      ghost var left := peerOrder[index..];
      assert left[0] == peerOrder[index] && left[1..] == peerOrder[index + 1..];
      if peerOrder[index] == peerID {
        return peerOrder[..index] + peerOrder[index + 1..];
      }
      assert peerOrder[..index + 1] == peerOrder[..index] + [peerOrder[index]];
      assert forall s: seq<string> :: peerOrder[..index] + ([peerOrder[index]] + s) == peerOrder[..index + 1] + s;
    }
    assert peerOrder[|peerOrder|..] == [];
    return peerOrder;
  }

  /** publicPeers: the ids of the members in join order. */
  method PublicPeers(room: Room) returns (ids: seq<string>)
    requires RoomValid(room)
    ensures ids == room.peerOrder
  {
    ids := [];
    for i := 0 to |room.peerOrder|
      invariant ids == room.peerOrder[..i]
    {
      if room.peerOrder[i] in room.peers {
        ids := ids + [room.peers[room.peerOrder[i]].id];
      }
    }
  }

  /** The members of a room except one id, in some order, as the send loops collect them. */
  method Recipients(room: Room, except: string) returns (ids: seq<string>)
    requires RoomValid(room)
    ensures Distinct(ids) && forall q :: q in ids <==> q in room.peers && q != except
  {
    ids := [];
    var todo := room.peers.Keys;
    while todo != {}
      invariant todo <= room.peers.Keys
      invariant Distinct(ids)
      invariant forall q :: q in ids <==> q in room.peers && q != except && q !in todo
      decreases todo
    {
      var q :| q in todo;
      if q != except {
        ids := ids + [q];
      }
      todo := todo - {q};
    }
  }

  ghost function Objects(peers: seq<Peer>): (s: set<nat>) {
    set p | p in peers :: p.ref
  }

  ghost predicate DistinctObjects(peers: seq<Peer>) {
    forall i, j :: 0 <= i < j < |peers| ==> peers[i].ref != peers[j].ref
  }

  /** The places once these objects have moved. */
  ghost function Moved(place: map<nat, Place>, objects: set<nat>, to: Place): (r: map<nat, Place>)
    ensures r.Keys == place.Keys
    ensures forall x :: x in place ==> r[x] == if x in objects then to else place[x]
  {
    map x | x in place :: if x in objects then to else place[x]
  }

  /** The rooms that survive a prune at `now`. */
  function Unexpired(rooms: map<string, Room>, now: int): (r: map<string, Room>)
    ensures forall id :: id in r ==> id in rooms && r[id] == rooms[id]
  {
    map id | id in rooms && now < rooms[id].expiresAt :: rooms[id]
  }

  /** A prune that has yet to look at these ids. */
  function Pruning(rooms: map<string, Room>, todo: set<string>, now: int): (r: map<string, Room>)
    ensures todo == rooms.Keys ==> r == rooms
    ensures todo == {} ==> r == Unexpired(rooms, now)
  {
    map id | id in rooms && (id in todo || now < rooms[id].expiresAt) :: rooms[id]
  }

  lemma PruneOne(rooms: map<string, Room>, todo: set<string>, now: int, id: string)
    requires id in todo && todo <= rooms.Keys
    ensures id in Pruning(rooms, todo, now) && Pruning(rooms, todo, now)[id] == rooms[id]
    ensures Pruning(rooms, todo - {id}, now) ==
      if now < rooms[id].expiresAt then Pruning(rooms, todo, now) else Pruning(rooms, todo, now) - {id}
  {
  }

  lemma Overwritten(rooms: map<string, Room>, id: string, first: Room, second: Room)
    ensures rooms[id := first][id := second] == rooms[id := second]
    ensures rooms[id := first] - {id} == rooms - {id}
  {
  }

  /** The members whose room is not in the map. */
  ghost function Homeless(rooms: map<string, Room>, place: map<nat, Place>): (s: set<nat>) {
    set x | x in place && place[x].Member? && place[x].roomID !in rooms
  }

  lemma {:induction false} SubsetIsNoLarger(small: set<string>, large: set<string>)
    requires small <= large
    ensures |small| <= |large|
  {
    if small != {} {
      var x :| x in small;
      SubsetIsNoLarger(small - {x}, large - {x});
    }
  }

  lemma SubmapIsNoLarger(small: map<string, Room>, large: map<string, Room>)
    requires small.Keys <= large.Keys
    ensures |small| <= |large|
  {
    SubsetIsNoLarger(small.Keys, large.Keys);
  }

  // ----- the invariant, on values -----

  /** Every room is well formed under its own id, with an identity allocated earlier. */
  ghost predicate RoomsValid(rooms: map<string, Room>, bound: nat) {
    forall id :: id in rooms ==> rooms[id].id == id && RoomValid(rooms[id]) && rooms[id].ref < bound
  }

  /** Membership and places say the same. */
  ghost predicate PlacesMatch(rooms: map<string, Room>, place: map<nat, Place>) {
    && (forall x :: x in place && place[x].Member? ==>
          var at := place[x];
          && at.roomID in rooms && rooms[at.roomID].ref == at.room
          && at.peerID in rooms[at.roomID].peers && rooms[at.roomID].peers[at.peerID].ref == x)
    && (forall id, q :: id in rooms && q in rooms[id].peers ==>
          var p := rooms[id].peers[q];
          p.ref in place && place[p.ref] == Member(rooms[id].ref, id, q))
  }

  ghost predicate IsPrefix(a: seq<nat>, b: seq<nat>) {
    a == b || a <= b
  }

  /** Each departed or handed-over peer is logged exactly once. */
  ghost predicate LogMatches(log: seq<nat>, place: map<nat, Place>, what: Place) {
    && Distinct(log)
    && forall x :: x in log <==> x in place && place[x] == what
  }

  lemma LogGrows(log: seq<nat>, batch: seq<nat>, place: map<nat, Place>, moved: set<nat>, what: Place)
    requires LogMatches(log, place, what) && Distinct(batch)
    requires forall x :: x in batch <==> x in moved
    requires forall x :: x in moved ==> x in place && place[x] != what
    ensures LogMatches(log + batch, Moved(place, moved, what), what)
  {
    var all := log + batch;
    assert forall x :: x in all <==> x in log || x in batch;
    forall i, j | 0 <= i < j < |all|
      ensures all[i] != all[j]
    {
      if i < |log| <= j {
        assert all[i] in log && all[j] == batch[j - |log|];
      }
    }
  }

  lemma LogIgnoresMember(log: seq<nat>, place: map<nat, Place>, what: Place, x: nat, to: Place)
    requires LogMatches(log, place, what) && x !in place && to != what
    ensures LogMatches(log, place[x := to], what)
  {
  }

  lemma LogKept(log: seq<nat>, place: map<nat, Place>, what: Place, moved: set<nat>, to: Place)
    requires LogMatches(log, place, what) && what != to
    requires forall x :: x in moved ==> x in place && place[x] != what
    ensures LogMatches(log, Moved(place, moved, to), what)
  {
  }

  /** Taking whole rooms out with all their members keeps membership and places in step. */
  lemma RoomsEvicted(rooms: map<string, Room>, place: map<nat, Place>, left: map<string, Room>, moved: set<nat>,
          to: Place)
    requires PlacesMatch(rooms, place) && !to.Member?
    requires forall id :: id in left ==> id in rooms && left[id] == rooms[id]
    requires forall x :: x in moved <==> x in place && place[x].Member? && place[x].roomID !in left
    ensures PlacesMatch(left, Moved(place, moved, to))
  {
  }

  lemma SubmapIsValid(rooms: map<string, Room>, bound: nat, left: map<string, Room>)
    requires RoomsValid(rooms, bound) && forall id :: id in left ==> id in rooms && left[id] == rooms[id]
    ensures RoomsValid(left, bound)
  {
    hide RoomValid;
  }

  ghost predicate AreMembers(members: seq<Peer>, room: Room) {
    && (forall p :: p in members <==> p.id in room.peers && room.peers[p.id] == p)
    && (forall i, j :: 0 <= i < j < |members| ==> members[i].id != members[j].id)
  }

  lemma MembersHaveTheirPlaces(rooms: map<string, Room>, place: map<nat, Place>, bound: nat, id: string,
          members: seq<Peer>)
    requires RoomsValid(rooms, bound) && PlacesMatch(rooms, place) && id in rooms && AreMembers(members, rooms[id])
    ensures DistinctObjects(members)
    ensures forall x :: x in Objects(members) <==> x in place && place[x].Member? && place[x].roomID == id
  {
    var room := rooms[id];
    forall i, j | 0 <= i < j < |members|
      ensures members[i].ref != members[j].ref
    {
      var p, q := members[i], members[j];
      assert place[room.peers[p.id].ref] == Member(room.ref, id, p.id);
      assert place[room.peers[q.id].ref] == Member(room.ref, id, q.id);
    }
    forall x | x in place && place[x].Member? && place[x].roomID == id
      ensures x in Objects(members)
    {
      var p := room.peers[place[x].peerID];
      assert p in members && p.ref == x;
    }
    forall x | x in Objects(members)
      ensures x in place && place[x].Member? && place[x].roomID == id
    {
      var p :| p in members && p.ref == x;
      assert place[room.peers[p.id].ref] == Member(room.ref, id, p.id);
    }
  }

  lemma EvictOne(all: map<string, Room>, place: map<nat, Place>, bound: nat, rooms: map<string, Room>,
                 expired: seq<Peer>, id: string, members: seq<Peer>)
    requires RoomsValid(all, bound) && PlacesMatch(all, place) && id in all && AreMembers(members, all[id])
    requires id in rooms && DistinctObjects(expired) && Objects(expired) == Homeless(rooms, place)
    ensures DistinctObjects(expired + members) && Objects(expired + members) == Homeless(rooms - {id}, place)
  {
    hide RoomsValid, PlacesMatch, AreMembers;
    MembersHaveTheirPlaces(all, place, bound, id, members);
    DisjointBatches(expired, members);
  }

  lemma SoleEviction(rooms: map<string, Room>, place: map<nat, Place>, bound: nat, id: string, members: seq<Peer>)
    requires RoomsValid(rooms, bound) && PlacesMatch(rooms, place) && id in rooms && AreMembers(members, rooms[id])
    ensures DistinctObjects(members) && Objects(members) == Homeless(rooms - {id}, place)
  {
    hide RoomsValid, PlacesMatch, AreMembers;
    NobodyHomeless(rooms, place);
    EvictOne(rooms, place, bound, rooms, [], id, members);
    assert [] + members == members;
  }

  lemma DisjointBatches(a: seq<Peer>, b: seq<Peer>)
    requires DistinctObjects(a) && DistinctObjects(b) && Objects(a) !! Objects(b)
    ensures DistinctObjects(a + b) && Objects(a + b) == Objects(a) + Objects(b)
  {
    assert forall p :: p in a + b <==> p in a || p in b;
    forall i, j | 0 <= i < j < |a + b|
      ensures (a + b)[i].ref != (a + b)[j].ref
    {
      if i < |a| <= j {
        assert a[i].ref in Objects(a) && b[j - |a|].ref in Objects(b);
      }
    }
  }

  function Refs(batch: seq<Peer>): (r: seq<nat>)
    ensures |r| == |batch| && forall i :: 0 <= i < |r| ==> r[i] == batch[i].ref
  {
    seq(|batch|, i requires 0 <= i < |batch| => batch[i].ref)
  }

  lemma RefsAreTheObjects(batch: seq<Peer>)
    ensures forall x :: x in Refs(batch) <==> x in Objects(batch)
    ensures DistinctObjects(batch) ==> Distinct(Refs(batch))
  {
    forall x | x in Objects(batch)
      ensures x in Refs(batch)
    {
      var p :| p in batch && p.ref == x;
      var i :| 0 <= i < |batch| && batch[i] == p;
      assert Refs(batch)[i] == x;
    }
  }

  /** The first of the candidate ids that is free; an allocation error ends the search. */
  function FirstFree(candidates: seq<Option<string>>, rooms: map<string, Room>): (r: Option<string>)
    ensures r.Some? ==> r in candidates && r.value !in rooms
  {
    if candidates == [] || candidates[0] == None then None
    else if candidates[0].value !in rooms then candidates[0]
    else FirstFree(candidates[1..], rooms)
  }

  /** Candidate k is free, and every earlier one is taken. */
  ghost predicate IsFirstFree(candidates: seq<Option<string>>, rooms: map<string, Room>, k: nat) {
    && k < |candidates| && candidates[k].Some? && candidates[k].value !in rooms
    && forall j :: 0 <= j < k ==> candidates[j].Some? && candidates[j].value in rooms
  }

  lemma {:induction false} FirstFreeIff(candidates: seq<Option<string>>, rooms: map<string, Room>, id: string)
    ensures FirstFree(candidates, rooms) == Some(id) <==>
      exists k: nat :: IsFirstFree(candidates, rooms, k) && candidates[k] == Some(id)
  {
    if candidates != [] {
      var rest := candidates[1..];
      FirstFreeIff(rest, rooms, id);
      forall k: nat | 0 < k < |candidates| && candidates[0].Some? && candidates[0].value in rooms
        ensures IsFirstFree(candidates, rooms, k) <==> IsFirstFree(rest, rooms, k - 1)
      {
        assert forall j :: 0 <= j < k - 1 ==> rest[j] == candidates[j + 1];
      }
      if FirstFree(candidates, rooms) == Some(id) && candidates[0] != Some(id) {
        var k: nat :| IsFirstFree(rest, rooms, k) && rest[k] == Some(id);
        assert IsFirstFree(candidates, rooms, k + 1);
      } else if candidates[0] == Some(id) && id !in rooms {
        assert IsFirstFree(candidates, rooms, 0);
      }
    }
  }

  function NewRoom(ref: nat, id: string, expiresAt: int): (r: Room) {
    Room(ref, id, expiresAt, MAX_ROOM_PEERS, map[], [], true, false)
  }

  function WithMember(room: Room, p: Peer): (r: Room) {
    room.(peers := room.peers[p.id := p], peerOrder := room.peerOrder + [p.id], cleanupTimer := false)
  }

  function WithoutMember(room: Room, peerID: string): (r: Room) {
    room.(peers := room.peers - {peerID}, peerOrder := WithoutFirst(room.peerOrder, peerID))
  }

  lemma RoomAt(rooms: map<string, Room>, bound: nat, id: string)
    requires RoomsValid(rooms, bound) && id in rooms
    ensures RoomValid(rooms[id]) && rooms[id].id == id && rooms[id].ref < bound
    ensures rooms[id].maxPeers == MAX_ROOM_PEERS && rooms[id].expiryTimer
  {
  }

  lemma OwedMoved(rooms: map<string, Room>, place: map<nat, Place>, moved: set<nat>, to: Place)
    requires PlacesMatch(rooms, place) && !to.Member?
    requires forall x :: x in moved ==> x in place && !place[x].Member?
    ensures PlacesMatch(rooms, Moved(place, moved, to))
  {
  }

  /** Replacing a room by one with the same identity and members. */
  lemma RoomRewritten(rooms: map<string, Room>, place: map<nat, Place>, bound: nat, id: string, room: Room)
    requires RoomsValid(rooms, bound) && PlacesMatch(rooms, place) && id in rooms
    requires RoomValid(room) && room.id == id && room.ref == rooms[id].ref && room.peers == rooms[id].peers
    ensures RoomsValid(rooms[id := room], bound) && PlacesMatch(rooms[id := room], place)
    ensures |rooms[id := room]| == |rooms|
  {
    hide RoomValid;
    assert rooms[id := room].Keys == rooms.Keys;
    SubmapIsNoLarger(rooms[id := room], rooms);
    SubmapIsNoLarger(rooms, rooms[id := room]);
  }

  lemma RoomAdded(rooms: map<string, Room>, place: map<nat, Place>, ref: nat, id: string, expiresAt: int)
    requires RoomsValid(rooms, ref) && PlacesMatch(rooms, place) && id !in rooms
    ensures RoomsValid(rooms[id := NewRoom(ref, id, expiresAt)], ref + 1)
    ensures PlacesMatch(rooms[id := NewRoom(ref, id, expiresAt)], place)
  {
  }

  lemma MemberAdded(rooms: map<string, Room>, place: map<nat, Place>, id: string, p: Peer)
    requires RoomsValid(rooms, p.ref) && PlacesMatch(rooms, place) && (forall x :: x in place ==> x < p.ref)
    requires id in rooms && p.id !in rooms[id].peers && |rooms[id].peers| < rooms[id].maxPeers
    ensures RoomsValid(rooms[id := WithMember(rooms[id], p)], p.ref + 1)
    ensures PlacesMatch(rooms[id := WithMember(rooms[id], p)], place[p.ref := Member(rooms[id].ref, id, p.id)])
  {
    WithMemberIsValid(rooms[id], p);
    MemberPlaced(rooms, place, id, p);
  }

  lemma MemberKeepsRoom(room: Room, p: Peer)
    ensures SameRoom(room, WithMember(room, p))
  {
  }

  lemma WithMemberIsValid(room: Room, p: Peer)
    requires RoomValid(room) && p.id !in room.peers && |room.peers| < room.maxPeers
    ensures RoomValid(WithMember(room, p))
  {
    var r := WithMember(room, p);
    assert forall q :: q in r.peerOrder <==> q in room.peerOrder || q == p.id;
  }

  lemma MemberPlaced(rooms: map<string, Room>, place: map<nat, Place>, id: string, p: Peer)
    requires PlacesMatch(rooms, place) && p.ref !in place && id in rooms && p.id !in rooms[id].peers
    ensures PlacesMatch(rooms[id := WithMember(rooms[id], p)], place[p.ref := Member(rooms[id].ref, id, p.id)])
  {
  }

  lemma WithoutMemberIsValid(room: Room, peerID: string, cleanup: bool)
    requires RoomValid(room) && (cleanup ==> room.peers - {peerID} == map[])
    ensures
      var armed := cleanup || (room.cleanupTimer && room.peers == map[]);
      RoomValid(WithoutMember(room, peerID).(cleanupTimer := armed))
    ensures !cleanup && room.peers != map[] ==> RoomValid(WithoutMember(room, peerID))
  {
    hide WithoutFirst;
    WithoutFirstKeepsOrder(room.peerOrder, peerID);
    SubsetIsNoLarger((room.peers - {peerID}).Keys, room.peers.Keys);
  }

  lemma MemberRemoved(rooms: map<string, Room>, place: map<nat, Place>, bound: nat, id: string, peerID: string,
          room: Room)
    requires RoomsValid(rooms, bound) && PlacesMatch(rooms, place)
    requires id in rooms && peerID in rooms[id].peers
    requires RoomValid(room) && room.id == id && room.ref == rooms[id].ref && room.peers == rooms[id].peers - {peerID}
    ensures RoomsValid(rooms[id := room], bound)
    ensures PlacesMatch(rooms[id := room], place[rooms[id].peers[peerID].ref := Departed])
  {
    hide RoomValid;
    var x := rooms[id].peers[peerID].ref;
    assert place[x] == Member(rooms[id].ref, id, peerID);
  }

  lemma MemberIsPlaced(rooms: map<string, Room>, place: map<nat, Place>, id: string, peerID: string)
    requires PlacesMatch(rooms, place) && id in rooms && peerID in rooms[id].peers
    ensures rooms[id].peers[peerID].ref in place
    ensures place[rooms[id].peers[peerID].ref] == Member(rooms[id].ref, id, peerID)
  {
  }

  lemma DepartureLogged(departed: seq<nat>, handed: seq<nat>, place: map<nat, Place>, ref: nat)
    requires LogMatches(departed, place, Departed) && LogMatches(handed, place, Handed)
    requires ref in place && place[ref].Member?
    ensures LogMatches(departed + [ref], place[ref := Departed], Departed)
    ensures LogMatches(handed, place[ref := Departed], Handed)
  {
    LogGrows(departed, [ref], place, {ref}, Departed);
    LogKept(handed, place, Handed, {ref}, Departed);
    assert place[ref := Departed] == Moved(place, {ref}, Departed);
  }

  lemma NobodyHomeless(rooms: map<string, Room>, place: map<nat, Place>)
    requires PlacesMatch(rooms, place)
    ensures Homeless(rooms, place) == {}
  {
  }

  lemma PlacesWithoutEmptyRoom(rooms: map<string, Room>, place: map<nat, Place>, id: string)
    requires PlacesMatch(rooms, place) && id in rooms && |rooms[id].peers| == 0
    ensures PlacesMatch(rooms - {id}, place)
  {
    assert rooms[id].peers == map[];
  }

  lemma EmptyRoomRemoved(rooms: map<string, Room>, place: map<nat, Place>, bound: nat, id: string)
    requires RoomsValid(rooms, bound) && PlacesMatch(rooms, place) && id in rooms && |rooms[id].peers| == 0
    ensures RoomsValid(rooms - {id}, bound) && PlacesMatch(rooms - {id}, place) && |rooms - {id}| <= |rooms|
  {
    hide PlacesMatch, RoomValid;
    PlacesWithoutEmptyRoom(rooms, place, id);
    SubmapIsNoLarger(rooms - {id}, rooms);
  }

  // ----- what the sections leave, field by field -----

  /** Except for this id, exactly the rooms that have not expired are there, unchanged. */
  ghost predicate PrunedExcept(before: map<string, Room>, after: map<string, Room>, now: int, except: Option<string>) {
    forall id :: Some(id) != except ==>
      (id in after <==> id in before && now < before[id].expiresAt) && (id in after ==> after[id] == before[id])
  }

  /** An id that is free, or whose room has expired, gets a new empty room for two. */
  ghost predicate GainsRoom(before: map<string, Room>, after: map<string, Room>, now: int, ref: nat, id: string,
          expiresAt: int) {
    && !(id in before && now < before[id].expiresAt) && id in after
    && after[id] == Room(ref, id, expiresAt, 2, map[], [], true, false)
  }

  /** The room has not expired and gains this member at the end of its order. */
  ghost predicate GainsMember(before: map<string, Room>, after: map<string, Room>, now: int, id: string, p: Peer) {
    && id in before && now < before[id].expiresAt && id in after
    && var was := before[id];
       after[id] == Room(was.ref, was.id, was.expiresAt, was.maxPeers, was.peers[p.id := p], was.peerOrder + [p.id],
                         was.expiryTimer, false)
  }

  /** The room has not expired and loses its cleanup timer only. */
  ghost predicate OnlyStopsCleanup(before: map<string, Room>, after: map<string, Room>, now: int, id: string) {
    && id in before && now < before[id].expiresAt && id in after
    && var was := before[id];
       after[id] == Room(was.ref, was.id, was.expiresAt, was.maxPeers, was.peers, was.peerOrder, was.expiryTimer, false)
  }

  /** The room has not expired and loses this member. Left empty, it goes at once if asked,
      else it stays with a cleanup timer. */
  ghost predicate LosesMember(before: map<string, Room>, after: map<string, Room>, now: int, id: string, peerID: string,
          atOnce: bool) {
    && id in before && now < before[id].expiresAt && peerID in before[id].peers
    && var was := before[id];
       var empty := forall q :: q in was.peers ==> q == peerID;
       && (id in after <==> !empty || !atOnce)
       && (id in after ==>
             after[id] == Room(was.ref, was.id, was.expiresAt, was.maxPeers, was.peers - {peerID},
                               WithoutFirst(was.peerOrder, peerID), was.expiryTimer, empty))
  }

  lemma PrunedExactly(before: map<string, Room>, now: int)
    ensures PrunedExcept(before, Unexpired(before, now), now, None)
  {
  }

  lemma UpdatedExactly(before: map<string, Room>, now: int, id: string, room: Room)
    ensures PrunedExcept(before, Unexpired(before, now)[id := room], now, Some(id))
    ensures PrunedExcept(before, Unexpired(before, now) - {id}, now, Some(id))
  {
  }

  lemma CreatesExactly(before: map<string, Room>, now: int, ref: nat, id: string, expiresAt: int)
    requires RoomsValid(before, ref) && id !in Unexpired(before, now)
    ensures var after := Unexpired(before, now)[id := NewRoom(ref, id, expiresAt)];
      && PrunedExcept(before, after, now, Some(id)) && GainsRoom(before, after, now, ref, id, expiresAt)
      && DisarmsNothing(before, after)
  {
    UpdatedExactly(before, now, id, NewRoom(ref, id, expiresAt));
    CreatingDisarmsNothing(before, Unexpired(before, now), ref, id, expiresAt);
    hide PrunedExcept, DisarmsNothing, RoomsValid;
  }

  lemma GainsExactly(before: map<string, Room>, now: int, id: string, p: Peer)
    requires id in Unexpired(before, now)
    ensures var kept := Unexpired(before, now);
      GainsMember(before, kept[id := WithMember(kept[id], p)], now, id, p)
    ensures var kept := Unexpired(before, now);
      OnlyStopsCleanup(before, kept[id := kept[id].(cleanupTimer := false)], now, id)
  {
  }

  lemma LeftBehind(room: Room, peerID: string)
    requires RoomValid(room) && peerID in room.peers
    ensures var empty := forall q :: q in room.peers ==> q == peerID;
      && (|WithoutMember(room, peerID).peers| > 0 <==> !empty)
      && WithoutMember(room, peerID) ==
        Room(room.ref, room.id, room.expiresAt, room.maxPeers, room.peers - {peerID},
             WithoutFirst(room.peerOrder, peerID), room.expiryTimer, false)
  {
    hide WithoutFirst;
    var left := room.peers - {peerID};
    assert |left| > 0 <==> left != map[];
    assert forall q :: q in room.peers && q != peerID ==> q in left;
  }

  lemma LosesExactly(before: map<string, Room>, now: int, id: string, peerID: string, atOnce: bool)
    requires id in Unexpired(before, now) && RoomValid(before[id]) && peerID in before[id].peers
    ensures
      var kept := Unexpired(before, now);
      var room := WithoutMember(kept[id], peerID);
      LosesMember(before,
                  if |room.peers| > 0 then kept[id := room]
                  else if atOnce then kept - {id}
                  else kept[id := room.(cleanupTimer := true)], now, id, peerID, atOnce)
  {
    LeftBehind(before[id], peerID);
    hide WithoutFirst, WithoutMember, RoomValid;
  }

  datatype CreateResult = Created(roomID: string, expiresAt: int) | CreateClosed | RoomLimit | NoRoomID

  datatype Status = Status(roomID: string, expiresAt: int, peerCount: nat, maxPeers: nat)

  datatype JoinResult =
    | Joined(peerID: string, peers: seq<string>, existing: seq<string>)
    | JoinClosed | RoomNotFound | RoomFull | NoPeerID | SendFailed

  ghost function OwedIn(place: map<nat, Place>): (s: set<nat>) {
    set x | x in place && place[x] == Owed
  }

  lemma OwedObjects(place: map<nat, Place>)
    ensures forall x :: x in OwedIn(place) <==> x in place && place[x] == Owed
  {
  }

  lemma OwedAfterMove(place: map<nat, Place>, moved: set<nat>, to: Place)
    requires moved <= place.Keys
    ensures OwedIn(Moved(place, moved, to)) == if to == Owed then OwedIn(place) + moved else OwedIn(place) - moved
  {
  }

  lemma OwedAfterUpdate(place: map<nat, Place>, x: nat, to: Place)
    requires to != Owed
    ensures OwedIn(place[x := to]) == OwedIn(place) - {x}
  {
  }

  lemma FewerMembers(room: Room, peerID: string)
    requires peerID in room.peers
    ensures |WithoutMember(room, peerID).peers| < |room.peers|
  {
    assert room.peers.Keys == (room.peers - {peerID}).Keys + {peerID};
  }

  /** Exactly this peer is admitted, or nobody. */
  ghost predicate AdmitsOnly(before: map<nat, Place>, after: map<nat, Place>, one: bool, x: nat) {
    after.Keys == before.Keys + if one then {x} else {}
  }

  lemma NobodyAdmitted(before: map<nat, Place>, after: map<nat, Place>, x: nat)
    requires after.Keys == before.Keys
    ensures AdmitsOnly(before, after, false, x)
  {
  }

  lemma OneAdmitted(place: map<nat, Place>, x: nat, to: Place)
    ensures AdmitsOnly(place, place[x := to], true, x)
  {
  }

  lemma AdmitsOnlyThrough(a: map<nat, Place>, b: map<nat, Place>, c: map<nat, Place>, d: map<nat, Place>,
          one: bool, x: nat)
    requires AdmitsOnly(b, c, one, x) && a.Keys == b.Keys && c.Keys == d.Keys
    ensures AdmitsOnly(a, d, one, x)
  {
  }

  /** The same empty room object is there before and after, its cleanup timer armed before
      and not after. */
  predicate Disarms(before: map<string, Room>, after: map<string, Room>, id: string) {
    && id in before && id in after && before[id].ref == after[id].ref
    && before[id].peers == map[] && after[id].peers == map[]
    && before[id].cleanupTimer && !after[id].cleanupTimer
  }

  ghost predicate DisarmsNothing(before: map<string, Room>, after: map<string, Room>) {
    forall id :: !Disarms(before, after, id)
  }

  lemma SubmapDisarmsNothing(before: map<string, Room>, after: map<string, Room>)
    requires forall id :: id in after ==> id in before && after[id] == before[id]
    ensures DisarmsNothing(before, after)
  {
  }

  lemma CreatingDisarmsNothing(before: map<string, Room>, kept: map<string, Room>, ref: nat, id: string, expiresAt: int)
    requires RoomsValid(before, ref) && forall k :: k in kept ==> k in before && kept[k] == before[k]
    ensures DisarmsNothing(before, kept[id := NewRoom(ref, id, expiresAt)])
  {
    hide RoomValid;
  }

  lemma LeavingDisarmsNothing(before: map<string, Room>, kept: map<string, Room>, roomID: string, peerID: string)
    requires forall k :: k in kept ==> k in before && kept[k] == before[k]
    requires roomID in kept && peerID in kept[roomID].peers
    ensures var room := WithoutMember(kept[roomID], peerID);
      && DisarmsNothing(before, kept - {roomID}) && DisarmsNothing(before, kept[roomID := room])
      && DisarmsNothing(before, kept[roomID := room.(cleanupTimer := true)])
  {
    assert before[roomID].peers != map[];
  }

  lemma JoiningDisarmsNothing(rooms: map<string, Room>, roomID: string, p: Peer)
    requires roomID in rooms
    ensures DisarmsNothing(rooms, rooms[roomID := WithMember(rooms[roomID], p)])
  {
    assert p.id in WithMember(rooms[roomID], p).peers;
  }

  /** Exactly this room loses its cleanup timer, if it had one. */
  ghost predicate DisarmsExactly(before: map<string, Room>, after: map<string, Room>, roomID: string) {
    forall id :: Disarms(before, after, id) <==> id == roomID && id in before && before[id].cleanupTimer
  }

  lemma FailedJoinDisarms(rooms: map<string, Room>, bound: nat, roomID: string)
    requires RoomsValid(rooms, bound) && roomID in rooms
    ensures DisarmsExactly(rooms, rooms[roomID := rooms[roomID].(cleanupTimer := false)], roomID)
  {
    RoomAt(rooms, bound, roomID);
    assert rooms[roomID].cleanupTimer ==> rooms[roomID].peers == map[];
    hide RoomsValid, RoomValid;
  }

  /** A prune before a section leaves these statements as they are. */
  lemma PrunedBefore(before: map<string, Room>, kept: map<string, Room>, after: map<string, Room>, roomID: string)
    requires after.Keys == kept.Keys && forall id :: id in kept ==> id in before && kept[id] == before[id]
    ensures DisarmsNothing(kept, after) ==> DisarmsNothing(before, after)
    ensures roomID in kept && DisarmsExactly(kept, after, roomID) ==> DisarmsExactly(before, after, roomID)
  {
    assert forall id :: Disarms(before, after, id) <==> Disarms(kept, after, id);
  }

  /** A room object stays what it was created as. */
  ghost predicate SameRoom(a: Room, b: Room) {
    && a.ref == b.ref && a.id == b.id && a.expiresAt == b.expiresAt
    && a.maxPeers == b.maxPeers && a.expiryTimer == b.expiryTimer
  }

  /** Every room object allocated below `bound` that is there after was there before, under
      the same id and with the same expiry. */
  ghost predicate RoomsPersist(before: map<string, Room>, bound: nat, after: map<string, Room>) {
    forall id :: id in after && after[id].ref < bound ==> id in before && SameRoom(before[id], after[id])
  }

  lemma SubmapPersists(before: map<string, Room>, bound: nat, after: map<string, Room>)
    requires forall id :: id in after ==> id in before && after[id] == before[id]
    ensures RoomsPersist(before, bound, after)
  {
  }

  lemma RewrittenPersists(rooms: map<string, Room>, bound: nat, id: string, room: Room)
    requires id in rooms && SameRoom(rooms[id], room)
    ensures RoomsPersist(rooms, bound, rooms[id := room])
  {
  }

  lemma AddedPersists(rooms: map<string, Room>, id: string, room: Room)
    ensures RoomsPersist(rooms, room.ref, rooms[id := room])
  {
  }

  lemma PersistsInTwo(a: map<string, Room>, bound: nat, b: map<string, Room>, later: nat, c: map<string, Room>)
    requires RoomsPersist(a, bound, b) && RoomsPersist(b, later, c) && bound <= later
    ensures RoomsPersist(a, bound, c)
  {
  }

  datatype History = History(
    rooms: map<string, Room>, place: map<nat, Place>, departed: seq<nat>, handed: seq<nat>, announced: seq<nat>,
    closed: bool, nextRef: nat)

  /** What no section ever undoes: the logs only grow, room objects stay what they were
      created as, and peers only move on, never to another room. */
  ghost predicate Follows(a: History, b: History) {
    && IsPrefix(a.departed, b.departed) && IsPrefix(a.handed, b.handed)
    && (a.closed ==> b.closed) && a.nextRef <= b.nextRef
    && RoomsPersist(a.rooms, a.nextRef, b.rooms)
    && forall x :: x in a.place ==>
      && x in b.place
      && (a.place[x] == Departed || a.place[x] == Handed ==> b.place[x] == a.place[x])
      && (a.place[x] == Owed ==> b.place[x] == Owed || b.place[x] == Handed)
      && (a.place[x].Member? && b.place[x].Member? ==> b.place[x] == a.place[x])
  }

  lemma FollowsItself(a: History)
    ensures Follows(a, a)
  {
  }

  /** Only rooms change. */
  lemma RoomsFollow(a: History, rooms: map<string, Room>, nextRef: nat)
    requires RoomsPersist(a.rooms, a.nextRef, rooms) && a.nextRef <= nextRef
    ensures Follows(a, a.(rooms := rooms, nextRef := nextRef))
  {
    hide RoomsPersist;
  }

  /** A peer is admitted. */
  lemma AdmissionFollows(a: History, rooms: map<string, Room>, nextRef: nat, x: nat, at: Place)
    requires RoomsPersist(a.rooms, a.nextRef, rooms) && a.nextRef <= nextRef && x !in a.place
    ensures Follows(a, a.(rooms := rooms, nextRef := nextRef, place := a.place[x := at]))
  {
    hide RoomsPersist;
  }

  /** A member leaves. */
  lemma DepartureFollows(a: History, rooms: map<string, Room>, x: nat)
    requires RoomsPersist(a.rooms, a.nextRef, rooms) && x in a.place && a.place[x].Member?
    ensures Follows(a, a.(rooms := rooms, departed := a.departed + [x], place := a.place[x := Departed]))
  {
    hide RoomsPersist;
  }

  /** Rooms go, and their members become owed. */
  lemma EvictionFollows(a: History, rooms: map<string, Room>, moved: set<nat>)
    requires RoomsPersist(a.rooms, a.nextRef, rooms) && moved == Homeless(rooms, a.place)
    ensures Follows(a, a.(rooms := rooms, place := Moved(a.place, moved, Owed)))
  {
    hide RoomsPersist;
  }

  lemma AnnouncingFollows(a: History, b: History)
    requires b == a.(announced := b.announced)
    ensures Follows(a, b)
  {
  }

  lemma FollowsInTwo(a: History, b: History, c: History)
    requires Follows(a, b) && Follows(b, c)
    ensures Follows(a, c)
  {
    PersistsInTwo(a.rooms, a.nextRef, b.rooms, b.nextRef, c.rooms);
    hide RoomsPersist;
  }

  /** What was announced between a and b: `first`, and then every departure, in order. */
  ghost predicate Announces(a: History, first: seq<nat>, b: History) {
    IsPrefix(a.departed, b.departed) && b.announced == a.announced + first + b.departed[|a.departed|..]
  }

  lemma AnnouncesNothing(a: History, b: History)
    requires a.departed == b.departed && a.announced == b.announced
    ensures Announces(a, [], b)
  {
  }

  lemma AnnouncesInTwo(a: History, first: seq<nat>, b: History, c: History)
    requires Announces(a, first, b) && Announces(b, [], c)
    ensures Announces(a, first, c)
  {
    LaterPart(a.departed, b.departed, c.departed);
    SameConcat(a.announced + first, b.departed[|a.departed|..], c.departed[|b.departed|..]);
  }

  lemma LaterPart(a: seq<nat>, b: seq<nat>, c: seq<nat>)
    requires IsPrefix(a, b) && IsPrefix(b, c)
    ensures IsPrefix(a, c) && c[|a|..] == b[|a|..] + c[|b|..]
  {
  }

  lemma SameConcat(a: seq<nat>, b: seq<nat>, c: seq<nat>)
    ensures (a + b) + c == a + (b + c)
  {
  }

  /** A departure announced before any other is announced in its turn. */
  lemma AnnouncesItself(a: History, ref: nat, b: History, c: History)
    requires b.departed == a.departed + [ref] && b.announced == a.announced && Announces(b, [ref], c)
    ensures Announces(a, [], c)
  {
    LaterPart(a.departed, b.departed, c.departed);
    assert b.departed[|a.departed|..] == [ref];
    SameConcat(a.announced, [ref], c.departed[|b.departed|..]);
  }

  /** A log of announcements that is in step with the departures stays so. */
  lemma AnnouncementsKeepStep(a: History, b: History)
    requires Announces(a, [], b) && a.announced == a.departed
    ensures b.announced == b.departed
  {
  }

  /** Hence, with nothing else running, nobody is announced twice. */
  lemma NobodyIsAnnouncedTwice(m: Manager, before: History)
    requires m.Valid() && Announces(before, [], m.Snap()) && before.announced == before.departed
    ensures m.announced == m.departed && Distinct(m.announced)
  {
    hide RoomsValid, PlacesMatch;
    AnnouncementsKeepStep(before, m.Snap());
  }

  ghost predicate NoNewMembers(before: map<string, Room>, after: map<string, Room>) {
    forall id, q :: id in after && q in after[id].peers ==> id in before && q in before[id].peers
  }

  lemma NoNewMembersInItself(a: map<string, Room>)
    ensures NoNewMembers(a, a)
  {
  }

  lemma NoNewMembersInTwo(a: map<string, Room>, b: map<string, Room>, c: map<string, Room>)
    requires NoNewMembers(a, b) && NoNewMembers(b, c)
    ensures NoNewMembers(a, c)
  {
  }

  lemma PruningAdmitsNobody(rooms: map<string, Room>, now: int)
    ensures NoNewMembers(rooms, Unexpired(rooms, now))
  {
  }

  lemma RemovalAdmitsNobody(rooms: map<string, Room>, roomID: string)
    ensures NoNewMembers(rooms, rooms - {roomID})
  {
  }

  lemma StaysOut(before: map<string, Room>, after: map<string, Room>, roomID: string, peerID: string)
    requires NoNewMembers(before, after) && (roomID in before ==> peerID !in before[roomID].peers)
    ensures roomID in after ==> peerID !in after[roomID].peers
  {
  }

  /** A departure logged behind an earlier log keeps its place in the log. */
  lemma LoggedFirst(a: History, b: History, c: History)
    requires Follows(a, b) && Follows(b, c)
    ensures |b.departed| > |a.departed| ==>
      |c.departed| > |a.departed| && c.departed[|a.departed|] == b.departed[|a.departed|]
  {
  }

  lemma LeavingAdmitsNobody(rooms: map<string, Room>, roomID: string, peerID: string)
    requires roomID in rooms
    ensures var room := WithoutMember(rooms[roomID], peerID);
      && NoNewMembers(rooms, rooms - {roomID}) && NoNewMembers(rooms, rooms[roomID := room])
      && NoNewMembers(rooms, rooms[roomID := room.(cleanupTimer := true)])
  {
  }

  /** What a broadcast says: that a peer has left, or the present list of peers. */
  datatype Payload = PeerLeft(ghost ref: nat) | PeerList {
    ghost function Announced(): (r: seq<nat>) {
      if PeerLeft? then [ref] else []
    }
  }

  lemma Announcing(a: History, b: History, payload: Payload, c: History)
    requires b.departed == a.departed && b.announced == a.announced + payload.Announced() && Announces(b, [], c)
    ensures Announces(a, payload.Announced(), c)
  {
  }

  class Manager {
    var rooms: map<string, Room>
    var closed: bool
    var nextRef: nat   // the next identity an allocation gets
    const maxRooms: nat
    const roomTTL: int
    const emptyRoomGrace: int
    // The history: every admitted peer and where it is now, the successful Leaves in
    // order, and the peers passed to close batches in order.
    ghost var place: map<nat, Place>
    ghost var departed: seq<nat>
    ghost var handed: seq<nat>
    ghost var announced: seq<nat>   // the peer-left announcements in order

    constructor (maxRooms: nat, roomTTL: int, emptyRoomGrace: int)
      ensures Valid() && !closed && rooms == map[] && place == map[]
      ensures departed == [] && handed == [] && announced == []
      ensures this.maxRooms == maxRooms && this.roomTTL == roomTTL && this.emptyRoomGrace == emptyRoomGrace
    {
      this.maxRooms, this.roomTTL, this.emptyRoomGrace := maxRooms, roomTTL, emptyRoomGrace;
      rooms, closed, nextRef := map[], false, 0;
      place, departed, handed, announced := map[], [], [], [];
    }

    ghost predicate Valid()
      reads this
    {
      (closed ==> rooms == map[]) && Consistent(rooms)
    }

    /** The invariant, had the room map been this one. */
    ghost predicate Consistent(rooms: map<string, Room>)
      reads this`nextRef, this`place, this`departed, this`handed
    {
      && |rooms| <= maxRooms
      && RoomsValid(rooms, nextRef) && PlacesMatch(rooms, place)
      && (forall x :: x in place ==> x < nextRef)
      && LogMatches(departed, place, Departed) && LogMatches(handed, place, Handed)
    }

    ghost function Owing(): (s: set<nat>)
      reads this
    {
      OwedIn(place)
    }

    ghost function MemberCount(roomID: string): (n: nat)
      reads this
    {
      if roomID in rooms then |rooms[roomID].peers| else 0
    }

    /** This batch has just been taken out of its rooms, and nothing else is newly owed. */
    twostate predicate Took(batch: seq<Peer>)
      reads this
    {
      DistinctObjects(batch) && Objects(batch) !! old(Owing()) && Owing() == old(Owing()) + Objects(batch)
    }

    ghost function Snap(): (h: History)
      reads this
    {
      History(rooms, place, departed, handed, announced, closed, nextRef)
    }

    twostate predicate Extends()
      reads this
    {
      Follows(old(Snap()), Snap())
    }

    /** Nobody is admitted: every member was a member of that room before. */
    twostate predicate Shrinks()
      reads this
    {
      place.Keys == old(place).Keys && NoNewMembers(old(rooms), rooms)
    }

    /** removeRoomLocked: only this very room object. */
    method RemoveRoomLocked(roomID: string, room: nat)
      modifies this`rooms
      ensures rooms ==
        if roomID in old(rooms) && old(rooms)[roomID].ref == room then old(rooms) - {roomID} else old(rooms)
    {
      if roomID !in rooms || rooms[roomID].ref != room {
        return;
      }
      rooms := rooms - {roomID};
    }

    /** Notes that these members have left the rooms that are gone from the map. */
    ghost method RecordEviction(before: map<string, Room>, moved: set<nat>)
      requires Consistent(before) && (closed ==> rooms == map[])
      requires forall id :: id in rooms ==> id in before && rooms[id] == before[id]
      requires moved == Homeless(rooms, place)
      modifies this`place
      ensures Valid() && Extends() && Follows(old(Snap()).(rooms := before), Snap())
      ensures place == Moved(old(place), moved, Owed)
      ensures moved !! old(Owing()) && Owing() == old(Owing()) + moved
    {
      hide RoomsPersist, Follows, RoomsValid, RoomValid, PlacesMatch, LogMatches, OwedIn, Moved;
      OwedObjects(place);
      OwedAfterMove(place, moved, Owed);
      SubmapIsNoLarger(rooms, before);
      SubmapIsValid(before, nextRef, rooms);
      SubmapPersists(before, nextRef, rooms);
      SubmapPersists(rooms, nextRef, rooms);
      EvictionFollows(Snap(), rooms, moved);
      EvictionFollows(Snap().(rooms := before), rooms, moved);
      RoomsEvicted(before, place, rooms, moved, Owed);
      LogKept(departed, place, Departed, moved, Owed);
      LogKept(handed, place, Handed, moved, Owed);
      place := Moved(place, moved, Owed);
    }

    /** The loop of pruneExpiredLocked. */
    method RemoveExpired(now: int) returns (expired: seq<Peer>)
      requires Valid()
      modifies this`rooms
      ensures rooms == Unexpired(old(rooms), now)
      ensures DistinctObjects(expired) && Objects(expired) == Homeless(rooms, place)
    {
      expired := [];
      var all := rooms;
      var todo := rooms.Keys;
      hide RoomValid, PlacesMatch, LogMatches, Homeless, Objects, DistinctObjects, Pruning, AreMembers;
      NobodyHomeless(rooms, place);
      NoObjects();
      while todo != {}
        invariant todo <= all.Keys
        invariant rooms == Pruning(all, todo, now)
        invariant DistinctObjects(expired) && Objects(expired) == Homeless(rooms, place)
        decreases todo
      {
        var id :| id in todo;
        PruneOne(all, todo, now, id);
        if now >= all[id].expiresAt {
          var members := PeerStates(all[id]);
          EvictOne(all, place, nextRef, rooms, expired, id, members);
          expired := expired + members;
          RemoveRoomLocked(id, all[id].ref);
        }
        todo := todo - {id};
      }
    }

    /** pruneExpiredLocked: the expired rooms go, and their members are the result. */
    method PruneExpiredLocked(now: int) returns (expired: seq<Peer>)
      requires Valid()
      modifies this`rooms, this`place
      ensures Valid() && Extends()
      ensures rooms == Unexpired(old(rooms), now)
      ensures DistinctObjects(expired) && Objects(expired) == Homeless(rooms, old(place))
      ensures place == Moved(old(place), Objects(expired), Owed) && Took(expired)
      ensures PrunedExcept(old(rooms), rooms, now, None)
    {
      PrunedExactly(rooms, now);
      hide PrunedExcept, Follows, RoomsPersist;
      ghost var before := rooms;
      expired := RemoveExpired(now);
      RecordEviction(before, Objects(expired));
    }

    /** The member objects of a room, in some order. */
    static method PeerStates(room: Room) returns (members: seq<Peer>)
      requires RoomValid(room)
      ensures AreMembers(members, room)
    {
      members := [];
      var todo := room.peers.Keys;
      while todo != {}
        invariant todo <= room.peers.Keys
        invariant forall p :: p in members <==> p.id in room.peers && room.peers[p.id] == p && p.id !in todo
        invariant forall i, j :: 0 <= i < j < |members| ==> members[i].id != members[j].id
        decreases todo
      {
        var q :| q in todo;
        members := members + [room.peers[q]];
        todo := todo - {q};
      }
    }

    /** closePeers: passes a batch of peers that are out of their rooms to one close batch. */
    method ClosePeers(batch: seq<Peer>)
      requires Valid() && DistinctObjects(batch) && Objects(batch) <= Owing()
      modifies this`place, this`handed
      ensures Valid() && Extends()
      ensures place == Moved(old(place), Objects(batch), Handed)
      ensures handed == old(handed) + Refs(batch)
      ensures Owing() == old(Owing()) - Objects(batch)
    {
      hide RoomsValid, PlacesMatch, LogMatches, OwedIn, DistinctObjects;
      OwedObjects(place);
      OwedAfterMove(place, Objects(batch), Handed);
      RefsAreTheObjects(batch);
      OwedMoved(rooms, place, Objects(batch), Handed);
      LogGrows(handed, Refs(batch), place, Objects(batch), Handed);
      LogKept(departed, place, Departed, Objects(batch), Handed);
      place := Moved(place, Objects(batch), Handed);
      handed := handed + Refs(batch);
    }

    /** The id loop of Create: at most eight attempts, each may fail. */
    method AllocateRoomID(candidates: seq<Option<string>>) returns (r: Option<string>)
      requires |candidates| == 8
      ensures r == FirstFree(candidates, rooms)
    {
      var id: string := "";
      var attempt := 0;
      while attempt < 8
        invariant 0 <= attempt <= 8
        invariant FirstFree(candidates, rooms) == FirstFree(candidates[attempt..], rooms)
        invariant attempt > 0 ==> id in rooms
      {
        var candidate := candidates[attempt];
        assert candidates[attempt..][1..] == candidates[attempt + 1..];
        if candidate == None {
          return None;
        }
        id := candidate.value;
        if id !in rooms {
          break;
        }
        attempt := attempt + 1;
      }
      if id in rooms {
        return None;
      }
      return Some(id);
    }

    method AddRoom(id: string, expiresAt: int)
      requires Valid() && !closed && |rooms| < maxRooms && id !in rooms
      modifies this`rooms, this`nextRef
      ensures Valid() && Extends()
      ensures nextRef == old(nextRef) + 1 && rooms == old(rooms)[id := NewRoom(old(nextRef), id, expiresAt)]
    {
      hide RoomsValid, PlacesMatch, LogMatches, Follows, RoomsPersist;
      RoomAdded(rooms, place, nextRef, id, expiresAt);
      AddedPersists(rooms, id, NewRoom(nextRef, id, expiresAt));
      RoomsFollow(Snap(), rooms[id := NewRoom(nextRef, id, expiresAt)], nextRef + 1);
      rooms := rooms[id := NewRoom(nextRef, id, expiresAt)];
      nextRef := nextRef + 1;
    }

    method AddMember(roomID: string, peerID: string, conn: nat)
      requires Valid() && roomID in rooms && peerID !in rooms[roomID].peers && |rooms[roomID].peers| < MAX_ROOM_PEERS
      modifies this`rooms, this`nextRef, this`place
      ensures Valid() && Extends()
      ensures nextRef == old(nextRef) + 1
      ensures rooms == old(rooms)[roomID := WithMember(old(rooms)[roomID], Peer(old(nextRef), peerID, conn))]
      ensures place == old(place)[old(nextRef) := Member(old(rooms)[roomID].ref, roomID, peerID)]
      ensures Owing() == old(Owing())
    {
      hide RoomsValid, RoomValid, PlacesMatch, LogMatches, OwedIn, WithMember, Follows, RoomsPersist;
      OwedAfterUpdate(place, nextRef, Member(rooms[roomID].ref, roomID, peerID));
      OwedObjects(place);
      RoomAt(rooms, nextRef, roomID);
      var p := Peer(nextRef, peerID, conn);
      var grown := rooms[roomID := WithMember(rooms[roomID], p)];
      ghost var placed := place[nextRef := Member(rooms[roomID].ref, roomID, peerID)];
      MemberAdded(rooms, place, roomID, p);
      MemberKeepsRoom(rooms[roomID], p);
      RewrittenPersists(rooms, nextRef, roomID, WithMember(rooms[roomID], p));
      AdmissionFollows(Snap(), grown, nextRef + 1, nextRef, placed[nextRef]);
      SubmapIsNoLarger(grown, rooms);
      LogIgnoresMember(departed, place, Departed, nextRef, placed[nextRef]);
      LogIgnoresMember(handed, place, Handed, nextRef, placed[nextRef]);
      rooms, place, nextRef := grown, placed, nextRef + 1;
    }

    method StopCleanup(roomID: string)
      requires Valid() && roomID in rooms
      modifies this`rooms
      ensures Valid() && Extends()
      ensures rooms == old(rooms)[roomID := old(rooms)[roomID].(cleanupTimer := false)]
    {
      hide RoomsValid, PlacesMatch, LogMatches, Follows, RoomsPersist;
      var room := rooms[roomID].(cleanupTimer := false);
      RoomAt(rooms, nextRef, roomID);
      RewrittenPersists(rooms, nextRef, roomID, room);
      RoomsFollow(Snap(), rooms[roomID := room], nextRef);
      RoomRewritten(rooms, place, nextRef, roomID, room);
      rooms := rooms[roomID := room];
    }

    /** Create, under the lock; the candidates are the ids newRoomID would return. */
    method CreateSection(now: int, candidates: seq<Option<string>>) returns (r: CreateResult, expired: seq<Peer>)
      requires Valid() && |candidates| == 8
      modifies this`rooms, this`place, this`nextRef
      ensures Valid() && Extends() && Took(expired)
      ensures DisarmsNothing(old(rooms), rooms)
      ensures old(closed) ==> r == CreateClosed && expired == [] && rooms == old(rooms) && place == old(place)
      ensures !old(closed) ==>
        var kept := Unexpired(old(rooms), now);
        && DistinctObjects(expired) && Objects(expired) == Homeless(kept, old(place))
        && place == Moved(old(place), Objects(expired), Owed)
        && if |kept| >= maxRooms then r == RoomLimit && rooms == kept
           else
             match FirstFree(candidates, kept)
             case None => r == NoRoomID && rooms == kept
             case Some(id) =>
               r == Created(id, now + roomTTL) && rooms == kept[id := NewRoom(old(nextRef), id, now + roomTTL)]
      ensures !old(closed) ==> PrunedExcept(old(rooms), rooms, now, if r.Created? then Some(r.roomID) else None)
      ensures r.Created? ==> GainsRoom(old(rooms), rooms, now, old(nextRef), r.roomID, now + roomTTL)
    {
      hide RoomsValid, PlacesMatch, LogMatches, Moved, Unexpired, OwedIn, DisarmsNothing, NewRoom, Follows,
           PrunedExcept, GainsRoom, FirstFree, Homeless, Objects, DistinctObjects;
      ghost var before, start := rooms, Snap();
      NoObjects();
      PrunedExactly(before, now);
      FollowsItself(start);
      SubmapDisarmsNothing(before, before);
      SubmapDisarmsNothing(before, Unexpired(before, now));
      if closed {
        return CreateClosed, [];
      }
      expired := PruneExpiredLocked(now);
      if |rooms| >= maxRooms {
        return RoomLimit, expired;
      }
      var id := AllocateRoomID(candidates);
      if id == None {
        return NoRoomID, expired;
      }
      CreatesExactly(before, now, nextRef, id.value, now + roomTTL);
      ghost var pruned := Snap();
      AddRoom(id.value, now + roomTTL);
      FollowsInTwo(start, pruned, Snap());
      return Created(id.value, now + roomTTL), expired;
    }

    /** Status, under the lock. */
    method StatusSection(roomID: string, now: int) returns (r: Option<Status>, expired: seq<Peer>)
      requires Valid()
      modifies this`rooms, this`place
      ensures Valid() && Extends() && Took(expired)
      ensures DisarmsNothing(old(rooms), rooms)
      ensures old(closed) ==> r == None && expired == [] && rooms == old(rooms) && place == old(place)
      ensures !old(closed) ==>
        && rooms == Unexpired(old(rooms), now)
        && DistinctObjects(expired) && Objects(expired) == Homeless(rooms, old(place))
        && place == Moved(old(place), Objects(expired), Owed)
        && r == if roomID in rooms then
              Some(Status(roomID, rooms[roomID].expiresAt, |rooms[roomID].peers|, MAX_ROOM_PEERS))
            else None
      ensures !old(closed) ==> PrunedExcept(old(rooms), rooms, now, None)
    {
      hide PlacesMatch, LogMatches, Moved, Unexpired, Homeless, OwedIn, DisarmsNothing, PrunedExcept;
      PrunedExactly(rooms, now);
      SubmapDisarmsNothing(rooms, rooms);
      SubmapDisarmsNothing(rooms, Unexpired(rooms, now));
      if closed {
        return None, [];
      }
      expired := PruneExpiredLocked(now);
      if roomID !in rooms {
        return None, expired;
      }
      var room := rooms[roomID];
      return Some(Status(room.id, room.expiresAt, |room.peers|, room.maxPeers)), expired;
    }

    /** Adds the member, and lists the peers and the members to notify. */
    method AddAndList(roomID: string, peerID: string, conn: nat) returns (r: JoinResult)
      requires Valid() && roomID in rooms && peerID !in rooms[roomID].peers && |rooms[roomID].peers| < MAX_ROOM_PEERS
      modifies this`rooms, this`nextRef, this`place
      ensures Valid() && Extends() && Owing() == old(Owing())
      ensures rooms == old(rooms)[roomID := WithMember(old(rooms)[roomID], Peer(old(nextRef), peerID, conn))]
      ensures place == old(place)[old(nextRef) := Member(old(rooms)[roomID].ref, roomID, peerID)]
      ensures r.Joined? && r.peerID == peerID && r.peers == old(rooms)[roomID].peerOrder + [peerID]
      ensures Distinct(r.existing) && forall q :: q in r.existing <==> q in old(rooms)[roomID].peers
    {
      hide RoomsValid, RoomValid, PlacesMatch, LogMatches, OwedIn, Distinct, Follows;
      AddMember(roomID, peerID, conn);
      RoomAt(rooms, nextRef, roomID);
      var peers := PublicPeers(rooms[roomID]);
      var existing := Recipients(rooms[roomID], peerID);
      return Joined(peerID, peers, existing);
    }

    /** Join once the expired rooms are gone; a room found is left without a cleanup timer
        even when no peer id can be allocated. */
    method Admit(roomID: string, conn: nat, newID: Option<string>) returns (r: JoinResult)
      requires Valid()
      requires newID.Some? && roomID in rooms ==> newID.value !in rooms[roomID].peers  // ids are fresh for the room
      modifies this`rooms, this`place, this`nextRef
      ensures Valid() && Extends() && Owing() == old(Owing()) && rooms.Keys == old(rooms).Keys
      ensures AdmitsOnly(old(place), place, r.Joined?, old(nextRef))
      ensures r == NoPeerID ==> DisarmsExactly(old(rooms), rooms, roomID)
      ensures r != NoPeerID ==> DisarmsNothing(old(rooms), rooms)
      ensures roomID !in old(rooms) ==> r == RoomNotFound && rooms == old(rooms) && place == old(place)
      ensures roomID in old(rooms) ==>
        var room := old(rooms)[roomID];
        if |room.peers| >= MAX_ROOM_PEERS then r == RoomFull && rooms == old(rooms) && place == old(place)
        else if newID.None? || newID.value == "" then
          r == NoPeerID && rooms == old(rooms)[roomID := room.(cleanupTimer := false)] && place == old(place)
        else
          var p := Peer(old(nextRef), newID.value, conn);
          && r.Joined? && r.peerID == p.id && r.peers == room.peerOrder + [p.id]
          && (forall q :: q in r.existing <==> q in room.peers) && Distinct(r.existing)
          && rooms == old(rooms)[roomID := WithMember(room, p)]
          && place == old(place)[p.ref := Member(room.ref, roomID, p.id)]
    {
      hide RoomsValid, RoomValid, PlacesMatch, LogMatches, OwedIn, Distinct, DisarmsNothing, DisarmsExactly,
           AdmitsOnly, Follows;
      SubmapDisarmsNothing(rooms, rooms);
      NobodyAdmitted(place, place, nextRef);
      ghost var start := Snap();
      FollowsItself(start);
      if roomID !in rooms {
        return RoomNotFound;
      }
      ghost var room := rooms[roomID];
      RoomAt(rooms, nextRef, roomID);
      if |rooms[roomID].peers| >= rooms[roomID].maxPeers {
        return RoomFull;
      }
      FailedJoinDisarms(rooms, nextRef, roomID);
      StopCleanup(roomID);
      if newID == None || newID.value == "" {
        return NoPeerID;
      }
      ghost var p := Peer(nextRef, newID.value, conn);
      Overwritten(old(rooms), roomID, room.(cleanupTimer := false), WithMember(room, p));
      JoiningDisarmsNothing(old(rooms), roomID, p);
      OneAdmitted(place, p.ref, Member(room.ref, roomID, p.id));
      ghost var stopped := Snap();
      r := AddAndList(roomID, newID.value, conn);
      FollowsInTwo(start, stopped, Snap());
    }

    /** Join, under the lock. */
    method JoinSection(roomID: string, conn: nat, now: int, newID: Option<string>)
      returns (r: JoinResult, expired: seq<Peer>)
      requires Valid()
      requires newID.Some? && roomID in rooms ==> newID.value !in rooms[roomID].peers
      modifies this`rooms, this`place, this`nextRef
      ensures Valid() && Extends() && Took(expired)
      ensures r == NoPeerID ==> DisarmsExactly(old(rooms), rooms, roomID)
      ensures r != NoPeerID ==> DisarmsNothing(old(rooms), rooms)
      ensures AdmitsOnly(old(place), place, r.Joined?, old(nextRef))
      ensures old(closed) ==> r == JoinClosed && expired == [] && rooms == old(rooms) && place == old(place)
      ensures !old(closed) ==>
        var kept := Unexpired(old(rooms), now);
        var moved := Moved(old(place), Objects(expired), Owed);
        && DistinctObjects(expired) && Objects(expired) == Homeless(kept, old(place))
        && (r == RoomNotFound <==> roomID !in kept)
        && (r.Joined? <==>
              roomID in kept && |kept[roomID].peers| < MAX_ROOM_PEERS && newID.Some? && newID.value != "")
        && (r.Joined? ==>
              var p := Peer(old(nextRef), newID.value, conn);
              && r.peerID == p.id && rooms == kept[roomID := WithMember(kept[roomID], p)]
              && place == moved[p.ref := Member(kept[roomID].ref, roomID, p.id)])
        && (!r.Joined? ==> place == moved)
        && (r == RoomFull <==> roomID in kept && |kept[roomID].peers| >= MAX_ROOM_PEERS)
        && (r.Joined? || r == RoomNotFound || r == RoomFull || r == NoPeerID)
        && (r == NoPeerID ==> rooms == kept[roomID := kept[roomID].(cleanupTimer := false)])
        && (r == RoomNotFound || r == RoomFull ==> rooms == kept)
      ensures !old(closed) ==>
        && PrunedExcept(old(rooms), rooms, now, if r.Joined? || r == NoPeerID then Some(roomID) else None)
        && (r.Joined? ==> GainsMember(old(rooms), rooms, now, roomID, Peer(old(nextRef), newID.value, conn)))
        && (r == NoPeerID ==> OnlyStopsCleanup(old(rooms), rooms, now, roomID))
    {
      hide RoomsValid, RoomValid, PlacesMatch, LogMatches, Moved, Unexpired, Homeless, OwedIn, WithMember,
           DisarmsNothing, DisarmsExactly, Follows, Objects, Distinct, DistinctObjects, AdmitsOnly,
           PrunedExcept, GainsMember, OnlyStopsCleanup;
      ghost var before, kept, start := rooms, Unexpired(rooms, now), Snap();
      PrunedExactly(before, now);
      if roomID in kept {
        UpdatedExactly(before, now, roomID, kept[roomID].(cleanupTimer := false));
        if newID.Some? {
          ghost var p := Peer(nextRef, newID.value, conn);
          UpdatedExactly(before, now, roomID, WithMember(kept[roomID], p));
          GainsExactly(before, now, roomID, p);
        } else {
          GainsExactly(before, now, roomID, Peer(nextRef, "", conn));
        }
      }
      SubmapDisarmsNothing(before, before);
      FollowsItself(start);
      NobodyAdmitted(place, place, nextRef);
      ghost var placeBefore := place;
      if closed {
        NoObjects();
        return JoinClosed, [];
      }
      expired := PruneExpiredLocked(now);
      ghost var pruned := Snap();
      ghost var placePruned := place;
      r := Admit(roomID, conn, newID);
      FollowsInTwo(start, pruned, Snap());
      AdmitsOnlyThrough(placeBefore, placePruned, place, place, r.Joined?, old(nextRef));
      PrunedBefore(before, kept, rooms, roomID);
    }

    /** The deletion in Leave: the member goes from the map and from the join order. */
    method TakeOut(roomID: string, peerID: string) returns (peers: seq<string>)
      requires Valid() && roomID in rooms && peerID in rooms[roomID].peers
      modifies this`rooms, this`place, this`departed
      ensures Valid() && Extends() && Owing() == old(Owing())
      ensures place.Keys == old(place).Keys
      ensures peers == WithoutFirst(old(rooms)[roomID].peerOrder, peerID)
      ensures departed == old(departed) + [old(rooms)[roomID].peers[peerID].ref]
      ensures place == old(place)[old(rooms)[roomID].peers[peerID].ref := Departed]
      ensures rooms == old(rooms)[roomID := WithoutMember(old(rooms)[roomID], peerID)]
    {
      hide RoomsValid, RoomValid, PlacesMatch, LogMatches, WithoutFirst, Follows, RoomsPersist;
      var before := rooms[roomID];
      RoomAt(rooms, nextRef, roomID);
      var order := RemovePeerOrder(before.peerOrder, peerID);
      var room := before.(peerOrder := order, peers := before.peers - {peerID});
      ghost var ref := before.peers[peerID].ref;
      WithoutMemberIsValid(before, peerID, false);
      assert before.peers != map[];
      MemberIsPlaced(rooms, place, roomID, peerID);
      OwedAfterUpdate(place, ref, Departed);
      MemberRemoved(rooms, place, nextRef, roomID, peerID, room);
      SubmapIsNoLarger(rooms[roomID := room], rooms);
      DepartureLogged(departed, handed, place, ref);
      RewrittenPersists(rooms, nextRef, roomID, room);
      DepartureFollows(Snap(), rooms[roomID := room], ref);
      peers := PublicPeers(room);
      rooms := rooms[roomID := room];
      place, departed := place[ref := Departed], departed + [ref];
    }

    /** scheduleCleanup of a room that has just been left empty. */
    method ScheduleCleanup(roomID: string)
      requires Valid() && roomID in rooms && |rooms[roomID].peers| == 0
      modifies this`rooms
      ensures Valid() && Extends() && rooms == old(rooms)[roomID := old(rooms)[roomID].(cleanupTimer := true)]
    {
      hide RoomsValid, PlacesMatch, LogMatches, Follows, RoomsPersist;
      var room := rooms[roomID].(cleanupTimer := true);
      RoomAt(rooms, nextRef, roomID);
      RewrittenPersists(rooms, nextRef, roomID, room);
      RoomsFollow(Snap(), rooms[roomID := room], nextRef);
      RoomRewritten(rooms, place, nextRef, roomID, room);
      rooms := rooms[roomID := room];
    }

    /** Leave of a present member: a room left empty is removed at once or gets a cleanup timer. */
    method Dismiss(roomID: string, peerID: string, immediateCleanup: bool) returns (peers: seq<string>)
      requires Valid() && roomID in rooms && peerID in rooms[roomID].peers
      modifies this`rooms, this`place, this`departed
      ensures Valid() && Extends() && Owing() == old(Owing())
      ensures place.Keys == old(place).Keys
      ensures peers == WithoutFirst(old(rooms)[roomID].peerOrder, peerID)
      ensures departed == old(departed) + [old(rooms)[roomID].peers[peerID].ref]
      ensures place == old(place)[old(rooms)[roomID].peers[peerID].ref := Departed]
      ensures var room := WithoutMember(old(rooms)[roomID], peerID);
        rooms ==
          if |room.peers| > 0 then old(rooms)[roomID := room]
          else if immediateCleanup || emptyRoomGrace == 0 then old(rooms) - {roomID}
          else old(rooms)[roomID := room.(cleanupTimer := true)]
    {
      hide RoomsValid, RoomValid, PlacesMatch, LogMatches, WithoutFirst, OwedIn, Distinct, Follows, RoomsPersist;
      ghost var start := Snap();
      peers := TakeOut(roomID, peerID);
      ghost var taken := Snap();
      ghost var room := WithoutMember(old(rooms)[roomID], peerID);
      Overwritten(old(rooms), roomID, room, room.(cleanupTimer := true));
      if |rooms[roomID].peers| == 0 {
        if immediateCleanup || emptyRoomGrace == 0 {
          EmptyRoomRemoved(rooms, place, nextRef, roomID);
          SubmapPersists(rooms, nextRef, rooms - {roomID});
          RoomsFollow(taken, rooms - {roomID}, nextRef);
          RemoveRoomLocked(roomID, rooms[roomID].ref);
        } else {
          ScheduleCleanup(roomID);
        }
        FollowsInTwo(start, taken, Snap());
      }
    }

    /** Leave, under the lock. */
    method LeaveSection(roomID: string, peerID: string, immediateCleanup: bool, now: int)
      returns (left: bool, peers: seq<string>, expired: seq<Peer>)
      requires Valid()
      modifies this`rooms, this`place, this`departed
      ensures Valid() && Extends() && Took(expired)
      ensures DisarmsNothing(old(rooms), rooms)
      ensures old(closed) ==> !left && expired == [] && rooms == old(rooms) && place == old(place)
      ensures place.Keys == old(place).Keys
      ensures !left ==> departed == old(departed)
      ensures !old(closed) ==>
        var kept := Unexpired(old(rooms), now);
        var moved := Moved(old(place), Objects(expired), Owed);
        && DistinctObjects(expired) && Objects(expired) == Homeless(kept, old(place))
        && (left <==> roomID in kept && peerID in kept[roomID].peers)
        && (!left ==> rooms == kept && place == moved)
        && (left ==>
              var ref := kept[roomID].peers[peerID].ref;
              var room := WithoutMember(kept[roomID], peerID);
              && departed == old(departed) + [ref] && place == moved[ref := Departed]
              && peers == room.peerOrder
              && rooms ==
                if |room.peers| > 0 then kept[roomID := room]
                else if immediateCleanup || emptyRoomGrace == 0 then kept - {roomID}
                else kept[roomID := room.(cleanupTimer := true)])
      ensures !old(closed) ==>
        && PrunedExcept(old(rooms), rooms, now, if left then Some(roomID) else None)
        && (left ==> LosesMember(old(rooms), rooms, now, roomID, peerID, immediateCleanup || emptyRoomGrace == 0))
    {
      hide RoomsValid, RoomValid, PlacesMatch, LogMatches, Moved, Unexpired, Homeless, WithoutFirst, OwedIn,
           DisarmsNothing, Follows, PrunedExcept, LosesMember;
      left, peers, expired := false, [], [];
      PrunedExactly(rooms, now);
      ghost var before, kept, start := rooms, Unexpired(rooms, now), Snap();
      FollowsItself(start);
      SubmapDisarmsNothing(before, before);
      SubmapDisarmsNothing(before, kept);
      if closed {
        return;
      }
      expired := PruneExpiredLocked(now);
      if roomID !in rooms || peerID !in rooms[roomID].peers {
        return;
      }
      LeavingDisarmsNothing(before, kept, roomID, peerID);
      RoomAt(before, start.nextRef, roomID);
      LosesExactly(before, now, roomID, peerID, immediateCleanup || emptyRoomGrace == 0);
      ghost var room := WithoutMember(kept[roomID], peerID);
      UpdatedExactly(before, now, roomID, room);
      UpdatedExactly(before, now, roomID, room.(cleanupTimer := true));
      ghost var pruned := Snap();
      peers := Dismiss(roomID, peerID, immediateCleanup);
      FollowsInTwo(start, pruned, Snap());
      left := true;
    }

    /** The snapshot of Relay, under the lock. */
    method RelaySection(roomID: string, peerID: string, now: int)
      returns (ok: bool, recipients: seq<string>, expired: seq<Peer>)
      requires Valid()
      modifies this`rooms, this`place
      ensures Valid() && Extends() && Took(expired)
      ensures DisarmsNothing(old(rooms), rooms)
      ensures old(closed) ==> !ok && expired == [] && rooms == old(rooms) && place == old(place)
      ensures !old(closed) ==>
        && rooms == Unexpired(old(rooms), now)
        && DistinctObjects(expired) && Objects(expired) == Homeless(rooms, old(place))
        && place == Moved(old(place), Objects(expired), Owed)
        && (ok <==> roomID in rooms && peerID in rooms[roomID].peers)
        && PrunedExcept(old(rooms), rooms, now, None)
      ensures ok ==> Distinct(recipients) && forall q :: q in recipients <==> q in rooms[roomID].peers && q != peerID
    {
      hide RoomsValid, RoomValid, PlacesMatch, LogMatches, Moved, Unexpired, Homeless, OwedIn, DisarmsNothing,
           PrunedExcept;
      PrunedExactly(rooms, now);
      ok, recipients, expired := false, [], [];
      SubmapDisarmsNothing(rooms, rooms);
      SubmapDisarmsNothing(rooms, Unexpired(rooms, now));
      if closed {
        return;
      }
      expired := PruneExpiredLocked(now);
      if roomID !in rooms || peerID !in rooms[roomID].peers {
        return;
      }
      RoomAt(rooms, nextRef, roomID);
      recipients := Recipients(rooms[roomID], peerID);
      ok := true;
    }

    /** The snapshot of broadcast, under the lock; it does not prune. */
    method BroadcastSection(roomID: string, exceptPeerID: string) returns (recipients: seq<string>)
      requires Valid()
      ensures Distinct(recipients)
      ensures forall q :: q in recipients <==> roomID in rooms && q in rooms[roomID].peers && q != exceptPeerID
    {
      if roomID !in rooms || closed {
        return [];
      }
      RoomAt(rooms, nextRef, roomID);
      recipients := Recipients(rooms[roomID], exceptPeerID);
    }

    /** The expiry callback armed for the room object `expected`, whenever it runs. It
        removes that very object or nothing, even when the id has been reused. */
    method ExpireSection(roomID: string, expected: nat) returns (peers: seq<Peer>)
      requires Valid()
      modifies this`rooms, this`place
      ensures Valid() && Extends() && Took(peers)
      ensures DisarmsNothing(old(rooms), rooms)
      ensures if roomID in old(rooms) && old(rooms)[roomID].ref == expected && !old(closed) then
          && rooms == old(rooms) - {roomID} && AreMembers(peers, old(rooms)[roomID])
          && DistinctObjects(peers) && place == Moved(old(place), Objects(peers), Owed)
          && Objects(peers) == Homeless(rooms, old(place))
        else rooms == old(rooms) && place == old(place) && peers == []
    {
      hide RoomsValid, RoomValid, PlacesMatch, LogMatches, Moved, AreMembers, OwedIn, DisarmsNothing, Follows, Homeless;
      SubmapDisarmsNothing(rooms, rooms);
      SubmapDisarmsNothing(rooms, rooms - {roomID});
      FollowsItself(Snap());
      if roomID !in rooms || rooms[roomID].ref != expected || closed {
        return [];
      }
      ghost var before := rooms;
      RoomAt(rooms, nextRef, roomID);
      peers := PeerStates(rooms[roomID]);
      SoleEviction(rooms, place, nextRef, roomID, peers);
      RemoveRoomLocked(roomID, expected);
      RecordEviction(before, Objects(peers));
    }

    /** The cleanup callback armed for the room object `expected`, whenever it runs: it
        removes that very object, and only while it is empty. */
    method CleanupCallback(roomID: string, expected: nat)
      requires Valid()
      modifies this`rooms
      ensures Valid() && Extends()
      ensures DisarmsNothing(old(rooms), rooms)
      ensures rooms ==
        if roomID in old(rooms) && old(rooms)[roomID].ref == expected && |old(rooms)[roomID].peers| == 0 && !closed
        then old(rooms) - {roomID} else old(rooms)
    {
      hide RoomsValid, RoomValid, PlacesMatch, LogMatches, DisarmsNothing, Follows, RoomsPersist;
      SubmapDisarmsNothing(rooms, rooms);
      SubmapDisarmsNothing(rooms, rooms - {roomID});
      FollowsItself(Snap());
      SubmapPersists(rooms, nextRef, rooms - {roomID});
      RoomsFollow(Snap(), rooms - {roomID}, nextRef);
      if roomID !in rooms || rooms[roomID].ref != expected || |rooms[roomID].peers| != 0 || closed {
        return;
      }
      EmptyRoomRemoved(rooms, place, nextRef, roomID);
      RemoveRoomLocked(roomID, expected);
    }

    /** Close, under the lock: false for every caller but the first. */
    method CloseSection() returns (first: bool, peers: seq<Peer>)
      requires Valid()
      modifies this`rooms, this`place, this`closed
      ensures Valid() && Extends() && Took(peers) && closed && first == !old(closed)
      ensures DisarmsNothing(old(rooms), rooms)
      ensures first ==>
        && rooms == map[] && DistinctObjects(peers) && Objects(peers) == Homeless(map[], old(place))
        && place == Moved(old(place), Objects(peers), Owed)
      ensures !first ==> peers == [] && rooms == old(rooms) && place == old(place)
    {
      hide RoomsValid, RoomValid, PlacesMatch, LogMatches, Moved, AreMembers, OwedIn, DisarmsNothing;
      SubmapDisarmsNothing(rooms, rooms);
      SubmapDisarmsNothing(rooms, map[]);
      if closed {
        return false, [];
      }
      closed := true;
      ghost var before := rooms;
      peers := RemoveAll();
      RecordEviction(before, Objects(peers));
      return true, peers;
    }

    /** The loop of Close. */
    method RemoveAll() returns (peers: seq<Peer>)
      requires Consistent(rooms)
      modifies this`rooms
      ensures rooms == map[] && DistinctObjects(peers) && Objects(peers) == Homeless(map[], place)
    {
      hide RoomsValid, RoomValid, PlacesMatch, LogMatches, AreMembers;
      peers := [];
      var all := rooms;
      var todo := rooms.Keys;
      NobodyHomeless(rooms, place);
      while todo != {}
        invariant todo == rooms.Keys <= all.Keys && forall id :: id in rooms ==> rooms[id] == all[id]
        invariant DistinctObjects(peers) && Objects(peers) == Homeless(rooms, place)
        decreases todo
      {
        var id :| id in todo;
        RoomAt(all, nextRef, id);
        var members := PeerStates(all[id]);
        EvictOne(all, place, nextRef, rooms, peers, id, members);
        peers := peers + members;
        rooms := rooms - {id};
        todo := todo - {id};
      }
      assert rooms == map[];
    }

    // ----- whole operations: a section, its close batch, then the sends -----

    /** A clock reading. */
    method Now() returns (t: int) {
      t := *;
    }

    /** A send to a member, which may fail arbitrarily. */
    method Send() returns (ok: bool) {
      ok := *;
    }

    /** Sends to each recipient in turn and collects the failures. */
    method SendToAll(recipients: seq<string>) returns (failed: seq<string>)
      ensures forall q :: q in failed ==> q in recipients
    {
      failed := [];
      for i := 0 to |recipients|
        invariant forall q :: q in failed ==> q in recipients
      {
        var ok := Send();
        if !ok {
          failed := failed + [recipients[i]];
        }
      }
    }

    method Create(candidates: seq<Option<string>>) returns (r: CreateResult)
      requires Valid() && |candidates| == 8
      modifies this
      ensures Valid() && Extends() && Owing() == old(Owing())
      ensures r.Created? ==>
        r.roomID in rooms && rooms[r.roomID].peers == map[] && rooms[r.roomID].expiresAt == r.expiresAt
      ensures forall id :: id in rooms ==>
        (id in old(rooms) && rooms[id] == old(rooms)[id]) || (r.Created? && id == r.roomID)
    {
      hide RoomsValid, RoomValid, PlacesMatch, LogMatches, Moved, Unexpired, Homeless, FirstFree, OwedIn, Follows,
           NoNewMembers;
      var now := Now();
      ghost var before := Snap();
      var expired;
      r, expired := CreateSection(now, candidates);
      ghost var middle := Snap();
      ClosePeers(expired);
      FollowsInTwo(before, middle, Snap());
    }

    method GetStatus(roomID: string) returns (r: Option<Status>)
      requires Valid()
      modifies this
      ensures Valid() && Extends() && Shrinks() && Owing() == old(Owing())
    {
      hide RoomsValid, RoomValid, PlacesMatch, LogMatches, Moved, Unexpired, Homeless, OwedIn, Follows, NoNewMembers;
      var now := Now();
      ghost var before := Snap();
      var expired;
      PruningAdmitsNobody(rooms, now);
      NoNewMembersInItself(rooms);
      r, expired := StatusSection(roomID, now);
      ghost var middle := Snap();
      ClosePeers(expired);
      FollowsInTwo(before, middle, Snap());
    }

    /** Leave. The leaver is logged once; nested calls log whoever else they evict. */
    method Leave(roomID: string, peerID: string, immediateCleanup: bool) returns (left: bool)
      requires Valid()
      modifies this
      decreases MemberCount(roomID), 0
      ensures Valid() && Extends() && Shrinks() && Owing() == old(Owing())
      ensures Announces(old(Snap()), [], Snap())
      ensures roomID in rooms ==> peerID !in rooms[roomID].peers
      ensures MemberCount(roomID) <= old(MemberCount(roomID))
      ensures !left ==> departed == old(departed)
      ensures left ==>
        && roomID in old(rooms) && peerID in old(rooms)[roomID].peers
        && |departed| > |old(departed)| && departed[|old(departed)|] == old(rooms)[roomID].peers[peerID].ref
    {
      hide RoomsValid, RoomValid, PlacesMatch, LogMatches, OwedIn, Follows, NoNewMembers, Announces;
      ghost var before, roomsBefore := Snap(), rooms;
      var peers;
      left, peers := LeaveAndClose(roomID, peerID, immediateCleanup);
      if left {
        ghost var mid, midRooms := Snap(), rooms;
        ghost var ref := departed[|before.departed|];
        Broadcast(roomID, PeerLeft(ref), "");
        FollowsInTwo(before, mid, Snap());
        NoNewMembersInTwo(roomsBefore, midRooms, rooms);
        LoggedFirst(before, mid, Snap());
        AnnouncesItself(before, ref, mid, Snap());
        StaysOut(midRooms, rooms, roomID, peerID);
        if |peers| > 0 {
          mid, midRooms := Snap(), rooms;
          Broadcast(roomID, PeerList, "");
          AnnouncesInTwo(before, [], mid, Snap());
          FollowsInTwo(before, mid, Snap());
          NoNewMembersInTwo(roomsBefore, midRooms, rooms);
          LoggedFirst(before, mid, Snap());
          StaysOut(midRooms, rooms, roomID, peerID);
        }
      } else {
        AnnouncesNothing(before, Snap());
      }
    }

    /** Leave up to its first broadcast. */
    method LeaveAndClose(roomID: string, peerID: string, immediateCleanup: bool)
      returns (left: bool, peers: seq<string>)
      requires Valid()
      modifies this
      ensures Valid() && Extends() && Shrinks() && Owing() == old(Owing())
      ensures roomID in rooms ==> peerID !in rooms[roomID].peers
      ensures MemberCount(roomID) <= old(MemberCount(roomID))
      ensures announced == old(announced) && (!left ==> departed == old(departed))
      ensures left ==>
        && roomID in old(rooms) && peerID in old(rooms)[roomID].peers
        && MemberCount(roomID) < old(MemberCount(roomID))
        && departed == old(departed) + [old(rooms)[roomID].peers[peerID].ref]
    {
      hide RoomsValid, RoomValid, PlacesMatch, LogMatches, Moved, Unexpired, Homeless, OwedIn, WithoutFirst,
           Distinct, DistinctObjects, Objects, NoNewMembers, Follows, NoNewMembers;
      var now := Now();
      ghost var before := Snap();
      var expired;
      ghost var kept := Unexpired(rooms, now);
      PruningAdmitsNobody(rooms, now);
      NoNewMembersInItself(kept);
      NoNewMembersInItself(rooms);
      if roomID in kept && peerID in kept[roomID].peers {
        FewerMembers(kept[roomID], peerID);
        LeavingAdmitsNobody(kept, roomID, peerID);
      }
      left, peers, expired := LeaveSection(roomID, peerID, immediateCleanup, now);
      if !old(closed) {
        NoNewMembersInTwo(old(rooms), kept, rooms);
      }
      ghost var middle := Snap();
      ClosePeers(expired);
      FollowsInTwo(before, middle, Snap());
    }

    /** broadcast: the failed recipients are collected first and then made to leave. */
    method Broadcast(roomID: string, payload: Payload, exceptPeerID: string)
      requires Valid()
      modifies this
      decreases MemberCount(roomID), 1
      ensures Valid() && Extends() && Shrinks() && Owing() == old(Owing())
      ensures Announces(old(Snap()), payload.Announced(), Snap())
      ensures MemberCount(roomID) <= old(MemberCount(roomID))
    {
      hide RoomsValid, RoomValid, PlacesMatch, LogMatches, OwedIn, Follows, NoNewMembers, Announces;
      ghost var before, roomsBefore := Snap(), rooms;
      FollowsItself(before);
      NoNewMembersInItself(rooms);
      announced := announced + payload.Announced();
      ghost var started := Snap();
      AnnouncesNothing(started, started);
      AnnouncingFollows(before, started);
      var recipients := BroadcastSection(roomID, exceptPeerID);
      var failed := SendToAll(recipients);
      for i := 0 to |failed|
        invariant Valid() && Extends() && Shrinks() && Owing() == old(Owing())
        invariant Announces(started, [], Snap())
        invariant MemberCount(roomID) <= old(MemberCount(roomID))
      {
        ghost var mid, midRooms := Snap(), rooms;
        var _ := Leave(roomID, failed[i], false);
        FollowsInTwo(before, mid, Snap());
        NoNewMembersInTwo(roomsBefore, midRooms, rooms);
        AnnouncesInTwo(started, [], mid, Snap());
      }
      Announcing(before, started, payload, Snap());
    }

    /** Join. A failed send to the joiner undoes the admission; a failed send to another
        member evicts that member. */
    method Join(roomID: string, conn: Option<nat>, newID: Option<string>) returns (r: JoinResult)
      requires Valid()
      requires newID.Some? && roomID in rooms ==> newID.value !in rooms[roomID].peers
      modifies this
      ensures Valid() && Extends() && Owing() == old(Owing())
      ensures Announces(old(Snap()), [], Snap())
      ensures AdmitsOnly(old(place), place, r.Joined? || r == SendFailed, old(nextRef))
      ensures r == SendFailed ==> newID.Some? && (roomID in rooms ==> newID.value !in rooms[roomID].peers)
    {
      hide RoomsValid, RoomValid, PlacesMatch, LogMatches, OwedIn, Distinct, Follows, NoNewMembers, AdmitsOnly,
           Announces;
      ghost var before := Snap();
      FollowsItself(before);
      AnnouncesNothing(before, before);
      NobodyAdmitted(place, place, nextRef);
      if conn == None {
        return JoinClosed;
      }
      r := JoinAndClose(roomID, conn.value, newID);
      AnnouncesNothing(before, Snap());
      if !r.Joined? {
        return;
      }
      ghost var mid := Snap();
      var ok := Send();
      if !ok {
        var _ := Leave(roomID, r.peerID, true);
        FollowsInTwo(before, mid, Snap());
        AnnouncesInTwo(before, [], mid, Snap());
        AdmitsOnlyThrough(before.place, before.place, mid.place, place, true, before.nextRef);
        return SendFailed;
      }
      for i := 0 to |r.existing|
        invariant Valid() && Extends() && Owing() == old(Owing())
        invariant Announces(before, [], Snap())
        invariant AdmitsOnly(old(place), place, true, old(nextRef))
      {
        ok := Send();
        if !ok {
          mid := Snap();
          var _ := Leave(roomID, r.existing[i], false);
          FollowsInTwo(before, mid, Snap());
          AnnouncesInTwo(before, [], mid, Snap());
          AdmitsOnlyThrough(before.place, before.place, mid.place, place, true, before.nextRef);
        }
      }
      mid := Snap();
      Broadcast(roomID, PeerList, "");
      FollowsInTwo(before, mid, Snap());
      AnnouncesInTwo(before, [], mid, Snap());
      AdmitsOnlyThrough(before.place, before.place, mid.place, place, true, before.nextRef);
    }

    /** Join up to its first send. */
    method JoinAndClose(roomID: string, conn: nat, newID: Option<string>) returns (r: JoinResult)
      requires Valid()
      requires newID.Some? && roomID in rooms ==> newID.value !in rooms[roomID].peers
      modifies this
      ensures Valid() && Extends() && Owing() == old(Owing())
      ensures departed == old(departed) && announced == old(announced)
      ensures AdmitsOnly(old(place), place, r.Joined?, old(nextRef))
      ensures r != SendFailed && (r.Joined? ==> newID == Some(r.peerID))
    {
      hide RoomsValid, RoomValid, PlacesMatch, LogMatches, Moved, Unexpired, Homeless, OwedIn, WithMember, Follows,
           NoNewMembers, Distinct, DistinctObjects, Objects, AdmitsOnly;
      var now := Now();
      ghost var before := Snap();
      var expired;
      r, expired := JoinSection(roomID, conn, now, newID);
      ghost var middle := Snap();
      ClosePeers(expired);
      FollowsInTwo(before, middle, Snap());
      AdmitsOnlyThrough(before.place, before.place, middle.place, place, r.Joined?, before.nextRef);
    }

    /** Relay of a valid envelope. */
    method Relay(roomID: string, peerID: string, envelopeValid: bool) returns (ok: bool)
      requires Valid()
      modifies this
      ensures Valid() && Extends() && Shrinks() && Owing() == old(Owing())
      ensures Announces(old(Snap()), [], Snap())
    {
      hide RoomsValid, RoomValid, PlacesMatch, LogMatches, OwedIn, Distinct, Follows, NoNewMembers, Announces;
      ghost var before, roomsBefore := Snap(), rooms;
      FollowsItself(before);
      NoNewMembersInItself(rooms);
      AnnouncesNothing(before, before);
      if !envelopeValid {
        return false;
      }
      var recipients;
      ok, recipients := RelayAndClose(roomID, peerID);
      AnnouncesNothing(before, Snap());
      if !ok {
        return;
      }
      var failed := SendToAll(recipients);
      for i := 0 to |failed|
        invariant Announces(before, [], Snap())
        invariant Valid() && Extends() && Shrinks() && Owing() == old(Owing())
      {
        ghost var mid, midRooms := Snap(), rooms;
        var _ := Leave(roomID, failed[i], false);
        FollowsInTwo(before, mid, Snap());
        NoNewMembersInTwo(roomsBefore, midRooms, rooms);
        AnnouncesInTwo(before, [], mid, Snap());
      }
    }

    /** Relay up to its sends. */
    method RelayAndClose(roomID: string, peerID: string) returns (ok: bool, recipients: seq<string>)
      requires Valid()
      modifies this
      ensures Valid() && Extends() && Shrinks() && Owing() == old(Owing())
      ensures departed == old(departed) && announced == old(announced)
    {
      hide RoomsValid, RoomValid, PlacesMatch, LogMatches, Moved, Unexpired, Homeless, OwedIn, Distinct, Follows,
           NoNewMembers;
      var now := Now();
      ghost var before := Snap();
      var expired;
      PruningAdmitsNobody(rooms, now);
      NoNewMembersInItself(rooms);
      ok, recipients, expired := RelaySection(roomID, peerID, now);
      ghost var middle := Snap();
      ClosePeers(expired);
      FollowsInTwo(before, middle, Snap());
    }

    method Expire(roomID: string, expected: nat)
      requires Valid()
      modifies this
      ensures Valid() && Extends() && Shrinks() && Owing() == old(Owing())
    {
      hide RoomsValid, RoomValid, PlacesMatch, LogMatches, OwedIn, Moved, Homeless, AreMembers, Follows, NoNewMembers;
      ghost var before := Snap();
      NoNewMembersInItself(rooms);
      RemovalAdmitsNobody(rooms, roomID);
      var peers := ExpireSection(roomID, expected);
      ghost var middle := Snap();
      ClosePeers(peers);
      FollowsInTwo(before, middle, Snap());
    }

    /** Close: afterwards no room is left, and every member there was has been handed over. */
    method Close()
      requires Valid()
      modifies this
      ensures Valid() && Extends() && closed && rooms == map[] && Owing() == old(Owing())
      ensures forall x :: x in place ==> !place[x].Member?
    {
      hide RoomsValid, RoomValid, LogMatches, OwedIn, Moved, Homeless, Follows, NoNewMembers;
      ghost var before := Snap();
      var first, peers := CloseSection();
      ghost var middle := Snap();
      ClosePeers(peers);
      FollowsInTwo(before, middle, Snap());
    }
  }

  // ----- every interleaving -----

  /** The batches some call has taken out of their rooms and not yet passed to closePeers:
      disjoint, and together exactly the owed peers. */
  ghost predicate Pending(pending: seq<seq<Peer>>, owed: set<nat>) {
    && (forall i :: 0 <= i < |pending| ==> DistinctObjects(pending[i]) && Objects(pending[i]) <= owed)
    && (forall i, j :: 0 <= i < j < |pending| ==> Objects(pending[i]) !! Objects(pending[j]))
    && (forall x :: x in owed ==> exists i :: 0 <= i < |pending| && x in Objects(pending[i]))
  }

  lemma PendingAdded(pending: seq<seq<Peer>>, owed: set<nat>, batch: seq<Peer>)
    requires Pending(pending, owed) && DistinctObjects(batch) && Objects(batch) !! owed
    ensures Pending(pending + [batch], owed + Objects(batch))
  {
    hide DistinctObjects, Objects;
    var more := pending + [batch];
    forall x | x in owed + Objects(batch)
      ensures exists i :: 0 <= i < |more| && x in Objects(more[i])
    {
      if x in owed {
        var i :| 0 <= i < |pending| && x in Objects(pending[i]);
        assert x in Objects(more[i]);
      } else {
        assert x in Objects(more[|pending|]);
      }
    }
    forall i, j | 0 <= i < j < |more|
      ensures Objects(more[i]) !! Objects(more[j])
    {
      if j == |pending| {
        assert Objects(pending[i]) <= owed;
      }
    }
  }

  lemma PendingTaken(pending: seq<seq<Peer>>, owed: set<nat>, k: nat)
    requires Pending(pending, owed) && k < |pending|
    ensures Pending(pending[..k] + pending[k + 1..], owed - Objects(pending[k]))
  {
    hide DistinctObjects, Objects;
    var less := pending[..k] + pending[k + 1..];
    forall x | x in owed - Objects(pending[k])
      ensures exists i :: 0 <= i < |less| && x in Objects(less[i])
    {
      var i :| 0 <= i < |pending| && x in Objects(pending[i]);
      assert less[if i < k then i else i - 1] == pending[i];
    }
    forall i | 0 <= i < |less|
      ensures DistinctObjects(less[i]) && Objects(less[i]) <= owed - Objects(pending[k])
    {
      var at := if i < k then i else i + 1;
      assert less[i] == pending[at];
      assert Objects(pending[at]) !! Objects(pending[k]);
    }
    forall i, j | 0 <= i < j < |less|
      ensures Objects(less[i]) !! Objects(less[j])
    {
      var a, b := if i < k then i else i + 1, if j < k then j else j + 1;
      assert less[i] == pending[a] && less[j] == pending[b];
    }
  }

  /** Any number of sections and late timer callbacks, in any order and with any arguments,
      each returned batch being closed at any later time. Every state on the way is valid;
      the batches still to be closed are exactly the owed peers, so once none is left every
      admitted peer is a member of a live room, left once, or was closed once. */
  method AnySchedule(m: Manager, steps: nat) returns (pending: seq<seq<Peer>>)
    requires m.Valid() && m.Owing() == {}
    modifies m
    ensures m.Valid() && m.Extends() && Pending(pending, m.Owing())
    ensures RoomsPersist(old(m.rooms), old(m.nextRef), m.rooms)
    ensures pending == [] ==>
      forall x :: x in m.place ==>
        || (m.place[x].Member? && x !in m.departed && x !in m.handed)
        || (m.place[x] == Departed && x in m.departed && x !in m.handed)
        || (m.place[x] == Handed && x in m.handed && x !in m.departed)
  {
    hide Pending, RoomsValid, RoomValid, PlacesMatch, Moved, Unexpired, Homeless, OwedIn, LogMatches, Follows,
         RoomsPersist;
    pending := [];
    NothingPending(m.Owing());
    ghost var start := m.Snap();
    FollowsItself(start);
    for n := 0 to steps
      invariant m.Valid() && Pending(pending, m.Owing()) && Follows(start, m.Snap())
    {
      ghost var mid := m.Snap();
      pending := OneStep(m, pending);
      FollowsInTwo(start, mid, m.Snap());
    }
    RoomsStay(start, m.Snap());
    if pending == [] {
      AllClosed(m.Owing());
      LogsAreDisjoint(m.place, m.departed, m.handed);
      NobodyOwed(m.place);
    }
  }

  lemma RoomsStay(a: History, b: History)
    requires Follows(a, b)
    ensures RoomsPersist(a.rooms, a.nextRef, b.rooms)
  {
  }

  lemma NothingPending(owed: set<nat>)
    requires owed == {}
    ensures Pending([], owed)
  {
  }

  lemma AllClosed(owed: set<nat>)
    requires Pending([], owed)
    ensures owed == {}
  {
  }

  lemma NobodyOwed(place: map<nat, Place>)
    requires OwedIn(place) == {}
    ensures forall x :: x in place ==> place[x] != Owed
  {
    assert forall x :: x in place && place[x] == Owed ==> x in OwedIn(place);
  }

  lemma LogsAreDisjoint(place: map<nat, Place>, departed: seq<nat>, handed: seq<nat>)
    requires LogMatches(departed, place, Departed) && LogMatches(handed, place, Handed)
    ensures forall x :: x in place ==>
      (x in departed <==> place[x] == Departed) && (x in handed <==> place[x] == Handed)
  {
  }

  /** Which section ran. */
  datatype Section =
    | Creation | Lookup | Joining(roomID: string, result: JoinResult) | Departure | Relaying
    | Expiry | Cleanup | Closing

  /** One section or callback, chosen arbitrarily, and the batch it takes out. An empty room
      loses its cleanup timer exactly when a join finds it and no peer id can be allocated. */
  method AnySection(m: Manager) returns (batch: seq<Peer>, section: Section)
    requires m.Valid()
    modifies m
    ensures m.Valid() && m.Extends() && m.Took(batch)
    ensures RoomsPersist(old(m.rooms), old(m.nextRef), m.rooms)
    ensures if section.Joining? && section.result == NoPeerID
      then DisarmsExactly(old(m.rooms), m.rooms, section.roomID) else DisarmsNothing(old(m.rooms), m.rooms)
  {
    hide RoomsValid, RoomValid, PlacesMatch, Moved, Unexpired, Homeless, OwedIn, LogMatches, WithoutFirst, WithMember,
         AreMembers, FirstFree, DistinctObjects, DisarmsNothing, DisarmsExactly, Follows, NewRoom, RoomsPersist,
         PrunedExcept, GainsRoom, GainsMember, OnlyStopsCleanup, LosesMember;
    ghost var start := m.Snap();
    var kind: nat, conn: nat, room: nat, roomID: string, peerID: string, now: int, flag: bool := *, *, *, *, *, *, *;
    var newID: Option<string>, candidates: seq<Option<string>> := *, *;
    if kind == 0 && |candidates| == 8 {
      var r, b := m.CreateSection(now, candidates);
      batch, section := b, Creation;
    } else if kind == 1 {
      var r, b := m.StatusSection(roomID, now);
      batch, section := b, Lookup;
    } else if kind == 2 && (newID.Some? && roomID in m.rooms ==> newID.value !in m.rooms[roomID].peers) {
      var r, b := m.JoinSection(roomID, conn, now, newID);
      batch, section := b, Joining(roomID, r);
    } else if kind == 3 {
      var left, peers, b := m.LeaveSection(roomID, peerID, flag, now);
      batch, section := b, Departure;
    } else if kind == 4 {
      var ok, recipients, b := m.RelaySection(roomID, peerID, now);
      batch, section := b, Relaying;
    } else if kind == 5 {
      batch := m.ExpireSection(roomID, room);
      section := Expiry;
    } else if kind == 6 {
      var first, b := m.CloseSection();
      batch, section := b, Closing;
    } else {
      m.CleanupCallback(roomID, room);
      batch, section := [], Cleanup;
      assert Objects(batch) == {} && DistinctObjects(batch) by { NoObjects(); }
    }
    RoomsStay(start, m.Snap());
  }

  lemma NoObjects()
    ensures Objects([]) == {} && DistinctObjects([])
  {
  }

  /** One section, callback or close batch, chosen arbitrarily. */
  method OneStep(m: Manager, pending: seq<seq<Peer>>) returns (after: seq<seq<Peer>>)
    requires m.Valid() && Pending(pending, m.Owing())
    modifies m
    ensures m.Valid() && m.Extends() && Pending(after, m.Owing())
  {
    hide RoomsValid, RoomValid, PlacesMatch, Moved, Unexpired, Homeless, OwedIn, LogMatches;
    var close: bool, k: nat := *, *;
    if close && k < |pending| {
      PendingTaken(pending, m.Owing(), k);
      m.ClosePeers(pending[k]);
      after := pending[..k] + pending[k + 1..];
    } else {
      ghost var owed := m.Owing();
      var batch, section := AnySection(m);
      PendingAdded(pending, owed, batch);
      after := pending + [batch];
    }
  }
}
