/**
 * The list and lookup logic of the Spotlight search dialog: the persisted
 * "recent searches" slot (loading it and updating it when a room is viewed),
 * the main room search, the search among the active space's rooms, the split
 * of the results into people and rooms, and the cap on each rendered section.
 *
 * The messaging SDK and the browser are parameters:
 *   - `known: map<RoomId, Room>` is `cli.getRoom` (an id outside the map gives null);
 *   - `clientRooms: seq<Room>` is `cli.getRooms()`;
 *   - `dm: map<RoomId, string>` is `DMRoomMap.getUserIdForRoomId`;
 *   - `text: TextOps` carries `trim`, `toLowerCase` and the SDK's `normalize`,
 *     left uninterpreted;
 *   - the storage slot holds the outcome of parsing its JSON text (`Slot`).
 */
module SpotlightDialog {
  import opened Wrappers
  import opened Sequences

  type RoomId = string

  /** The number of recent searches written back to storage. */
  const MaxRecentSearches: nat := 10
  /** The number of entries each rendered result section shows. */
  const SectionLimit: nat := 50
  /** The room type the SDK gives to a space. */
  const RoomTypeSpace: string := "m.space"
  /** The membership value of a room the user has joined. */
  const MembershipJoin: string := "join"

  /** The part of an SDK `Room` the dialog reads. */
  datatype Room = Room(
    roomId: RoomId,
    normalizedName: string,
    canonicalAlias: Option<string>,
    myMembership: string)

  /** A room of a space's hierarchy, as the hierarchy pagination returns it. */
  datatype HierarchyRoom = HierarchyRoom(
    roomId: RoomId,
    name: Option<string>,
    canonicalAlias: Option<string>,
    roomType: Option<string>)

  /**
   * What `JSON.parse` makes of the stored text: a parse error, a value that is
   * not an array (this includes a missing key, since `JSON.parse(null)` is
   * `null`), or an array of room ids.
   */
  datatype Slot = Unparsable | NonArray | StringArray(ids: seq<RoomId>)

  /** The text functions the dialog calls: `trim`, `toLowerCase` and `normalize`. */
  datatype TextOps = TextOps(
    trim: string -> string,
    toLower: string -> string,
    normalize: string -> string)

  /** `cli.getRoom` returns, for every id it knows, the room with that id. */
  ghost predicate WellFormedRegistry(known: map<RoomId, Room>)
  {
    forall id :: id in known ==> known[id].roomId == id
  }

  function RoomIds(rooms: seq<Room>): (ids: seq<RoomId>)
    ensures |ids| == |rooms|
    ensures forall k :: 0 <= k < |rooms| ==> ids[k] == rooms[k].roomId
  {
    if rooms == [] then [] else [rooms[0].roomId] + RoomIds(rooms[1..])
  }

  // ===========================================================================
  // Loading the recent searches

  /** The test `cli.getRoom(id)` is truthy. */
  function IsKnown(known: map<RoomId, Room>): RoomId -> bool
  {
    id => id in known
  }

  /** `ids.map(r => cli.getRoom(r)).filter(Boolean)`. */
  function ResolveRooms(ids: seq<RoomId>, known: map<RoomId, Room>): (rooms: seq<Room>)
    ensures |rooms| <= |ids|
    ensures forall room :: room in rooms ==> exists id :: id in ids && id in known && known[id] == room
    ensures forall id :: id in ids && id in known ==> known[id] in rooms
  {
    if ids == [] then []
    else if ids[0] in known then [known[ids[0]]] + ResolveRooms(ids[1..], known)
    else ResolveRooms(ids[1..], known)
  }

  /** The rooms of the recent searches, most recent first; nothing when the slot does not hold an array. */
  function LoadRecentSearches(stored: Slot, known: map<RoomId, Room>): (rooms: seq<Room>)
    ensures !stored.StringArray? ==> rooms == []
    ensures stored.StringArray? ==> |rooms| <= |stored.ids|
    ensures stored.StringArray? ==>
      forall room :: room in rooms ==> exists id :: id in stored.ids && id in known && known[id] == room
    ensures stored.StringArray? ==>
      forall id :: id in stored.ids && id in known ==> known[id] in rooms
  {
    match stored
    case StringArray(ids) => Reverse(ResolveRooms(ids, known))
    case _ => []
  }

  lemma {:induction false} ResolvedRoomIds(ids: seq<RoomId>, known: map<RoomId, Room>)
    requires WellFormedRegistry(known)
    ensures RoomIds(ResolveRooms(ids, known)) == Filter(ids, IsKnown(known))
  {
    if ids != [] {
      ResolvedRoomIds(ids[1..], known);
    }
  }

  /**
   * For a well-formed registry, the loaded list is exactly the stored ids that
   * resolve to a room, in reverse stored order.
   */
  lemma LoadedIdsAreKnownStoredIdsReversed(ids: seq<RoomId>, known: map<RoomId, Room>)
    requires WellFormedRegistry(known)
    ensures RoomIds(LoadRecentSearches(StringArray(ids), known)) == Reverse(Filter(ids, IsKnown(known)))
    ensures RoomIds(Reverse(LoadRecentSearches(StringArray(ids), known))) == Filter(ids, IsKnown(known))
  {
    var resolved := ResolveRooms(ids, known);
    ResolvedRoomIds(ids, known);
    assert LoadRecentSearches(StringArray(ids), known) == Reverse(resolved);
    RoomIdsReverse(resolved);
    ReverseReverse(resolved);
  }

  /** Taking the ids commutes with reversal. */
  lemma {:induction false} RoomIdsReverse(rooms: seq<Room>)
    ensures RoomIds(Reverse(rooms)) == Reverse(RoomIds(rooms))
  {
    if rooms != [] {
      var ids := RoomIds(rooms);
      RoomIdsReverse(rooms[1..]);
      RoomIdsConcat(Reverse(rooms[1..]), [rooms[0]]);
      assert ids[1..] == RoomIds(rooms[1..]);
    }
  }

  lemma {:induction false} RoomIdsConcat(a: seq<Room>, b: seq<Room>)
    ensures RoomIds(a + b) == RoomIds(a) + RoomIds(b)
  {
    if a != [] {
      assert (a + b)[1..] == a[1..] + b;
      RoomIdsConcat(a[1..], b);
    } else {
      assert a + b == b;
    }
  }

  // ===========================================================================
  // Updating the recent searches

  /**
   * The list `viewRoom(roomId, true)` stores, given the ids of the loaded
   * recent searches in oldest-first order: an insertion-ordered set of them,
   * with `roomId` deleted and added again, and then its FIRST ten entries.
   */
  function UpdatedRecents(oldestFirst: seq<RoomId>, roomId: RoomId): (stored: seq<RoomId>)
    ensures |stored| <= MaxRecentSearches
  {
    Take(AddLast(Remove(Dedup(oldestFirst), roomId), roomId), MaxRecentSearches)
  }

  /** The stored list never repeats an id, never exceeds ten entries and holds only ids seen before or `roomId`. */
  lemma UpdatedRecentsBounded(oldestFirst: seq<RoomId>, roomId: RoomId)
    ensures NoDuplicates(UpdatedRecents(oldestFirst, roomId))
    ensures |UpdatedRecents(oldestFirst, roomId)| <= MaxRecentSearches
    ensures forall id :: id in UpdatedRecents(oldestFirst, roomId) ==> id in oldestFirst || id == roomId
  {
    var d := Dedup(oldestFirst);
    DedupElements(oldestFirst);
    var rest := Remove(d, roomId);
    RemoveElements(d, roomId);
    var added := AddLast(rest, roomId);
    AddLastElements(rest, roomId);
    var r := UpdatedRecents(oldestFirst, roomId);
    assert r <= added;
    assert forall k :: 0 <= k < |r| ==> r[k] == added[k];
  }

  /**
   * Viewing a room that is already among (at most ten) recent searches moves it
   * to the end: the length is unchanged and the other ids keep their order.
   */
  lemma UpdatedRecentsMovesExistingToEnd(oldestFirst: seq<RoomId>, roomId: RoomId)
    requires roomId in oldestFirst && |Dedup(oldestFirst)| <= MaxRecentSearches
    ensures |UpdatedRecents(oldestFirst, roomId)| == |Dedup(oldestFirst)|
    ensures UpdatedRecents(oldestFirst, roomId) == Remove(Dedup(oldestFirst), roomId) + [roomId]
  {
    var d := Dedup(oldestFirst);
    DedupElements(oldestFirst);
    var rest := Remove(d, roomId);
    RemoveLength(d, roomId);
    assert |rest| == |d| - 1;
    var added := AddLast(rest, roomId);
    assert added == rest + [roomId];
    assert UpdatedRecents(oldestFirst, roomId) == Take(added, MaxRecentSearches) == added;
  }

  /** A new room is appended when fewer than ten distinct ids are loaded. */
  lemma UpdatedRecentsAppendsNew(oldestFirst: seq<RoomId>, roomId: RoomId)
    requires roomId !in oldestFirst && |Dedup(oldestFirst)| < MaxRecentSearches
    ensures UpdatedRecents(oldestFirst, roomId) == Dedup(oldestFirst) + [roomId]
  {
    DedupElements(oldestFirst);
    RemoveAbsent(Dedup(oldestFirst), roomId);
  }

  /**
   * When ten or more distinct ids are loaded, `slice(0, 10)` keeps the ten
   * oldest, so a room not already present is dropped.
   */
  lemma UpdatedRecentsFullDropsNewRoom(oldestFirst: seq<RoomId>, roomId: RoomId)
    requires roomId !in oldestFirst && |Dedup(oldestFirst)| >= MaxRecentSearches
    ensures UpdatedRecents(oldestFirst, roomId) == Dedup(oldestFirst)[..MaxRecentSearches]
    ensures roomId !in UpdatedRecents(oldestFirst, roomId)
  {
    var d := Dedup(oldestFirst);
    DedupElements(oldestFirst);
    RemoveAbsent(d, roomId);
    assert (d + [roomId])[..MaxRecentSearches] == d[..MaxRecentSearches];
  }

  /** A full stored list is left as it is when a room not in it is viewed. */
  lemma StoredFullListUnchanged(stored: seq<RoomId>, roomId: RoomId)
    requires NoDuplicates(stored) && |stored| == MaxRecentSearches && roomId !in stored
    ensures UpdatedRecents(stored, roomId) == stored
  {
    DedupOfNoDuplicates(stored);
    UpdatedRecentsFullDropsNewRoom(stored, roomId);
  }

  /** A concrete full list: ten distinct ids and a new one, which is not stored. */
  lemma FullRecentsExample()
    ensures UpdatedRecents(["!0", "!1", "!2", "!3", "!4", "!5", "!6", "!7", "!8", "!9"], "!new")
         == ["!0", "!1", "!2", "!3", "!4", "!5", "!6", "!7", "!8", "!9"]
  {
    var ids := ["!0", "!1", "!2", "!3", "!4", "!5", "!6", "!7", "!8", "!9"];
    assert NoDuplicates(ids) by {
      forall i, j | 0 <= i < j < |ids| ensures ids[i] != ids[j] {
        assert ids[i][1] != ids[j][1];
      }
    }
    assert "!new" !in ids;
    StoredFullListUnchanged(ids, "!new");
  }

  /** Viewing the same room twice in a row stores the same list as viewing it once. */
  lemma UpdatedRecentsIdempotent(oldestFirst: seq<RoomId>, roomId: RoomId)
    ensures UpdatedRecents(UpdatedRecents(oldestFirst, roomId), roomId) == UpdatedRecents(oldestFirst, roomId)
  {
    var d := Dedup(oldestFirst);
    DedupElements(oldestFirst);
    if roomId in d && |d| <= MaxRecentSearches {
      IdempotentMovingExisting(oldestFirst, roomId);
    } else if roomId in d {
      IdempotentDroppingExisting(oldestFirst, roomId);
    } else if |d| < MaxRecentSearches {
      IdempotentAppendingNew(oldestFirst, roomId);
    } else {
      UpdatedRecentsFullDropsNewRoom(oldestFirst, roomId);
      UpdatedRecentsBounded(oldestFirst, roomId);
      StoredFullListUnchanged(UpdatedRecents(oldestFirst, roomId), roomId);
    }
  }

  /** A stored list that already ends with the viewed room is left as it is. */
  lemma StoredEndingWithRoomUnchanged(stored: seq<RoomId>, roomId: RoomId)
    requires NoDuplicates(stored) && 0 < |stored| <= MaxRecentSearches && stored[|stored| - 1] == roomId
    ensures UpdatedRecents(stored, roomId) == stored
  {
    var rest := stored[..|stored| - 1];
    assert stored == rest + [roomId];
    assert roomId !in rest by {
      NoDuplicatesSnoc(rest, roomId);
    }
    assert Remove(stored, roomId) == rest by {
      RemoveConcat(rest, [roomId], roomId);
      RemoveAbsent(rest, roomId);
      assert Remove([roomId], roomId) == [];
    }
    DedupOfNoDuplicates(stored);
    UpdatedRecentsMovesExistingToEnd(stored, roomId);
  }

  lemma IdempotentMovingExisting(oldestFirst: seq<RoomId>, roomId: RoomId)
    requires roomId in oldestFirst && |Dedup(oldestFirst)| <= MaxRecentSearches
    ensures UpdatedRecents(UpdatedRecents(oldestFirst, roomId), roomId) == UpdatedRecents(oldestFirst, roomId)
  {
    var once := UpdatedRecents(oldestFirst, roomId);
    assert 0 < |once| <= MaxRecentSearches && once[|once| - 1] == roomId && NoDuplicates(once) by {
      UpdatedRecentsMovesExistingToEnd(oldestFirst, roomId);
      UpdatedRecentsBounded(oldestFirst, roomId);
    }
    StoredEndingWithRoomUnchanged(once, roomId);
  }

  /** More than ten distinct ids (a slot not written by the dialog): the viewed room falls off the end. */
  lemma IdempotentDroppingExisting(oldestFirst: seq<RoomId>, roomId: RoomId)
    requires roomId in oldestFirst && |Dedup(oldestFirst)| > MaxRecentSearches
    ensures UpdatedRecents(UpdatedRecents(oldestFirst, roomId), roomId) == UpdatedRecents(oldestFirst, roomId)
  {
    var once := UpdatedRecents(oldestFirst, roomId);
    var d := Dedup(oldestFirst);
    DedupElements(oldestFirst);
    var rest := Remove(d, roomId);
    RemoveLength(d, roomId);
    UpdatedRecentsBounded(oldestFirst, roomId);
    var added := AddLast(rest, roomId);
    assert added == rest + [roomId];
    assert once == added[..MaxRecentSearches];
    assert forall k :: 0 <= k < |once| ==> once[k] == rest[k];
    assert roomId !in once;
    StoredFullListUnchanged(once, roomId);
  }

  lemma IdempotentAppendingNew(oldestFirst: seq<RoomId>, roomId: RoomId)
    requires roomId !in oldestFirst && |Dedup(oldestFirst)| < MaxRecentSearches
    ensures UpdatedRecents(UpdatedRecents(oldestFirst, roomId), roomId) == UpdatedRecents(oldestFirst, roomId)
  {
    var once := UpdatedRecents(oldestFirst, roomId);
    assert 0 < |once| <= MaxRecentSearches && once[|once| - 1] == roomId && NoDuplicates(once) by {
      UpdatedRecentsAppendsNew(oldestFirst, roomId);
      UpdatedRecentsBounded(oldestFirst, roomId);
    }
    StoredEndingWithRoomUnchanged(once, roomId);
  }

  /**
   * The evidently intended update: keep the LAST ten entries, so the viewed
   * room is always the most recent one stored.
   */
  function UpdatedRecentsLatest(oldestFirst: seq<RoomId>, roomId: RoomId): (stored: seq<RoomId>)
    ensures 0 < |stored| <= MaxRecentSearches
  {
    TakeLast(AddLast(Remove(Dedup(oldestFirst), roomId), roomId), MaxRecentSearches)
  }

  lemma UpdatedRecentsLatestKeepsRoom(oldestFirst: seq<RoomId>, roomId: RoomId)
    ensures NoDuplicates(UpdatedRecentsLatest(oldestFirst, roomId))
    ensures 0 < |UpdatedRecentsLatest(oldestFirst, roomId)| <= MaxRecentSearches
    ensures UpdatedRecentsLatest(oldestFirst, roomId)[|UpdatedRecentsLatest(oldestFirst, roomId)| - 1] == roomId
    ensures forall id :: id in UpdatedRecentsLatest(oldestFirst, roomId) ==> id in oldestFirst || id == roomId
  {
    var d := Dedup(oldestFirst);
    var rest := Remove(d, roomId);
    var added := rest + [roomId];
    assert AddLast(rest, roomId) == added;
    assert NoDuplicates(added) && forall id :: id in added ==> id in oldestFirst || id == roomId by {
      DedupElements(oldestFirst);
      RemoveElements(d, roomId);
      NoDuplicatesSnoc(rest, roomId);
    }
    TakeLastElements(added, MaxRecentSearches);
  }

  // ===========================================================================
  // Main search results

  /** `r.getCanonicalAlias()?.includes(lcQuery) || r.normalizedName.includes(normalizedQuery)`. */
  predicate RoomMatches(room: Room, lcQuery: string, normalizedQuery: string)
  {
    (room.canonicalAlias.Some? && Contains(room.canonicalAlias.value, lcQuery))
    || Contains(room.normalizedName, normalizedQuery)
  }

  function MatchesQuery(lcQuery: string, normalizedQuery: string): Room -> bool
  {
    room => RoomMatches(room, lcQuery, normalizedQuery)
  }

  /**
   * No results (null) for an empty query; otherwise the client's rooms whose
   * alias contains the lower-cased trimmed query or whose normalized name
   * contains the normalized trimmed query, in the client's order.
   */
  function MainResults(query: string, clientRooms: seq<Room>, text: TextOps): (results: Option<seq<Room>>)
    ensures results.None? <==> query == ""
    ensures results.Some? ==> IsSubsequence(results.value, clientRooms)
    ensures results.Some? ==> forall room :: room in results.value ==>
      RoomMatches(room, text.toLower(text.trim(query)), text.normalize(text.trim(query)))
    ensures results.Some? ==> forall room ::
      (room in clientRooms &&
       RoomMatches(room, text.toLower(text.trim(query)), text.normalize(text.trim(query))))
      ==> room in results.value
  {
    if query == "" then None
    else
      var trimmed := text.trim(query);
      var matches := MatchesQuery(text.toLower(trimmed), text.normalize(trimmed));
      FilterIsSubsequence(clientRooms, matches);
      Some(Filter(clientRooms, matches))
  }

  /**
   * A query of blanks only is not empty, so it gives results; when trimming it
   * gives the empty string (and normalizing that does too) every room matches.
   */
  lemma BlankQueryMatchesEveryRoom(query: string, clientRooms: seq<Room>, text: TextOps)
    requires query != "" && text.trim(query) == "" && text.normalize("") == ""
    ensures MainResults(query, clientRooms, text) == Some(clientRooms)
  {
    var matches := MatchesQuery(text.toLower(""), "");
    forall room | room in clientRooms ensures matches(room) {
      ContainsEmpty(room.normalizedName);
    }
    FilterKeepsAll(clientRooms, matches);
  }

  // ===========================================================================
  // Results among the rooms of the active space

  /** `cli.getRoom(id)?.getMyMembership() === "join"`. */
  predicate IsJoined(id: RoomId, known: map<RoomId, Room>)
  {
    id in known && known[id].myMembership == MembershipJoin
  }

  /** Not a space and not joined: the rooms the space section may offer. */
  predicate Eligible(room: HierarchyRoom, known: map<RoomId, Room>)
  {
    room.roomType != Some(RoomTypeSpace) && !IsJoined(room.roomId, known)
  }

  /** `normalize(r.name || "").includes(normalizedQuery) || (r.canonical_alias || "").includes(lcQuery)`. */
  predicate HierarchyRoomMatches(room: HierarchyRoom, lcQuery: string, normalizedQuery: string, text: TextOps)
  {
    Contains(text.normalize(room.name.GetOr("")), normalizedQuery)
    || Contains(room.canonicalAlias.GetOr(""), lcQuery)
  }

  function SpaceResultTest(query: string, known: map<RoomId, Room>, text: TextOps): HierarchyRoom -> bool
  {
    var trimmed := text.trim(query);
    room => Eligible(room, known) && HierarchyRoomMatches(room, text.toLower(trimmed), text.normalize(trimmed), text)
  }

  /** The hierarchy rooms that are neither spaces nor joined and whose name or alias matches the query, in order. */
  function SpaceResults(hierarchyRooms: seq<HierarchyRoom>, query: string, known: map<RoomId, Room>, text: TextOps)
    : (results: seq<HierarchyRoom>)
    ensures IsSubsequence(results, hierarchyRooms)
    ensures forall room :: room in results ==>
      Eligible(room, known) &&
      HierarchyRoomMatches(room, text.toLower(text.trim(query)), text.normalize(text.trim(query)), text)
    ensures forall room ::
      (room in hierarchyRooms && Eligible(room, known) &&
       HierarchyRoomMatches(room, text.toLower(text.trim(query)), text.normalize(text.trim(query)), text))
      ==> room in results
  {
    var test := SpaceResultTest(query, known, text);
    FilterIsSubsequence(hierarchyRooms, test);
    Filter(hierarchyRooms, test)
  }

  function EligibleTest(known: map<RoomId, Room>): HierarchyRoom -> bool
  {
    room => Eligible(room, known)
  }

  /** With a query that trims to "", every room that is not a space and not joined is a result. */
  lemma EmptyQuerySpaceResults(hierarchyRooms: seq<HierarchyRoom>, query: string, known: map<RoomId, Room>, text: TextOps)
    requires text.trim(query) == "" && text.toLower("") == ""
    ensures SpaceResults(hierarchyRooms, query, known, text) == Filter(hierarchyRooms, EligibleTest(known))
  {
    var test := SpaceResultTest(query, known, text);
    forall room | room in hierarchyRooms ensures test(room) == EligibleTest(known)(room) {
      ContainsEmpty(room.canonicalAlias.GetOr(""));
    }
    FilterCongruent(hierarchyRooms, test, EligibleTest(known));
  }

  // ===========================================================================
  // People and rooms, and the section caps

  /** `DMRoomMap.getUserIdForRoomId(room.roomId)` is truthy: a user id that is not "". */
  predicate HasDirectMessageUser(room: Room, dm: map<RoomId, string>)
  {
    room.roomId in dm && dm[room.roomId] != ""
  }

  function IsPeopleResult(dm: map<RoomId, string>): Room -> bool
  {
    room => HasDirectMessageUser(room, dm)
  }

  /** The `reduce` that pushes each result onto `people` or `rooms`. */
  method PartitionResults(results: seq<Room>, dm: map<RoomId, string>) returns (people: seq<Room>, rooms: seq<Room>)
    ensures people == Filter(results, IsPeopleResult(dm))
    ensures rooms == Filter(results, Negate(IsPeopleResult(dm)))
    ensures |people| + |rooms| == |results|
  {
    people, rooms := [], [];
    var i := 0;
    while i < |results|
      invariant 0 <= i <= |results|
      invariant people == Filter(results[..i], IsPeopleResult(dm))
      invariant rooms == Filter(results[..i], Negate(IsPeopleResult(dm)))
    {
      var room := results[i];
      FilterPrefixStep(results, i, IsPeopleResult(dm));
      FilterPrefixStep(results, i, Negate(IsPeopleResult(dm)));
      if HasDirectMessageUser(room, dm) {
        people := people + [room];
      } else {
        rooms := rooms + [room];
      }
      i := i + 1;
    }
    assert results[..|results|] == results;
    FilterSplitLength(results, IsPeopleResult(dm));
  }

  /** Each result lands in exactly one section, and each section keeps the order of the results. */
  lemma PartitionIsExact(results: seq<Room>, dm: map<RoomId, string>)
    ensures forall room :: room in results ==>
      (room in Filter(results, IsPeopleResult(dm)) <==> HasDirectMessageUser(room, dm)) &&
      (room in Filter(results, Negate(IsPeopleResult(dm))) <==> !HasDirectMessageUser(room, dm))
    ensures IsSubsequence(Filter(results, IsPeopleResult(dm)), results)
    ensures IsSubsequence(Filter(results, Negate(IsPeopleResult(dm))), results)
  {
    FilterIsSubsequence(results, IsPeopleResult(dm));
    FilterIsSubsequence(results, Negate(IsPeopleResult(dm)));
  }

  /** `xs.slice(0, SECTION_LIMIT)`: what a result section renders. */
  function Section<T>(xs: seq<T>): (shown: seq<T>)
    ensures |shown| <= SectionLimit
    ensures shown <= xs
    ensures |xs| <= SectionLimit ==> shown == xs
  {
    Take(xs, SectionLimit)
  }

  // ===========================================================================
  // The dialog's state

  /**
   * The dialog: the storage slot, the recent searches loaded for the current
   * render, and what `viewRoom` has sent out.
   */
  class Dialog {
    /** The `mx_SpotlightDialog_recent_searches` entry of local storage. */
    var slot: Slot
    /** The array `useRecentSearches` returned for the current render. */
    var recentSearches: seq<Room>
    /** The room ids of the `view_room` actions dispatched. */
    var dispatched: seq<RoomId>
    /** Whether `onFinished` has been called. */
    var finished: bool

    constructor (stored: Slot, known: map<RoomId, Room>)
      ensures slot == stored && recentSearches == LoadRecentSearches(stored, known)
      ensures dispatched == [] && !finished
    {
      slot := stored;
      recentSearches := LoadRecentSearches(stored, known);
      dispatched := [];
      finished := false;
    }

    /** A render calls `useRecentSearches` again, from the slot as it is now. */
    method Render(known: map<RoomId, Room>)
      modifies this`recentSearches
      ensures recentSearches == LoadRecentSearches(slot, known)
    {
      recentSearches := LoadRecentSearches(slot, known);
    }

    /**
     * `viewRoom(roomId, persist)`. When persisting, it reverses the render's
     * array in place (back to oldest first), builds the set of its ids, moves
     * `roomId` to the end and stores the first ten. It always dispatches
     * `view_room` and finishes the dialog.
     */
    method ViewRoom(roomId: RoomId, persist: bool)
      modifies this
      ensures persist ==> recentSearches == Reverse(old(recentSearches))
      ensures persist ==> slot == StringArray(UpdatedRecents(RoomIds(Reverse(old(recentSearches))), roomId))
      ensures persist ==> NoDuplicates(slot.ids) && |slot.ids| <= MaxRecentSearches
      ensures !persist ==> slot == old(slot) && recentSearches == old(recentSearches)
      ensures dispatched == old(dispatched) + [roomId] && finished
    {
      if persist {
        recentSearches := Reverse(recentSearches);
        var recents := Dedup(RoomIds(recentSearches));
        recents := Remove(recents, roomId);
        recents := AddLast(recents, roomId);
        slot := StringArray(Take(recents, MaxRecentSearches));
        UpdatedRecentsBounded(RoomIds(recentSearches), roomId);
      }
      dispatched := dispatched + [roomId];
      finished := true;
    }

    /** A click on a main result persists it. */
    method ClickResult(room: Room)
      modifies this
      ensures recentSearches == Reverse(old(recentSearches))
      ensures slot == StringArray(UpdatedRecents(RoomIds(Reverse(old(recentSearches))), room.roomId))
      ensures dispatched == old(dispatched) + [room.roomId] && finished
    {
      ViewRoom(room.roomId, true);
    }

    /** A click on a result among the space's rooms persists it. */
    method ClickSpaceResult(room: HierarchyRoom)
      modifies this
      ensures recentSearches == Reverse(old(recentSearches))
      ensures slot == StringArray(UpdatedRecents(RoomIds(Reverse(old(recentSearches))), room.roomId))
      ensures dispatched == old(dispatched) + [room.roomId] && finished
    {
      ViewRoom(room.roomId, true);
    }

    /** A click on a recent search persists it. */
    method ClickRecentSearch(room: Room)
      modifies this
      ensures recentSearches == Reverse(old(recentSearches))
      ensures slot == StringArray(UpdatedRecents(RoomIds(Reverse(old(recentSearches))), room.roomId))
      ensures dispatched == old(dispatched) + [room.roomId] && finished
    {
      ViewRoom(room.roomId, true);
    }

    /** A click on a "Recently viewed" breadcrumb does not persist: storage is untouched. */
    method ClickBreadcrumb(room: Room)
      modifies this
      ensures slot == old(slot) && recentSearches == old(recentSearches)
      ensures dispatched == old(dispatched) + [room.roomId] && finished
    {
      ViewRoom(room.roomId, false);
    }
  }

  /**
   * Rendering from a stored list and then persisting a view stores the update
   * of the stored ids that resolve to a room, oldest first.
   */
  method RenderThenPersist(stored: seq<RoomId>, known: map<RoomId, Room>, roomId: RoomId) returns (d: Dialog)
    requires WellFormedRegistry(known)
    ensures fresh(d)
    ensures d.slot == StringArray(UpdatedRecents(Filter(stored, IsKnown(known)), roomId))
  {
    d := new Dialog(StringArray(stored), known);
    LoadedIdsAreKnownStoredIdsReversed(stored, known);
    d.ViewRoom(roomId, true);
  }
}
