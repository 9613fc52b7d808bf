# Spotlight search lists and the voice broadcast playback control, in Dafny

This project models two parts of the chat client's Matrix React SDK that hold
real logic:

- **The Spotlight search dialog** (`SpotlightDialog.tsx`). The dialog keeps a
  list of recently searched room ids in one local-storage slot. It loads that
  list when it renders and rewrites it when a room is viewed with
  `persist = true`. It also runs two searches: the main one over the client's
  rooms, and one over the rooms of the active space that the user has not
  joined. It splits the main results into people (rooms with a direct-message
  user) and rooms, and shows at most 50 entries per section.
- **The playback control button** (`PlaybackControlButton.tsx`). The playback
  state (Playing, Paused, Stopped) picks the button's icon from a constant
  table and its accessibility label from a conditional expression.

Files:

- `wrappers.dfy`: `Option`, which stands for JavaScript's `null`/`undefined`.
- `sequences.dfy`: the JavaScript operations the dialog relies on, each with
  its properties. These are `reverse`, `filter`, `includes`, `slice(0, n)`, and
  the insertion-ordered `Set`, held as a duplicate-free sequence: `new Set`,
  `delete` and `add`.
- `spotlight_dialog.dfy`: module `SpotlightDialog`. It holds the loading and
  update functions with their lemmas, the two searches, the partition method
  and the `Dialog` class. `Dialog` has the storage slot as a field, and its
  `ViewRoom` method rewrites that slot.
- `playback_control_button.dfy`: module `PlaybackControlButton`.

The SDK and the browser are inputs to the model.

- `cli.getRoom` is a `map<RoomId, Room>`, and `cli.getRooms()` is a `seq<Room>`.
- `DMRoomMap.getUserIdForRoomId` is a `map<RoomId, string>`. An empty user id
  counts as "no DM user", because JavaScript treats `""` as false.
- `trim`, `toLowerCase` and `normalize` are function-typed parameters whose
  behaviour is not specified (`TextOps`).
- The storage slot holds what `JSON.parse` makes of its text (`Slot`): a parse
  error, a value that is not an array, or an array of ids. A missing key falls
  in the second case, because `JSON.parse(null)` is `null`.

The update of the stored list keeps the wrong end of it, and the model
follows the code as written. Loading reverses the stored ids into
most-recent-first order (SpotlightDialog.tsx:79). `viewRoom` reverses them
back (:189), and then deletes and re-adds the viewed room "to put it at the
end" (:190-192). So the end of the stored list is its most recent end. Yet
the code stores `Array.from(recents).slice(0, 10)` (:195), which keeps the
*first*, oldest ten. So once ten distinct rooms are stored, a newly viewed
room is dropped. `Dialog.ViewRoom` does what the code does. The discrepancy
is shown under "## Findings".

## Model

| member | source | states |
|---|---|---|
| `SpotlightDialog.LoadRecentSearches` | src/components/views/dialogs/SpotlightDialog.tsx:73-85 | A parse failure or non-array slot loads nothing (it never fails). Otherwise the result is no longer than the stored list. Every loaded room is the room of some known stored id, and every known stored id's room is loaded. |
| `SpotlightDialog.ResolveRooms` | src/components/views/dialogs/SpotlightDialog.tsx:79 | `map(getRoom).filter(Boolean)` keeps exactly the rooms of the known ids and never grows the list. |
| `SpotlightDialog.ResolvedRoomIds` | src/components/views/dialogs/SpotlightDialog.tsx:79 | For a registry that maps each id to the room with that id, the resolved rooms' ids are the known stored ids, in stored order. |
| `SpotlightDialog.LoadedIdsAreKnownStoredIdsReversed` | src/components/views/dialogs/SpotlightDialog.tsx:79 | The loaded list is exactly the stored ids that resolve to a room, most recent first. Reversing it gives them back in stored order. |
| `SpotlightDialog.RoomIds` | src/components/views/dialogs/SpotlightDialog.tsx:189 | `map(r => r.roomId)` keeps the length and gives each room's id at its position. |
| `SpotlightDialog.UpdatedRecents` | src/components/views/dialogs/SpotlightDialog.tsx:189-195 | The list a persisting view stores: the set of loaded ids, with the viewed room deleted and added again, cut by `slice(0, 10)`. Its contract bounds it to 10 entries; the lemmas below state what it holds. |
| `SpotlightDialog.UpdatedRecentsBounded` | src/components/views/dialogs/SpotlightDialog.tsx:189-195 | After a persisting view, the stored list has no duplicates and at most 10 entries. Each entry was loaded before or is the viewed room. |
| `SpotlightDialog.UpdatedRecentsMovesExistingToEnd` | src/components/views/dialogs/SpotlightDialog.tsx:189-195 | Viewing a room that is already stored keeps the length. The room becomes last, and the other ids keep their relative order. |
| `SpotlightDialog.UpdatedRecentsAppendsNew` | src/components/views/dialogs/SpotlightDialog.tsx:189-195 | With fewer than 10 distinct ids loaded, a new room is appended after them. |
| `SpotlightDialog.UpdatedRecentsFullDropsNewRoom` | src/components/views/dialogs/SpotlightDialog.tsx:189-195 | With 10 or more distinct ids loaded, the stored list is the first ten of them and the new room is not stored. |
| `SpotlightDialog.StoredFullListUnchanged` | src/components/views/dialogs/SpotlightDialog.tsx:195 | A full, duplicate-free stored list is left exactly as it was when a room not in it is viewed. |
| `SpotlightDialog.StoredEndingWithRoomUnchanged` | src/components/views/dialogs/SpotlightDialog.tsx:189-195 | A duplicate-free stored list of at most 10 ids that already ends with the viewed room is left exactly as it was. |
| `SpotlightDialog.FullRecentsExample` | src/components/views/dialogs/SpotlightDialog.tsx:195 | Concrete case: stored ids `!0`…`!9` plus a view of `!new` stores `!0`…`!9` again. |
| `SpotlightDialog.UpdatedRecentsIdempotent` | src/components/views/dialogs/SpotlightDialog.tsx:189-195 | Viewing the same room twice in a row stores the same list as viewing it once. |
| `SpotlightDialog.UpdatedRecentsLatest` | src/components/views/dialogs/SpotlightDialog.tsx:195 | The corrected update, which keeps the last ten entries of the set instead of the first ten. It is never empty and has at most 10 entries. |
| `SpotlightDialog.UpdatedRecentsLatestKeepsRoom` | src/components/views/dialogs/SpotlightDialog.tsx:195 | The corrected update keeps the last ten entries. The result has no duplicates and 1 to 10 entries, and the viewed room is always its last entry. |
| `SpotlightDialog.RoomMatches` | src/components/views/dialogs/SpotlightDialog.tsx:161 | The main search's test: the room's alias, when it has one, contains the lower-cased query, or its normalized name contains the normalized query. |
| `SpotlightDialog.MainResults` | src/components/views/dialogs/SpotlightDialog.tsx:153-163 | The result is null exactly when the untrimmed query is `""`. Otherwise it is an order-preserving subsequence of the client's rooms and contains exactly those whose alias contains the lower-cased trimmed query or whose normalized name contains the normalized query. |
| `SpotlightDialog.BlankQueryMatchesEveryRoom` | src/components/views/dialogs/SpotlightDialog.tsx:154-161 | A non-empty query that trims to `""` is not treated as empty. Every room matches it (given that normalizing `""` gives `""`). |
| `SpotlightDialog.IsJoined` | src/components/views/dialogs/SpotlightDialog.tsx:136 | `cli.getRoom(id)?.getMyMembership() === "join"`: false for an id the client does not know. |
| `SpotlightDialog.Eligible` | src/components/views/dialogs/SpotlightDialog.tsx:135-136 | A hierarchy room may be offered when it is not a space and the user has not joined it. |
| `SpotlightDialog.HierarchyRoomMatches` | src/components/views/dialogs/SpotlightDialog.tsx:138-139 | The normalized name, with `""` for a missing name, contains the normalized query, or the alias, with `""` for a missing alias, contains the lower-cased query. |
| `SpotlightDialog.SpaceResults` | src/components/views/dialogs/SpotlightDialog.tsx:128-141 | An order-preserving subsequence of the hierarchy rooms. It holds exactly the rooms that are not spaces, not joined, and match by normalized name or by alias. |
| `SpotlightDialog.EmptyQuerySpaceResults` | src/components/views/dialogs/SpotlightDialog.tsx:129-140 | When the query trims to `""`, every room that is not a space and not joined is a result, because `""` is contained in any alias. |
| `SpotlightDialog.HasDirectMessageUser` | src/components/views/dialogs/SpotlightDialog.tsx:209 | The DM user id is truthy: the room has an entry in the DM map and it is not `""`. |
| `SpotlightDialog.PartitionResults` | src/components/views/dialogs/SpotlightDialog.tsx:208-211 | The `reduce` loop puts the results with a DM user into people and the rest into rooms, each in result order. The two lengths add up to the number of results. |
| `SpotlightDialog.PartitionIsExact` | src/components/views/dialogs/SpotlightDialog.tsx:208-211 | Each result is in people exactly when it has a DM user, and in rooms exactly when it has none. Both sections are order-preserving subsequences of the results. |
| `SpotlightDialog.Section` | src/components/views/dialogs/SpotlightDialog.tsx:233 | A rendered section (people, rooms, and likewise space rooms at lines 243 and 253) shows a prefix of at most 50 entries, and shows all entries when there are at most 50. |
| `SpotlightDialog.Dialog.constructor` | src/components/views/dialogs/SpotlightDialog.tsx:151 | The dialog starts with the stored slot and the recent searches loaded from it. |
| `SpotlightDialog.Dialog.Render` | src/components/views/dialogs/SpotlightDialog.tsx:151 | Each render loads the recent searches again from the current slot. |
| `SpotlightDialog.Dialog.ViewRoom` | src/components/views/dialogs/SpotlightDialog.tsx:187-204 | When persisting, it reverses the render's array in place and stores the updated list, which has no duplicates and at most 10 entries. Without persisting, neither the slot nor the array changes. It always dispatches `view_room` for the room and finishes. |
| `SpotlightDialog.Dialog.ClickResult` | src/components/views/dialogs/SpotlightDialog.tsx:217-219 | Clicking a main result persists it: the loaded array is reversed in place and the slot gets the updated list. |
| `SpotlightDialog.Dialog.ClickSpaceResult` | src/components/views/dialogs/SpotlightDialog.tsx:257-259 | Clicking a space result persists it: the loaded array is reversed in place and the slot gets the updated list. |
| `SpotlightDialog.Dialog.ClickRecentSearch` | src/components/views/dialogs/SpotlightDialog.tsx:314-316 | Clicking a recent search persists it: the loaded array is reversed in place and the slot gets the updated list. |
| `SpotlightDialog.Dialog.ClickBreadcrumb` | src/components/views/dialogs/SpotlightDialog.tsx:295-297 | Clicking a "Recently viewed" breadcrumb leaves the slot and the loaded list exactly as they were. |
| `SpotlightDialog.RenderThenPersist` | src/components/views/dialogs/SpotlightDialog.tsx:187-195 | Loading a stored list and persisting a view stores the update of the known stored ids in stored order, for a registry that maps each id to the room with that id. |
| `Sequences.Reverse` | src/components/views/dialogs/SpotlightDialog.tsx:79 | `reverse` keeps the length and puts the element at position k at position n-1-k. |
| `Sequences.ReverseReverse` | src/components/views/dialogs/SpotlightDialog.tsx:189 | Reversing the loaded list again restores the oldest-first order. |
| `Sequences.Filter` | src/components/views/dialogs/SpotlightDialog.tsx:160 | `filter` keeps exactly the elements that pass the test and never grows the list. |
| `Sequences.FilterIsSubsequence` | src/components/views/dialogs/SpotlightDialog.tsx:134 | A filter's result is an order-preserving subsequence of its input. |
| `Sequences.FilterSplitLength` | src/components/views/dialogs/SpotlightDialog.tsx:209 | A test and its negation split a list into two parts whose lengths add up to the list's length. |
| `Sequences.Dedup` | src/components/views/dialogs/SpotlightDialog.tsx:189 | `new Set(ids)`, built by adding the ids one by one, is never longer than `ids`. |
| `Sequences.AddAll` | src/components/views/dialogs/SpotlightDialog.tsx:189 | The `Set` constructor's loop: adds the elements one by one to the set built so far, which grows by at most their number. |
| `Sequences.AddAllElements` | src/components/views/dialogs/SpotlightDialog.tsx:189 | Adding ids one by one keeps the set's entries in place, adds only the given ids, and keeps the set duplicate-free. |
| `Sequences.DedupElements` | src/components/views/dialogs/SpotlightDialog.tsx:189 | `new Set(ids)` has no duplicates and exactly the elements of `ids`. |
| `Sequences.AddAllFresh` | src/components/views/dialogs/SpotlightDialog.tsx:189 | Adding ids that are distinct and not yet in the set appends them in order. |
| `Sequences.DedupOfNoDuplicates` | src/components/views/dialogs/SpotlightDialog.tsx:189 | A duplicate-free list (such as a stored one) becomes a set in the same order. |
| `Sequences.Remove` | src/components/views/dialogs/SpotlightDialog.tsx:191 | After `delete` the id is absent, and the set is no longer than before. |
| `Sequences.RemoveElements` | src/components/views/dialogs/SpotlightDialog.tsx:191 | `delete` removes exactly the given id, keeps the others in order and keeps the set duplicate-free. |
| `Sequences.RemoveLength` | src/components/views/dialogs/SpotlightDialog.tsx:191 | In a duplicate-free list, `delete` shortens the list by one exactly when the id is present. |
| `Sequences.AddLast` | src/components/views/dialogs/SpotlightDialog.tsx:192 | After `add` the element is present. The set keeps its size when the element was already there and grows by one otherwise. |
| `Sequences.AddLastElements` | src/components/views/dialogs/SpotlightDialog.tsx:192 | `add` keeps every entry in its place, adds only the new element, and keeps the set duplicate-free. |
| `Sequences.Take` | src/components/views/dialogs/SpotlightDialog.tsx:195 | `slice(0, n)` is a prefix of at most n elements, and the whole list when it has at most n. |
| `Sequences.TakeLast` | src/components/views/dialogs/SpotlightDialog.tsx:195 | The corrected slice, `slice(-n)`: a suffix of at most n elements, exactly n when there are that many, and the whole list when it has at most n. |
| `Sequences.TakeLastElements` | src/components/views/dialogs/SpotlightDialog.tsx:195 | Keeping the last elements keeps the last one, adds nothing, and keeps a duplicate-free list duplicate-free. |
| `Sequences.Contains` | src/components/views/dialogs/SpotlightDialog.tsx:161 | `includes`: the needle is a prefix of some suffix of the string. |
| `Sequences.ContainsIffOccurs` | src/components/views/dialogs/SpotlightDialog.tsx:161 | `includes` holds exactly when the needle occurs at some index of the string. |
| `PlaybackControlButton.StateIcon` | src/voice-broadcast/components/atoms/PlaybackControlButton.tsx:24-28 | Every state has an icon. Playing maps to Pause, and Paused and Stopped map to Play. |
| `PlaybackControlButton.StateIconMap` | src/voice-broadcast/components/atoms/PlaybackControlButton.tsx:24-28 | The constant table: Playing to Pause, Paused and Stopped to Play. |
| `PlaybackControlButton.StateIconMapIsTotal` | src/voice-broadcast/components/atoms/PlaybackControlButton.tsx:24-28 | The icon table has an entry for every playback state. |
| `PlaybackControlButton.AriaLabel` | src/voice-broadcast/components/atoms/PlaybackControlButton.tsx:39-41 | The label is "pause voice broadcast" exactly when the state is Playing, and "resume voice broadcast" otherwise. |
| `PlaybackControlButton.Render` | src/voice-broadcast/components/atoms/PlaybackControlButton.tsx:39-51 | The rendered button always has an icon. The icon is Pause exactly when the state is Playing and exactly when the label is the pause label, and the label is one of the two labels. |
| `PlaybackControlButton.IconAgreesWithLabel` | src/voice-broadcast/components/atoms/PlaybackControlButton.tsx:24-41 | Icon and label agree: the icon is Pause if and only if the label is the pause label. |
| `PlaybackControlButton.PausedAndStoppedRenderAlike` | src/voice-broadcast/components/atoms/PlaybackControlButton.tsx:26-41 | Paused and Stopped render the same button: the resume label with the Play icon. |

## Left out

- JSX, React hooks, the roving tab index, focus handling in `setQuery` and keyboard handling (SpotlightDialog.tsx:168-185, 329-366): these are user-interface wiring.
- Section headings, the "No results" text, `ResultDetails` and the spinner are left out: they are rendering only.
- The asynchronous pagination of the space hierarchy, its `unmounted` flag and its `loading` flag (SpotlightDialog.tsx:102-126, 144) are left out. This code is asynchronous and the hierarchy object belongs to the SDK. The rooms it has gathered so far are an input sequence.
- `localStorage`, `JSON.parse` and `JSON.stringify` are left out as I/O. The slot holds the parse outcome, and a write stores the id array itself. This relies on JSON round-tripping an array of strings.
- A stored JSON array with elements that are not strings is left out: `Slot` holds only string arrays.
- `normalize`, `trim` and `toLowerCase` are left uninterpreted, because they are Unicode or SDK library functions. The lemmas that need `""` to map to `""` say so in their `requires`.
- The dispatcher and `onFinished` are recorded in `Dialog`'s fields (`dispatched`, `finished`) rather than performed.
- `Array.prototype.reverse` in `viewRoom` is modelled as reassigning `recentSearches` with the reversed sequence. Other references to the same JavaScript array are not modelled.
- `_t` localisation is left out. The labels are the English message keys.
- The icon's colour, the `onClick` pass-through and the other members of `IconType` are left out: only Play and Pause are used.
- The `VoiceBroadcastPlayback` play/pause transitions and its initial state are not part of this model. Their source is not among the files modelled. So the test's check that a fresh playback shows the "resume" label is modelled only as "every state other than Playing shows resume".
- `BridgeSettingsTab.js`, `VoiceBroadcastHeader.tsx` and `voice-broadcast/index.ts` are left out. They hold rendering of SDK event content, layout from two flags, and declarations.
- UpdatedRecentsMovesExistingToEnd: stated only for at most ten distinct loaded ids. With more, which only a slot written by something else can hold, the first-ten slice can drop the moved room itself.

## Findings

| source | as written | input that shows it | evidently intended | confidence | as-written member | corrected member |
|---|---|---|---|---|---|---|
| src/components/views/dialogs/SpotlightDialog.tsx:195 | `Array.from(recents).slice(0, MAX_RECENT_SEARCHES)` keeps the ten oldest entries of the oldest-first set | ten distinct stored ids `!0`…`!9` that all resolve, then `viewRoom("!new", true)`: the slot again holds `!0`…`!9`, so `!new` is never recorded | keep the ten most recent entries, so the viewed room is always stored last | high; not executed | `SpotlightDialog.UpdatedRecentsFullDropsNewRoom` | `SpotlightDialog.UpdatedRecentsLatestKeepsRoom` |

`SpotlightDialog.FullRecentsExample` is the concrete instance of the
as-written case: stored ids `!0`…`!9` and a view of `!new`. The corrected
update is `SpotlightDialog.UpdatedRecentsLatest`. `Dialog.ViewRoom`
keeps the behaviour as written, because the dialog's state is modelled as the
code runs.
