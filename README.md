# Leaderboard ranking engine, modelled in Dafny

This project models the in-memory ranking engine of a game leaderboard service, along with the
record store that feeds it.

- **Player records.** A player record is an id and an mmr (matchmaking rating).
- **Record store.** `PlayerMemoryStore` keeps the records in a map. Each create, update or
  delete is validated first, then applied, then broadcast as an event to every registered
  consumer.
- **Leaderboard.** `PlayerLeaderBoard` consumes those events. It keeps an id→player map and
  an array of the same players sorted by mmr descending, then id descending.
  - A player's rank is one more than its index in that array.
  - A player's tier is read off its rank and the number of players.
  - `get` serves two query strategies, `rank` and `around_player`. Each has its own
    validation order.
- **Ordered lists.** Two implementations of the order-statistics list abstraction
  `PlayerList` are modelled too:
  - the sorted array `PlayerArrayList`;
  - the size-augmented, unbalanced binary search tree `PlayerBSTList`, whose nodes find
    their rank by walking their parent links.

## Modules

One Dafny module per source file, plus one for the JavaScript built-ins the code relies on.

- `Errors` (`errors.dfy`): the error kinds and their HTTP codes.
- `Store` (`store.dfy`): the record, the events, and payload validation.
- `JsArray` (`js_array.dfy`): `slice`, `indexOf`, `findIndex`, `splice` and `sort`.
  - `sort` is modelled as a stable insertion sort.
  - It is proved to produce the unique sorted arrangement under `compare`. So any correct
    sort gives the same array.
- `PlayerList` (`list.dfy`): `compare`, rank order, and the abstract list contracts, which
  are stated as specification functions `Ahead` and `RankWindow`.
- `ArrayList` (`array_list.dfy`): `PlayerArrayList`, a class over a sequence field.
- `BstList` (`bst.dfy`): `PlayerBSTList`.
  - The mutable parent-linked nodes are modelled as a tree value held in the list's `root`
    field.
  - A node is addressed by a reference: its subtree plus the frames of its ancestors.
  - Walking the frames stands for walking `parent` links. Rebuilding the frames stands for
    the rewiring and the `updateSize` walk.
- `Leaderboard` (`leaderboard.dfy`): `PlayerLeaderBoard`, its queries and its event
  handlers.
  - The effect of an event on the id map is also given as a pure function, `AfterEvent`.
- `MemoryStore` (`memory_store.dfy`): `PlayerMemoryStore` together with the store methods
  it inherits from `PlayerStore`.
  - The registered consumers are a field of the class.
  - A broadcast is a loop handing the event to each consumer.
  - A ghost log records every event broadcast.
  - The class invariant says every registered leaderboard holds exactly the store's map.
    Every public call keeps this invariant, so after the INIT snapshot and each broadcast
    event the leaderboard's map equals the store's map.
- `Conformance` (`conformance.dfy`): the two list implementations side by side.
  - Started from the same items, the same calls keep them equal.
  - Their `size`, rank and `getByRank` answers agree.

## Model

| member | source | states |
|---|---|---|
| Errors.Code | src/error.ts:1-48 | 422 exactly for the seven validation errors; 400 exactly for an already-existing player; 404 exactly for a missing player; 500 exactly for an internal error |
| Store.ValidatePayload | src/store/store.ts:108-122 | Checks in order: the id must be a positive integer, then the mmr a non-negative integer, then the id's presence must match `shouldExist`. Each failure gives its own error (id, mmr, not found, already existing). Success returns exactly the payload's record |
| Store.DeleteValidationIgnoresMmr | src/store/store.ts:94-98 | With the mmr fixed at 1, a delete fails only with an id-validation or not-found error. It succeeds exactly when the id is a valid stored id |
| Store.MmrBoundary | src/store/store.ts:112-114 | An mmr of 0 is accepted; -1 and a non-integral mmr give the mmr-validation error |
| JsArray.ClampIndex | src/leaderboard/list/array.ts:12-14 | A `slice` argument becomes a position within the array: in-range values are kept, values past the end give the length, negative values count from the end |
| JsArray.Slice | src/leaderboard/list/array.ts:12-14 | `slice` returns the elements between the clamped start and end, in order, and is empty when the start is not before the end |
| JsArray.IndexOf | src/leaderboard/leaderboard.ts:66 | `indexOf`: -1 exactly when the element is absent; otherwise the position of its first occurrence |
| JsArray.FindIndex | src/leaderboard/list/array.ts:16-18 | `findIndex`: -1 exactly when no element passes the test; otherwise the first position that does |
| JsArray.RemoveAt | src/leaderboard/leaderboard.ts:155 | `splice(i, 1)` drops exactly the element at `i`: the elements before it stay in place, the ones after shift down by one, and the multiset loses that one element |
| JsArray.ReplaceAt | src/leaderboard/leaderboard.ts:147 | `splice(i, 1, x)` puts `x` at `i` and leaves every other position unchanged |
| JsArray.SortBySorted | src/leaderboard/leaderboard.ts:164-178 | `sort` with a consistent comparator leaves the array sorted, and it is a permutation of its input |
| JsArray.SortedUnique | src/leaderboard/leaderboard.ts:164-178 | Two sorted permutations of the same elements are equal when the comparator ties only identical elements, so the result of `sort` does not depend on the algorithm |
| JsArray.StrictlySortedUnique | src/leaderboard/leaderboard.ts:164-178 | Two strictly sorted sequences with the same members are equal |
| JsArray.RemoveAtSorted | src/leaderboard/list/array.ts:25-32 | Removing one element keeps an array sorted, and keeps a strictly sorted one strictly sorted |
| JsArray.InsertBySorted | src/leaderboard/list/array.ts:20-23 | The sorted insertion of one element into a sorted array is sorted |
| JsArray.InsertByMembers | src/leaderboard/list/array.ts:20-23 | The sorted insertion holds the old elements and the new one, and nothing else |
| PlayerList.Compare | src/leaderboard/list/list.ts:4-16 | -1 exactly when `a` ranks first (higher mmr, or equal mmr and higher id); 1 exactly when `b` ranks first; 0 exactly when the records are equal |
| PlayerList.CompareAntisymmetric | src/leaderboard/list/list.ts:4-16 | `compare(a, b) == -compare(b, a)` |
| PlayerList.PrecedesIsStrictTotalOrder | src/leaderboard/list/list.ts:4-16 | Ranking first is irreflexive, asymmetric, transitive and total on distinct records |
| PlayerList.CompareIsComparator | src/leaderboard/list/list.ts:4-16 | `compare` meets what `sort` needs of a comparator, and ties only identical records |
| PlayerList.InRankOrderIsStrictlySorted | src/leaderboard/list/list.ts:4-16 | A sequence is in rank order exactly when it is strictly sorted by `compare` |
| PlayerList.PushThenSort | src/leaderboard/list/array.ts:20-23 | `push` then `sort` on a sorted array is the sorted insertion of the new item, and the result is sorted |
| PlayerList.InsertByInRankOrder | src/leaderboard/list/array.ts:20-23 | Inserting an absent record keeps a list strictly in rank order |
| PlayerList.RemoveAtInRankOrder | src/leaderboard/list/array.ts:25-32 | Removing an item keeps a list in rank order |
| PlayerList.RemoveAtMembers | src/leaderboard/list/array.ts:25-32 | Removing the item at a position of a list in rank order leaves exactly the other items |
| PlayerList.RankOrderUnique | src/leaderboard/list/list.ts:4-16 | A list in rank order is determined by which records it holds |
| PlayerList.PositionCountsAhead | src/leaderboard/list/list.ts:20 | In a list in rank order, the item at position `i` has exactly `i` items ranked before it, so its rank `i + 1` counts the items ahead of it |
| PlayerList.RankWindow | src/leaderboard/list/list.ts:19 | The `getByRank(from, to)` contract: an entry is in the window exactly when its rank lies in `[from, to]` and in `1..size` and its record is the item at that rank |
| PlayerList.RankWindowAscends | src/leaderboard/list/list.ts:19 | The window lists its entries in strictly ascending rank order |
| PlayerList.RankWindowAt | src/leaderboard/list/list.ts:19 | The window's `k`-th entry is the item ranked `max(from, 1) + k` |
| ArrayList.PlayerArrayList.constructor | src/leaderboard/list/array.ts:6 | A new list is empty and sorted |
| ArrayList.PlayerArrayList.Size | src/leaderboard/list/array.ts:8-10 | `size` is the number of items |
| ArrayList.PlayerArrayList.GetByRank | src/leaderboard/list/array.ts:12-14 | `getByRank(from, to)` is `slice(from - 1, to)`. For `from >= 1` it is the records of the ranks `[from, to]`, which is empty when `from` exceeds the size |
| ArrayList.PlayerArrayList.RankOf | src/leaderboard/list/array.ts:16-18 | 0 exactly when no item carries the id; otherwise one more than the position of the first item that does |
| ArrayList.PlayerArrayList.Insert | src/leaderboard/list/array.ts:20-23 | The array becomes the sorted insertion of the item: it holds the old items plus the new one, and stays sorted |
| ArrayList.PlayerArrayList.Delete | src/leaderboard/list/array.ts:25-32 | Nothing changes when no item carries the id. Otherwise exactly the first such item is removed, and the array stays sorted |
| ArrayList.PlayerArrayList.Clear | src/leaderboard/list/array.ts:34-36 | The array becomes empty |
| ArrayList.SliceIsRankWindow | src/leaderboard/list/common.ts:47-78 | For positive arguments the clamped slice is the window of ranks `[from, to]` |
| ArrayList.InsertThenDeleteRestores | src/leaderboard/list/common.ts:35-44 | Inserting a record with a new id and then deleting that id gives back the original array, so every other item keeps its rank |
| BstList.SizeIsCount | src/leaderboard/list/bst.ts:24-26 | With consistent size fields, a node's size is the number of items in its subtree |
| BstList.GetRank | src/leaderboard/list/bst.ts:203-220 | The parent-link walk returns one plus the number of items ranked before the node's item. The item sits at that rank in the whole tree |
| BstList.UpdateSize | src/leaderboard/list/bst.ts:195-201 | The items and their order are untouched. Every size up to the root is consistent again, provided the rest of the tree was |
| BstList.SetLeft | src/leaderboard/list/bst.ts:181-186 | The child's items take the place of the node's left subtree in the in-order listing, and sizes stay consistent |
| BstList.SetRight | src/leaderboard/list/bst.ts:188-193 | The child's items take the place of the node's right subtree in the in-order listing, and sizes stay consistent |
| BstList.UnsetParent | src/leaderboard/list/bst.ts:166-179 | The node's subtree leaves the tree, the other items stay in order, and sizes stay consistent |
| BstList.Replace | src/leaderboard/list/bst.ts:8-12 | Hanging a subtree where a node was (`setRoot` at the root, otherwise `setLeft` or `setRight` on the parent) puts its items in the node's place |
| BstList.HangLeft | src/leaderboard/list/bst.ts:36-44 | When the search walk falls off a left edge, hanging the new leaf there gives the sorted insertion of the absent item, and the tree stays a consistent search tree |
| BstList.HangRight | src/leaderboard/list/bst.ts:45-51 | When the search walk falls off a right edge, hanging the new leaf there gives the sorted insertion of the absent item, and the tree stays a consistent search tree |
| BstList.HungLeft | src/leaderboard/list/bst.ts:36-44 | Hanging an absent item as the left child where the search stopped lists exactly its sorted insertion, which stays in rank order |
| BstList.HungRight | src/leaderboard/list/bst.ts:45-51 | Hanging an absent item as the right child where the search stopped lists exactly its sorted insertion, which stays in rank order |
| BstList.Graft | src/leaderboard/list/bst.ts:66-72 | Grafting the left subtree under the leftmost node of the right subtree lists the right subtree's items and then the left subtree's, with consistent sizes |
| BstList.Unlink | src/leaderboard/list/bst.ts:66-99 | Taking a node out in any of the three cases leaves its subtrees' items, in order, where its own item was |
| BstList.WindowIsRankWindow | src/leaderboard/list/bst.ts:102-125 | The set of a tree's nodes with a rank in `[start, end]` is the list contract's rank window |
| BstList.Pruned | src/leaderboard/list/bst.ts:117-122 | A child the walk does not queue holds no rank in `[start, end]`, so the pruning never drops a qualifying node |
| BstList.CollectWindow | src/leaderboard/list/bst.ts:108-123 | The breadth-first walk collects exactly the ranked items of the window, as a multiset |
| BstList.PlayerBSTList.constructor | src/leaderboard/list/bst.ts:5-6 | A new tree is empty and consistent |
| BstList.PlayerBSTList.Clear | src/leaderboard/list/bst.ts:14-22 | The tree becomes empty |
| BstList.PlayerBSTList.Size | src/leaderboard/list/bst.ts:24-26 | The root's size, or 0 for an empty tree, is the number of items |
| BstList.PlayerBSTList.FindNode | src/leaderboard/list/bst.ts:138-154 | Nothing exactly when no node holds the record (looked up by mmr and id). Otherwise a reference to the node holding it |
| BstList.PlayerBSTList.Find | src/leaderboard/list/bst.ts:127-136 | Null exactly when the record is absent. Otherwise the record with rank one more than the number of items ranked before it |
| BstList.PlayerBSTList.Insert | src/leaderboard/list/bst.ts:29-57 | The items become the sorted insertion of the new record. A record already present changes nothing. Sizes and search order stay consistent |
| BstList.PlayerBSTList.Delete | src/leaderboard/list/bst.ts:60-100 | Nothing changes when the record is absent. Otherwise exactly that record is removed, the order is kept and sizes stay consistent |
| BstList.PlayerBSTList.GetByRank | src/leaderboard/list/bst.ts:102-125 | Exactly the items ranked `start` to `end`, each with its rank, sorted by rank. Empty when `end < start` or the tree is empty |
| Leaderboard.RankToTier | src/leaderboard/leaderboard.ts:115-133 | The tier returned admits the rank: Challenger takes the top 100 ranks; Master, Diamond, Platinum, Gold and Silver take ranks with `rank / total` at most 1, 5, 10, 25 and 65 percent; Bronze takes every rank |
| Leaderboard.RankToTierIsBest | src/leaderboard/leaderboard.ts:115-133 | No better tier admits the rank, so `rankToTier` picks the best tier that takes the player in |
| Leaderboard.TierMonotone | src/leaderboard/leaderboard.ts:115-133 | A worse rank never earns a better tier |
| Leaderboard.TierBoundaries | src/leaderboard/leaderboard.spec.ts:82-107 | The tier boundaries in a field of 25,000 players fall at ranks 100, 250, 1250, 2500, 6250 and 16250 |
| Leaderboard.SortComparator | src/leaderboard/leaderboard.ts:165-177 | The leaderboard's sort comparator coincides with `PlayerList.compare` |
| Leaderboard.DistinctIdsCons | src/leaderboard/leaderboard.ts:189-194 | A payload's ids are distinct exactly when the first id is not among the rest and the rest are distinct |
| Leaderboard.AddAllOutcome | src/leaderboard/leaderboard.ts:189-194 | The INIT loop succeeds exactly when the payload's ids are distinct and new. When it fails, it fails with an internal error |
| Leaderboard.AddAllKeys | src/leaderboard/leaderboard.ts:189-194 | INIT with distinct, new ids succeeds, and the registered ids become the old ones plus the payload's |
| Leaderboard.AddAllSize | src/leaderboard/leaderboard.ts:189-194 | A successful INIT adds one entry per payload player, so the count grows by the payload's length |
| Leaderboard.AddAllValues | src/leaderboard/leaderboard.ts:189-194 | A successful INIT holds each payload player under its id and keeps what was there before |
| Leaderboard.AddAllStep | src/leaderboard/leaderboard.ts:191-193 | One turn of the INIT loop: the first player is new, and the rest are still distinct and new |
| Leaderboard.CountIsMapSize | src/leaderboard/leaderboard.ts:51-53 | Under the invariant, the array and the map hold equally many players |
| Leaderboard.TreeFollowsMap | src/leaderboard/leaderboard.ts:164-178 | The sorted array is determined by the map: two arrays in rank order listing the map's players are equal |
| Leaderboard.RankOrderPositioned | src/leaderboard/leaderboard.ts:104-113 | An array in rank order lists no player twice, so `indexOf` finds each player at its own position |
| Leaderboard.WithRank | src/leaderboard/leaderboard.ts:104-113 | The internal assertion fails exactly when the player is not in the array. Otherwise the result is the player with rank `index + 1` (between 1 and the count) and the tier of that rank |
| Leaderboard.RankCountsAhead | src/leaderboard/leaderboard.ts:104-113 | The rank `mapPlayerWithRank` reports is one more than the number of players ranked ahead |
| Leaderboard.WithRanks | src/leaderboard/leaderboard.ts:78 | Mapping `mapPlayerWithRank` succeeds exactly when every player is on the board, and otherwise fails with the internal error. On success each entry is that player's `mapPlayerWithRank` result, in the same order |
| Leaderboard.SliceRanks | src/leaderboard/leaderboard.ts:73-78 | When no player is listed twice, positions `lo` to `hi` of the array come back as the window of ranks `lo + 1` to `hi`, each with the tier of its rank |
| Leaderboard.RankQuery | src/leaderboard/leaderboard.ts:80-90 | A limit outside `[0, 100]` gives the limit error, checked before the offset. Otherwise a negative offset gives the offset error. These are the only failures |
| Leaderboard.RankQueryWindow | src/leaderboard/leaderboard.ts:88-90 | When no player is listed twice and the arguments are valid, the result is the players ranked `offset + 1` to `offset + limit`, clipped to the count (so empty when the offset is past the end), each with its tier |
| Leaderboard.AroundQuery | src/leaderboard/leaderboard.ts:56-78 | Checks in order: a player id that is not a number gives the player-id error; an absent player gives not-found; a player missing from the array fails the internal assertion; then a range outside `[0, 50]` gives the range error. These are the only failures |
| Leaderboard.AroundQueryWindow | src/leaderboard/leaderboard.ts:73-78 | When no player is listed twice, for a registered player on the board, of rank `r` (its `indexOf` position plus one), and a valid range, the result is the players ranked `r - range` to `r + range`, clipped at rank 1 and at the count and not re-centred, each with its tier |
| Leaderboard.AroundFound | src/leaderboard/leaderboard.ts:56-78 | With the player found and a valid range, the `around_player` strategy succeeds with the entries around the player's `indexOf` position |
| Leaderboard.AroundIndexWindow | src/leaderboard/leaderboard.ts:73-77 | The slice `max(0, index - range)` to `index + range + 1` is the rank window around rank `index + 1`, each entry with its tier |
| Leaderboard.IndexesAdd | src/leaderboard/leaderboard.ts:136-141 | Registering a new player in the map and the array keeps them listing the same players |
| Leaderboard.IndexesRemove | src/leaderboard/leaderboard.ts:151-157 | Removing a player from the map and the array keeps them listing the same players |
| Leaderboard.Added | src/leaderboard/leaderboard.ts:136-141 | For a new player, push then sort is the sorted insertion, and the invariant holds afterwards |
| Leaderboard.Deleted | src/leaderboard/leaderboard.ts:151-157 | A registered player is in the array. Splicing it out keeps the array in rank order (so the sort changes nothing), and the invariant holds afterwards |
| Leaderboard.Updated | src/leaderboard/leaderboard.ts:143-149 | Splicing the new record in place of the old and sorting is taking the old record out and inserting the new one in order, and the invariant holds afterwards |
| Leaderboard.ReplaceThenSort | src/leaderboard/leaderboard.ts:147-148 | Sorting after an in-place replacement gives the sorted insertion of the new record into the rest |
| Leaderboard.PlayerLeaderBoard.constructor | src/leaderboard/leaderboard.ts:46-48 | A new board is empty and consistent |
| Leaderboard.PlayerLeaderBoard.Count | src/leaderboard/leaderboard.ts:51-53 | `count` is the number of registered players |
| Leaderboard.PlayerLeaderBoard.Get | src/leaderboard/leaderboard.ts:55-94 | `around_player` and `rank` go to their queries; any other strategy gives the strategy error |
| Leaderboard.PlayerLeaderBoard.Find | src/leaderboard/leaderboard.ts:96-102 | Not-found exactly when the id is absent. Otherwise the player's record with rank one more than the number of players ahead of it, between 1 and the count, and the tier of that rank |
| Leaderboard.PlayerLeaderBoard.Sort | src/leaderboard/leaderboard.ts:164-178 | The array is sorted by `compare`; the map is untouched |
| Leaderboard.PlayerLeaderBoard.OnPlayerAdd | src/leaderboard/leaderboard.ts:136-141 | An id already registered fails the assertion and nothing changes. Otherwise the player is registered and inserted at its rank. The invariant is kept |
| Leaderboard.PlayerLeaderBoard.OnPlayerUpdate | src/leaderboard/leaderboard.ts:143-149 | An id not registered fails the assertion and nothing changes. Otherwise the new record replaces the old in the map, and the array moves it to its new rank. The invariant is kept |
| Leaderboard.PlayerLeaderBoard.OnPlayerDelete | src/leaderboard/leaderboard.ts:151-157 | An id not registered fails the assertion and nothing changes. Otherwise the player leaves the map and the array. The invariant is kept |
| Leaderboard.PlayerLeaderBoard.Clear | src/leaderboard/leaderboard.ts:159-162 | The map and the array become empty |
| Leaderboard.PlayerLeaderBoard.OnPlayerStoreEvent | src/leaderboard/leaderboard.ts:187-205 | The map and the outcome are what the event specifies. INIT clears the board and adds the payload in order, stopping at the first failure. The invariant is kept |
| MemoryStore.RemoveKey | src/store/store.memory.ts:48-51 | Removing a key from the map's iteration order leaves the other keys, still each listed once |
| MemoryStore.InitFromSnapshot | src/store/store.ts:48-59 | An INIT carrying a snapshot of the store's map leaves any board holding exactly that map, and it succeeds |
| MemoryStore.PlayerMemoryStore.constructor | src/store/store.memory.ts:7-8 | A new store is empty, with no consumers and nothing broadcast |
| MemoryStore.PlayerMemoryStore.Read | src/store/store.memory.ts:53-55 | `read` lists every stored record exactly once, with distinct ids, and nothing else, in the map's iteration order: the i-th record is the one stored under the i-th key |
| MemoryStore.PlayerMemoryStore.Has | src/store/store.memory.ts:61-63 | True exactly when some stored record carries the id |
| MemoryStore.PlayerMemoryStore.Count | src/store/store.memory.ts:57-59 | The number of keys, which is the number of records `read` returns |
| MemoryStore.PlayerMemoryStore.Create | src/store/store.memory.ts:34-39 | The id maps to the payload; a new id joins the end of the iteration order |
| MemoryStore.PlayerMemoryStore.Update | src/store/store.memory.ts:41-46 | The entry for the id is overwritten. The other entries and the count are unchanged |
| MemoryStore.PlayerMemoryStore.Delete | src/store/store.memory.ts:48-51 | The id leaves the map, so `has` becomes false; the other entries stay |
| MemoryStore.PlayerMemoryStore.Broadcast | src/store/store.ts:66-69 | The event is logged once and handed to every consumer. Provided each consumer accepts the event (its handler passes and takes its map to the store's map), the emit succeeds and each consumer ends holding the store's map |
| MemoryStore.PlayerMemoryStore.Deliver | src/store/store.ts:66-69 | Each consumer in turn handles the event, and a failing handler would stop the emit and be its result. When every consumer accepts the event, no handler fails, and afterwards every consumer holds the store's map and stays consistent |
| MemoryStore.PlayerMemoryStore.CreateAndBroadcast | src/store/store.ts:72-81 | The result is the validation's verdict with `shouldExist` false. On failure nothing changes and nothing is broadcast. On success the record is stored, one ADD carrying it is logged, and every consumer holds the store's map |
| MemoryStore.PlayerMemoryStore.UpdateAndBroadcast | src/store/store.ts:83-92 | The result is the validation's verdict with `shouldExist` true. On failure nothing changes and nothing is broadcast. On success the record replaces the stored one and the count is kept. One UPDATE is logged, and every consumer holds the store's map |
| MemoryStore.PlayerMemoryStore.DeleteAndBroadcast | src/store/store.ts:94-106 | Fails exactly when validation with mmr 1 fails, and with the same error, changing nothing. On success the id is removed, one DELETE is logged, and every consumer holds the store's map |
| MemoryStore.PlayerMemoryStore.RegisterConsumer | src/store/store.ts:48-59 | The board joins the consumers and receives an INIT with the `read` snapshot. The INIT's handler passes, and afterwards the board holds exactly the store's map |
| MemoryStore.PlayerMemoryStore.UnregisterConsumer | src/store/store.ts:61-64 | The board stops receiving events |
| MemoryStore.PlayerMemoryStore.Stop | src/store/store.ts:42-45 | Every consumer is removed |
| Conformance.LookupById | src/leaderboard/list/common.ts:9-28 | When only one item carries an id, looking the id up finds that item's position |
| Conformance.SizeBoth | src/leaderboard/list/common.ts:7-28 | Both lists report the same size |
| Conformance.InsertBoth | src/leaderboard/list/common.ts:9-28 | Inserting an absent record into both keeps them equal, and both hold its sorted insertion |
| Conformance.DeleteBoth | src/leaderboard/list/common.ts:9-28 | Deleting by id from the array and by record from the tree removes the same item, or nothing, and keeps them equal |
| Conformance.RankBoth | src/leaderboard/list/common.ts:30-45 | The array's `rankOf` and the tree's `find` agree: one more than the number of items ahead, or 0 and null when absent |
| Conformance.WindowBoth | src/leaderboard/list/common.ts:47-78 | `getByRank` with a positive start gives the same records, in the same order, from both lists |

## Left out

- The HTTP server (src/api/server.ts), the bootstrap (src/index.ts) and the red-black tree
  wrapper (src/leaderboard/rbtree.ts) are not part of this model.
  - The wrapper's library code is not available to model.
- `PlayerMemoryStore.start` is not modelled. It reads a data file, honours an environment
  switch and parses lines with `parseInt`, which is file I/O.
  - The base class's `start` only logs.
- Promises, `async`/`await`, `console.log` and `console.error` are left out. Every call is
  modelled as completing before the next begins.
  - This leaves out the race between subscribing a consumer and reading its snapshot.
- The `EventEmitter` listener list is modelled as a set of boards:
  - Registering the same board twice is not modelled.
  - The order in which consumers receive an event is not modelled.
  - A throwing listener is modelled as a failing outcome that ends the emit. The store's
    calls prove that no registered board fails, so none throws.
  - Listeners that were added to the emitter other than through `registerConsumer` are not
    modelled.
- `rankToTier` divides in floating point. The model compares `rank * 100` with
  `percent * total` in exact integers, which agrees with the tested boundaries.
- Query parameters are integers or "not a number".
  - Fractional or infinite `offset`, `limit`, `range` and `player_id` values are not
    modelled.
  - Payload fields additionally distinguish a non-integral number, which validation rejects.
- `indexOf` compares object references, and the model compares record values. Under the
  leaderboard's invariant the array holds each record once, so the two agree.
- `PlayerArrayList.getByRank` with a start of 0 or below is modelled as JavaScript `slice`
  does it, but the window lemmas cover only positive starts, as the list contract does.
- Complexity and balancing are not modelled; the tree is unbalanced, as written.
- The size updates `updateSize` makes partway through a rewiring, which a later update
  overwrites, are not modelled separately. Only the consistent sizes after each public call
  are stated.
- The string values of `PlayerTier` and of the event types are not modelled.
  - One of them is spelled "BROZNE" in the source.
- The DELETE event carries only the id. The source forwards the whole payload object it was
  given.
- Leaderboard.SliceRanks: stated only for arrays that list no player twice. The board's
  invariant guarantees this (Leaderboard.RankOrderPositioned). With a duplicate, `indexOf`
  would report the first copy's rank.
- Leaderboard.RankQueryWindow: the same restriction, for the same reason.
- Leaderboard.AroundQueryWindow: the same restriction, for the same reason.
- BstList.CollectWindow: states the collected items as a multiset. The final sort by rank,
  in BstList.PlayerBSTList.GetByRank, fixes their order.
- bst.ts does not follow the list contract's signatures, and is modelled as written:
  - `delete` and `find` take a whole record rather than an id;
  - there is no `rankOf`.
- The shared list test suite's driver is not modelled. Conformance.InsertBoth,
  Conformance.DeleteBoth, Conformance.RankBoth and Conformance.WindowBoth state the
  agreement it relies on.
