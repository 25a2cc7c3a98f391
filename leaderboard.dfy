/**
 * `PlayerLeaderBoard`: the ranking the server answers queries from. It keeps an id→player map
 * and an array of the same players sorted by the composite key (mmr descending, then id
 * descending); a player's rank is one more than its index in that array, and its tier is read
 * off its rank and the number of players. The store feeds it INIT, ADD, UPDATE and DELETE
 * events.
 */
module Leaderboard {
  import opened Errors
  import opened Store
  import opened JsArray
  import opened PlayerList

  /** `PlayerTier`, best first. Its string values are "CHALLENGER", "MASTER", "DIAMOND",
      "PLATINUM", "GOLD", "SILVER" and, for the last one, "BROZNE". */
  datatype Tier = Challenger | Master | Diamond | Platinum | Gold | Silver | Bronze

  /** A tier's position, best first. */
  function Level(t: Tier): nat {
    match t
    case Challenger => 0
    case Master => 1
    case Diamond => 2
    case Platinum => 3
    case Gold => 4
    case Silver => 5
    case Bronze => 6
  }

  /** Whether a tier takes in the player at `rank` of `total`: Challenger takes the top 100
      ranks; each other tier takes the top share of the field its name gives, as a
      percentage (Bronze: everyone). */
  predicate Admits(t: Tier, rank: int, total: int) {
    match t
    case Challenger => rank <= 100
    case Master => rank * 100 <= 1 * total
    case Diamond => rank * 100 <= 5 * total
    case Platinum => rank * 100 <= 10 * total
    case Gold => rank * 100 <= 25 * total
    case Silver => rank * 100 <= 65 * total
    case Bronze => rank * 100 <= 100 * total
  }

  /** `rankToTier`: the ratio `rank / total * 100` is compared by cross-multiplying. The
      result is the best tier that takes the player in. */
  function RankToTier(rank: int, total: int): (t: Tier)
    requires 1 <= rank <= total
    ensures Admits(t, rank, total)
  {
    if rank <= 100 then Challenger
    else if rank * 100 <= total then Master
    else if rank * 100 <= 5 * total then Diamond
    else if rank * 100 <= 10 * total then Platinum
    else if rank * 100 <= 25 * total then Gold
    else if rank * 100 <= 65 * total then Silver
    else Bronze
  }

  /** No tier better than the one `rankToTier` picks takes the player in. */
  lemma RankToTierIsBest(rank: int, total: int)
    requires 1 <= rank <= total
    ensures forall u :: Level(u) < Level(RankToTier(rank, total)) ==> !Admits(u, rank, total)
  {
  }

  /** A worse rank never earns a better tier. */
  lemma TierMonotone(rank1: int, rank2: int, total: int)
    requires 1 <= rank1 <= rank2 <= total
    ensures Level(RankToTier(rank1, total)) <= Level(RankToTier(rank2, total))
  {
    var t2 := RankToTier(rank2, total);
    assert Admits(t2, rank1, total);
    RankToTierIsBest(rank1, total);
  }

  /** The tier boundaries of a field of 25,000 players. */
  lemma TierBoundaries()
    ensures RankToTier(100, 25000) == Challenger && RankToTier(101, 25000) == Master
    ensures RankToTier(250, 25000) == Master && RankToTier(251, 25000) == Diamond
    ensures RankToTier(1250, 25000) == Diamond && RankToTier(1251, 25000) == Platinum
    ensures RankToTier(2500, 25000) == Platinum && RankToTier(2501, 25000) == Gold
    ensures RankToTier(6250, 25000) == Gold && RankToTier(6251, 25000) == Silver
    ensures RankToTier(16250, 25000) == Silver && RankToTier(16251, 25000) == Bronze
    ensures RankToTier(25000, 25000) == Bronze
  {
  }

  /** The leaderboard's own sort comparator: mmr descending, then id descending. */
  function SortComparator(a: Player, b: Player): (c: int)
    ensures c == Compare(a, b)
  {
    if a.mmr > b.mmr then -1
    else if a.mmr < b.mmr then 1
    else if a.id > b.id then -1
    else if a.id < b.id then 1
    else 0
  }

  /** A query parameter: a number, or anything that is not one (missing, another type, NaN). */
  datatype Param = Num(value: int) | NotANumber

  /** The arguments of `get`: the `rank` strategy, the `around_player` strategy, or any other
      strategy name. */
  datatype GetArgs =
    | RankArgs(offset: Param, limit: Param)
    | AroundPlayerArgs(playerId: Param, range: Param)
    | OtherStrategy

  /** `limit` must be a number in [0, 100]. */
  predicate LimitOk(p: Param) {
    p.Num? && 0 <= p.value <= 100
  }

  /** `offset` must be a number that is not negative. */
  predicate OffsetOk(p: Param) {
    p.Num? && p.value >= 0
  }

  /** `range` must be a number in [0, 50]. */
  predicate RangeOk(p: Param) {
    p.Num? && 0 <= p.value <= 50
  }

  /** A player as the queries return it: the record, its rank and its tier. */
  datatype PlayerWithRank = PlayerWithRank(id: int, mmr: int, rank: int, tier: Tier)

  /** The entry's rank is on a board of `total` players and its tier is that rank's. */
  predicate Tiered(x: PlayerWithRank, total: int) {
    1 <= x.rank <= total && x.tier == RankToTier(x.rank, total)
  }

  /** The records and ranks of query results, without their tiers. */
  function Ranked(rs: seq<PlayerWithRank>): (r: seq<RankedPlayer>)
    ensures |r| == |rs|
  {
    seq(|rs|, k requires 0 <= k < |rs| => RankedPlayer(Player(rs[k].id, rs[k].mmr), rs[k].rank))
  }

  /** What handling an event did: whether it threw, and the id→player map afterwards. */
  datatype Applied = Applied(outcome: Outcome, byId: map<int, Player>)

  /** `onPlayerAdd` on the map: an id already present fails the assertion and changes
      nothing. */
  function AfterAdd(m: map<int, Player>, p: Player): Applied {
    if p.id in m then Applied(Fail(Internal), m) else Applied(Pass, m[p.id := p])
  }

  /** `onPlayerUpdate` on the map: an id not present fails the assertion and changes nothing. */
  function AfterUpdate(m: map<int, Player>, p: Player): Applied {
    if p.id !in m then Applied(Fail(Internal), m) else Applied(Pass, m[p.id := p])
  }

  /** `onPlayerDelete` on the map: an id not present fails the assertion and changes nothing. */
  function AfterDelete(m: map<int, Player>, id: int): Applied {
    if id !in m then Applied(Fail(Internal), m) else Applied(Pass, m - {id})
  }

  /** The INIT loop on the map: each player is added in turn; the first failed addition ends
      the loop and leaves the players added so far. */
  function AfterAddAll(m: map<int, Player>, players: seq<Player>): Applied
    decreases |players|
  {
    if players == [] then Applied(Pass, m)
    else
      var a := AfterAdd(m, players[0]);
      if a.outcome.Fail? then a else AfterAddAll(a.byId, players[1..])
  }

  /** `onPlayerStoreEvent` on the map. */
  function AfterEvent(m: map<int, Player>, e: Event): Applied {
    match e
    case Init(players) => AfterAddAll(map[], players)
    case Add(p) => AfterAdd(m, p)
    case Update(p) => AfterUpdate(m, p)
    case Delete(id) => AfterDelete(m, id)
  }

  /** No two players in `players` share an id. */
  predicate DistinctIds(players: seq<Player>) {
    forall i, j :: 0 <= i < j < |players| ==> players[i].id != players[j].id
  }

  /** The ids of a list of players. */
  function IdsOf(players: seq<Player>): set<int> {
    set p | p in players :: p.id
  }

  lemma DistinctIdsCons(players: seq<Player>)
    requires players != []
    ensures DistinctIds(players) <==>
      DistinctIds(players[1..]) && forall q :: q in players[1..] ==> q.id != players[0].id
  {
    var p, rest := players[0], players[1..];
    if DistinctIds(rest) && forall q :: q in rest ==> q.id != p.id {
      forall i, j | 0 <= i < j < |players| ensures players[i].id != players[j].id {
        assert players[j] == rest[j - 1];
        if i > 0 {
          assert players[i] == rest[i - 1];
        }
      }
    }
    if DistinctIds(players) {
      forall q | q in rest ensures q.id != p.id {
        var j :| 0 <= j < |rest| && rest[j] == q;
        assert players[j + 1] == q;
      }
      forall i, j | 0 <= i < j < |rest| ensures rest[i].id != rest[j].id {
        assert rest[i] == players[i + 1] && rest[j] == players[j + 1];
      }
    }
  }

  /** INIT succeeds exactly when the payload's ids are distinct (and new); when it fails, it
      fails with the internal error. */
  lemma {:induction false} AddAllOutcome(m: map<int, Player>, players: seq<Player>)
    ensures AfterAddAll(m, players).outcome.Pass? <==>
      DistinctIds(players) && forall p :: p in players ==> p.id !in m
    ensures AfterAddAll(m, players).outcome.Fail? ==> AfterAddAll(m, players).outcome.error == Internal
    decreases |players|
  {
    if players != [] {
      var p, rest := players[0], players[1..];
      assert forall q :: q in players <==> q == p || q in rest by {
        assert players == [p] + rest;
      }
      DistinctIdsCons(players);
      if p.id !in m {
        AddAllOutcome(m[p.id := p], rest);
      }
    }
  }

  /** A successful INIT holds an entry for every payload player besides what was there. */
  lemma {:induction false} AddAllKeys(m: map<int, Player>, players: seq<Player>)
    requires DistinctIds(players) && forall p :: p in players ==> p.id !in m
    ensures AfterAddAll(m, players).outcome == Pass
    ensures AfterAddAll(m, players).byId.Keys == m.Keys + IdsOf(players)
    decreases |players|
  {
    if players != [] {
      AddAllStep(m, players);
      IdsOfCons(players);
      AddAllKeys(m[players[0].id := players[0]], players[1..]);
    }
  }

  /** A successful INIT adds one entry per payload player. */
  lemma {:induction false} AddAllSize(m: map<int, Player>, players: seq<Player>)
    requires DistinctIds(players) && forall p :: p in players ==> p.id !in m
    ensures |AfterAddAll(m, players).byId| == |m| + |players|
    decreases |players|
  {
    if players != [] {
      AddAllStep(m, players);
      AddAllSize(m[players[0].id := players[0]], players[1..]);
    }
  }

  /** A successful INIT holds every payload player under its id and keeps what was there. */
  lemma {:induction false} AddAllValues(m: map<int, Player>, players: seq<Player>)
    requires DistinctIds(players) && forall p :: p in players ==> p.id !in m
    ensures forall p :: p in players ==>
      p.id in AfterAddAll(m, players).byId && AfterAddAll(m, players).byId[p.id] == p
    ensures forall id :: id in m ==>
      id in AfterAddAll(m, players).byId && AfterAddAll(m, players).byId[id] == m[id]
    decreases |players|
  {
    if players != [] {
      AddAllStep(m, players);
      AddAllValues(m[players[0].id := players[0]], players[1..]);
    }
  }

  /** The first player of a successful INIT is new, and the rest are new to the map that
      holds it. */
  lemma AddAllStep(m: map<int, Player>, players: seq<Player>)
    requires players != []
    requires DistinctIds(players) && forall p :: p in players ==> p.id !in m
    ensures players[0].id !in m
    ensures AfterAddAll(m, players) == AfterAddAll(m[players[0].id := players[0]], players[1..])
    ensures DistinctIds(players[1..])
    ensures forall q :: q in players[1..] ==> q.id !in m[players[0].id := players[0]]
  {
    var p, rest := players[0], players[1..];
    assert forall q :: q in players <==> q == p || q in rest by {
      assert players == [p] + rest;
    }
    DistinctIdsCons(players);
    assert p in players;
  }

  /** The ids of a non-empty list are the first one's and the rest's. */
  lemma IdsOfCons(players: seq<Player>)
    requires players != []
    ensures IdsOf(players) == {players[0].id} + IdsOf(players[1..])
  {
    assert forall q :: q in players <==> q == players[0] || q in players[1..] by {
      assert players == [players[0]] + players[1..];
    }
  }

  /** Whether `tree` lists exactly the players the map holds, each under its own id. */
  ghost predicate Indexes(m: map<int, Player>, tree: seq<Player>) {
    && (forall id :: id in m ==> m[id].id == id && m[id] in tree)
    && (forall p :: p in tree ==> p.id in m && m[p.id] == p)
  }

  /** Dropping the last player of the array and its map entry keeps the two in step. */
  lemma DropLast(m: map<int, Player>, tree: seq<Player>)
    requires Indexes(m, tree) && InRankOrder(tree) && tree != []
    ensures tree[|tree| - 1].id in m
    ensures Indexes(m - {tree[|tree| - 1].id}, tree[..|tree| - 1])
    ensures InRankOrder(tree[..|tree| - 1])
  {
    var last, front := tree[|tree| - 1], tree[..|tree| - 1];
    assert last in tree;
    PrecedesIsStrictTotalOrder(last, last, last);
    assert last !in front;
    var m' := m - {last.id};
    forall id | id in m' ensures m'[id].id == id && m'[id] in front {
      assert m[id] in tree;
      assert tree == front + [last];
    }
    forall p | p in front ensures p.id in m' && m'[p.id] == p {
      assert p in tree;
    }
  }

  /** The map and the array always hold as many players as each other. */
  lemma {:induction false} CountIsMapSize(m: map<int, Player>, tree: seq<Player>)
    requires Indexes(m, tree) && InRankOrder(tree)
    ensures |tree| == |m|
    decreases |tree|
  {
    if tree == [] {
      assert forall id :: id in m ==> m[id] in tree;
      assert m.Keys == {};
    } else {
      var last := tree[|tree| - 1];
      DropLast(m, tree);
      CountIsMapSize(m - {last.id}, tree[..|tree| - 1]);
      assert (m - {last.id}).Keys == m.Keys - {last.id};
    }
  }

  /** The array is determined by the map: two arrays in rank order that list exactly the
      map's players are the same array. */
  lemma TreeFollowsMap(m: map<int, Player>, t1: seq<Player>, t2: seq<Player>)
    requires Indexes(m, t1) && InRankOrder(t1)
    requires Indexes(m, t2) && InRankOrder(t2)
    ensures t1 == t2
  {
    forall x ensures x in t1 <==> x in t2 {
      if x in t1 {
        assert m[x.id] in t2;
      }
      if x in t2 {
        assert m[x.id] in t1;
      }
    }
    RankOrderUnique(t1, t2);
  }

  /** `mapPlayerWithRank` on a board whose array is `tree`: the player with its rank, one
      more than its index, and the tier of that rank; the assertion that the player is in
      the array fails otherwise. The rank is one more than the number of players ranked
      before it. */
  function WithRank(tree: seq<Player>, p: Player): (r: Result<PlayerWithRank>)
    ensures r.Ok? <==> p in tree
    ensures r.Err? ==> r.error == Internal
    ensures r.Ok? ==>
      && r.value.id == p.id && r.value.mmr == p.mmr
      && 1 <= r.value.rank <= |tree| && tree[r.value.rank - 1] == p
      && r.value.tier == RankToTier(r.value.rank, |tree|)
  {
    var index := IndexOf(tree, p);
    if index == -1 then Err(Internal)
    else
      var rank := index + 1;
      Ok(PlayerWithRank(p.id, p.mmr, rank, RankToTier(rank, |tree|)))
  }

  /** The rank `mapPlayerWithRank` reports is one more than the number of players ranked
      before the player. */
  lemma RankCountsAhead(tree: seq<Player>, p: Player)
    requires InRankOrder(tree) && p in tree
    ensures WithRank(tree, p).value.rank == 1 + Ahead(tree, p)
  {
    PositionCountsAhead(tree, IndexOf(tree, p));
  }

  /** Where `indexOf` finds the player at position `i` of the array. */
  ghost function FoundAt(tree: seq<Player>, i: int): int
    requires 0 <= i < |tree|
  {
    IndexOf(tree, tree[i])
  }

  /** No player is listed twice: `indexOf` finds each player of the array at its own
      position. */
  ghost predicate Positioned(tree: seq<Player>) {
    forall i :: 0 <= i < |tree| ==> FoundAt(tree, i) == i
  }

  /** An array in rank order lists no player twice. */
  lemma RankOrderPositioned(tree: seq<Player>)
    requires InRankOrder(tree)
    ensures Positioned(tree)
  {
    forall i | 0 <= i < |tree| ensures FoundAt(tree, i) == i {
      IndexInRankOrder(tree, i);
    }
  }

  /** Every player of a slice of the array is on the array. */
  lemma SliceInTree(tree: seq<Player>, lo: int, hi: int)
    ensures forall p :: p in Slice(tree, lo, hi) ==> p in tree
  {
    var sl := Slice(tree, lo, hi);
    forall p | p in sl ensures p in tree {
      var k :| 0 <= k < |sl| && sl[k] == p;
    }
  }

  /** `.map(p => this.mapPlayerWithRank(p))`: the first failure is thrown, and every failure
      is the internal assertion, so the map fails exactly when some player is not on the
      board. */
  function WithRanks(tree: seq<Player>, ps: seq<Player>): (r: Result<seq<PlayerWithRank>>)
    ensures r.Ok? <==> forall p :: p in ps ==> p in tree
    ensures r.Err? ==> r.error == Internal
    ensures r.Ok? ==>
      && |r.value| == |ps|
      && forall k {:trigger r.value[k]} :: 0 <= k < |ps| ==> WithRank(tree, ps[k]).Ok? && WithRank(tree, ps[k]).value == r.value[k]
  {
    if forall p :: p in ps ==> p in tree then
      Ok(seq(|ps|, k requires 0 <= k < |ps| => WithRank(tree, ps[k]).value))
    else Err(Internal)
  }

  /** `rs` lists the players of the array ranked `from` to `to`, in order, each with its
      record, its rank and the tier of that rank. */
  ghost predicate ListsWindow(rs: seq<PlayerWithRank>, tree: seq<Player>, from: int, to: int) {
    Ranked(rs) == RankWindow(tree, from, to) && AllTiered(rs, |tree|)
  }

  /** Every entry carries a rank on a board of `total` players and that rank's tier. */
  ghost predicate AllTiered(rs: seq<PlayerWithRank>, total: int) {
    forall x :: x in rs ==> Tiered(x, total)
  }

  /** The players at positions `lo` up to `hi` of the array, as `get` returns them: those
      with rank in `[lo + 1, hi]`, ascending, each with its rank and tier. */
  lemma SliceRanks(tree: seq<Player>, lo: int, hi: int)
    requires Positioned(tree) && 0 <= lo && 0 <= hi
    ensures WithRanks(tree, Slice(tree, lo, hi)).Ok?
    ensures ListsWindow(WithRanks(tree, Slice(tree, lo, hi)).value, tree, lo + 1, hi)
  {
    SliceEntries(tree, lo, hi);
    var rs := WithRanks(tree, Slice(tree, lo, hi)).value;
    WindowFromEntries(tree, lo, hi, Ranked(rs));
    forall x | x in rs ensures Tiered(x, |tree|) {
      var k :| 0 <= k < |rs| && rs[k] == x;
    }
  }

  /** The `k`-th player of the slice from `lo` comes back with rank `lo + k + 1` and that
      rank's tier. */
  lemma SliceEntries(tree: seq<Player>, lo: int, hi: int)
    requires Positioned(tree) && 0 <= lo && 0 <= hi
    ensures WithRanks(tree, Slice(tree, lo, hi)).Ok?
    ensures var rs := WithRanks(tree, Slice(tree, lo, hi)).value;
      && |rs| == |Slice(tree, lo, hi)|
      && forall k :: 0 <= k < |rs| ==>
           && lo + k < |tree|
           && Ranked(rs)[k] == RankedPlayer(tree[lo + k], lo + k + 1)
           && Tiered(rs[k], |tree|)
  {
    var sl := Slice(tree, lo, hi);
    SliceInTree(tree, lo, hi);
    var rs := WithRanks(tree, sl).value;
    forall k | 0 <= k < |rs|
      ensures lo + k < |tree| && Ranked(rs)[k] == RankedPlayer(tree[lo + k], lo + k + 1)
    {
      assert sl[k] == tree[lo + k] && FoundAt(tree, lo + k) == lo + k;
    }
  }

  /** Entries that list the array from position `lo`, each with its rank, as many as the
      slice up to `hi` holds, are the window of ranks `lo + 1` to `hi`. */
  lemma WindowFromEntries(tree: seq<Player>, lo: int, hi: int, got: seq<RankedPlayer>)
    requires 0 <= lo && 0 <= hi
    requires |got| == |Slice(tree, lo, hi)|
    requires forall k :: 0 <= k < |got| ==> lo + k < |tree| && got[k] == RankedPlayer(tree[lo + k], lo + k + 1)
    ensures got == RankWindow(tree, lo + 1, hi)
  {
    RankWindowAt(tree, lo + 1, hi);
  }

  /** The `rank` strategy of `get`: `limit` is checked before `offset`. */
  function RankQuery(tree: seq<Player>, offset: Param, limit: Param): (r: Result<seq<PlayerWithRank>>)
    ensures !LimitOk(limit) ==> r == Err(GetLimitValidation)
    ensures LimitOk(limit) && !OffsetOk(offset) ==> r == Err(GetOffsetValidation)
    ensures r.Err? ==> !LimitOk(limit) || !OffsetOk(offset)
  {
    if !LimitOk(limit) then Err(GetLimitValidation)
    else if !OffsetOk(offset) then Err(GetOffsetValidation)
    else WithRanks(tree, Slice(tree, offset.value, offset.value + limit.value))
  }

  /** With valid parameters the `rank` strategy lists the players ranked `offset + 1` to
      `offset + limit`, ascending, each with its rank and tier; fewer or none past the end of
      the board. */
  lemma RankQueryWindow(tree: seq<Player>, offset: Param, limit: Param)
    requires Positioned(tree) && LimitOk(limit) && OffsetOk(offset)
    ensures RankQuery(tree, offset, limit).Ok?
    ensures ListsWindow(RankQuery(tree, offset, limit).value, tree, offset.value + 1, offset.value + limit.value)
  {
    var lo, hi := offset.value, offset.value + limit.value;
    assert RankQuery(tree, offset, limit) == WithRanks(tree, Slice(tree, lo, hi));
    SliceRanks(tree, lo, hi);
  }

  /** The `around_player` strategy of `get`: the id is checked, then looked up, then `range`
      is checked. */
  function AroundQuery(byId: map<int, Player>, tree: seq<Player>, playerId: Param, range: Param)
    : (r: Result<seq<PlayerWithRank>>)
    ensures playerId.NotANumber? ==> r == Err(GetPlayerIdValidation)
    ensures playerId.Num? && playerId.value !in byId ==> r == Err(NotFoundPlayer)
    ensures playerId.Num? && playerId.value in byId && byId[playerId.value] !in tree ==> r == Err(Internal)
    ensures playerId.Num? && playerId.value in byId && byId[playerId.value] in tree && !RangeOk(range) ==>
      r == Err(GetRangeValidation)
    ensures r.Err? ==>
      playerId.NotANumber? || playerId.value !in byId || byId[playerId.value] !in tree || !RangeOk(range)
  {
    if playerId.NotANumber? then Err(GetPlayerIdValidation)
    else if playerId.value !in byId then Err(NotFoundPlayer)
    else
      var index := IndexOf(tree, byId[playerId.value]);
      if index == -1 then Err(Internal)
      else if !RangeOk(range) then Err(GetRangeValidation)
      else AroundIndex(tree, index, range.value)
  }

  /** The players within `range` positions of position `index`, clipped at the top of the
      array, with their ranks. */
  function AroundIndex(tree: seq<Player>, index: nat, range: nat): (r: Result<seq<PlayerWithRank>>)
    ensures r.Ok?
  {
    var lo := if index - range < 0 then 0 else index - range;
    SliceInTree(tree, lo, index + range + 1);
    WithRanks(tree, Slice(tree, lo, index + range + 1))
  }

  /** With a registered player on the board, whose rank is its position in the array plus
      one (the rank `find` reports), and a valid range, the `around_player` strategy lists the
      players ranked within `range` of that rank, ascending, each with its rank and tier,
      clipped at the top and the bottom of the board and not re-centred there. */
  lemma AroundQueryWindow(byId: map<int, Player>, tree: seq<Player>, playerId: Param, range: Param)
    requires Positioned(tree)
    requires playerId.Num? && playerId.value in byId && byId[playerId.value] in tree && RangeOk(range)
    ensures AroundQuery(byId, tree, playerId, range).Ok?
    ensures var rank := IndexOf(tree, byId[playerId.value]) + 1;
      ListsWindow(AroundQuery(byId, tree, playerId, range).value, tree, rank - range.value, rank + range.value)
  {
    AroundFound(byId, tree, playerId, range);
    AroundIndexWindow(tree, IndexOf(tree, byId[playerId.value]), range.value, IndexOf(tree, byId[playerId.value]) + 1);
  }

  /** With the player found on the board and a valid range, the `around_player` strategy is
      the slice around the player's position. */
  lemma AroundFound(byId: map<int, Player>, tree: seq<Player>, playerId: Param, range: Param)
    requires playerId.Num? && playerId.value in byId && byId[playerId.value] in tree && RangeOk(range)
    ensures AroundQuery(byId, tree, playerId, range).Ok?
    ensures AroundQuery(byId, tree, playerId, range).value
         == AroundIndex(tree, IndexOf(tree, byId[playerId.value]), range.value).value
  {
  }

  /** The players around position `index` are those ranked within `range` of its rank. */
  lemma AroundIndexWindow(tree: seq<Player>, index: nat, range: nat, rank: int)
    requires Positioned(tree) && rank == index + 1
    ensures ListsWindow(AroundIndex(tree, index, range).value, tree, rank - range, rank + range)
  {
    var lo, hi := if index - range < 0 then 0 else index - range, index + range + 1;
    assert hi == rank + range;
    var rs := WithRanks(tree, Slice(tree, lo, hi)).value;
    assert AroundIndex(tree, index, range).value == rs;
    SliceRanks(tree, lo, hi);
    ClippedWindow(rs, tree, lo, rank - range, hi);
  }

  /** A window reaching above the first rank is the window clipped at rank 1. */
  lemma ClippedWindow(rs: seq<PlayerWithRank>, tree: seq<Player>, lo: int, from: int, to: int)
    requires lo == if from < 1 then 0 else from - 1
    requires ListsWindow(rs, tree, lo + 1, to)
    ensures ListsWindow(rs, tree, from, to)
  {
    RankWindowAt(tree, lo + 1, to);
    RankWindowAt(tree, from, to);
  }

  /** Registering a new player keeps the map and an array that gained just that player in
      step. */
  lemma IndexesAdd(m: map<int, Player>, tree: seq<Player>, r: seq<Player>, p: Player)
    requires Indexes(m, tree) && p.id !in m
    requires forall q :: q in r <==> q in tree || q == p
    ensures Indexes(m[p.id := p], r)
  {
  }

  /** Unregistering a player keeps the map and an array that lost just that player in step. */
  lemma IndexesRemove(m: map<int, Player>, tree: seq<Player>, r: seq<Player>, id: int)
    requires Indexes(m, tree) && id in m
    requires forall q :: q in r <==> q in tree && q != m[id]
    ensures Indexes(m - {id}, r)
  {
  }

  /** Pushing a new player and sorting inserts it at its rank, and the array still lists
      exactly the map's players once the map registers it. */
  lemma Added(m: map<int, Player>, tree: seq<Player>, p: Player)
    requires Indexes(m, tree) && InRankOrder(tree) && p.id !in m
    ensures SortBy(tree + [p], Compare) == InsertBy(p, tree, Compare)
    ensures InRankOrder(InsertBy(p, tree, Compare))
    ensures Indexes(m[p.id := p], InsertBy(p, tree, Compare))
  {
    assert p !in tree;
    InRankOrderIsStrictlySorted(tree);
    PushThenSort(tree, p);
    InsertByInRankOrder(p, tree);
    InsertByMembers(p, tree, Compare);
    IndexesAdd(m, tree, InsertBy(p, tree, Compare), p);
  }

  /** Taking a registered player out of the array keeps it in rank order, leaves it listing
      exactly the map's other players, and sorting it then changes nothing. */
  lemma Deleted(m: map<int, Player>, tree: seq<Player>, before: Player, index: int)
    requires Indexes(m, tree) && InRankOrder(tree)
    requires before.id in m && before == m[before.id] && index == IndexOf(tree, before)
    ensures 0 <= index < |tree|
    ensures InRankOrder(RemoveAt(tree, index))
    ensures SortBy(RemoveAt(tree, index), Compare) == RemoveAt(tree, index)
    ensures Indexes(m - {before.id}, RemoveAt(tree, index))
  {
    var rest := RemoveAt(tree, index);
    RemoveAtInRankOrder(tree, index);
    InRankOrderIsStrictlySorted(rest);
    SortOfSorted(rest);
    RemoveAtMembers(tree, index);
    IndexesRemove(m, tree, rest, before.id);
  }

  /** Replacing a registered player's record and sorting is taking the old record out and
      inserting the new one at its rank. */
  lemma Updated(m: map<int, Player>, tree: seq<Player>, player: Player, index: int)
    requires Indexes(m, tree) && InRankOrder(tree)
    requires player.id in m && index == IndexOf(tree, m[player.id])
    ensures 0 <= index < |tree|
    ensures SortBy(ReplaceAt(tree, index, player), Compare) == InsertBy(player, RemoveAt(tree, index), Compare)
    ensures InRankOrder(InsertBy(player, RemoveAt(tree, index), Compare))
    ensures Indexes(m[player.id := player], InsertBy(player, RemoveAt(tree, index), Compare))
  {
    var m' := m - {player.id};
    Deleted(m, tree, m[player.id], index);
    Added(m', RemoveAt(tree, index), player);
    RemoveThenSet(m, player.id, player);
    ReplaceThenSort(tree, index, player);
  }

  /** Dropping a key and then setting it is setting it. */
  lemma RemoveThenSet(m: map<int, Player>, k: int, v: Player)
    ensures (m - {k})[k := v] == m[k := v]
  {
  }

  /** Sorting after `splice(index, 1, player)` gives the sorted insertion of `player` into what
      the splice left of the array, when that insertion is in rank order. */
  lemma ReplaceThenSort(tree: seq<Player>, index: nat, player: Player)
    requires index < |tree| && InRankOrder(InsertBy(player, RemoveAt(tree, index), Compare))
    ensures SortBy(ReplaceAt(tree, index, player), Compare) == InsertBy(player, RemoveAt(tree, index), Compare)
  {
    var r := InsertBy(player, RemoveAt(tree, index), Compare);
    var sorted := SortBy(ReplaceAt(tree, index, player), Compare);
    CompareIsComparator();
    InRankOrderIsStrictlySorted(r);
    SortBySorted(ReplaceAt(tree, index, player), Compare);
    SortedUnique(sorted, r, Compare);
  }

  class PlayerLeaderBoard {
    /** The private `map`: id → player. */
    var byId: map<int, Player>
    /** The private `tree`: the players, best first. */
    var tree: seq<Player>

    /** The map and the array hold the same players, and the array is in rank order. */
    ghost predicate Valid()
      reads this
    {
      Indexes(byId, tree) && InRankOrder(tree)
    }

    constructor()
      ensures Valid() && byId == map[] && tree == []
    {
      byId := map[];
      tree := [];
    }

    /** `count`: the number of players, which is also the number of map entries. */
    function Count(): (n: nat)
      reads this
      requires Valid()
      ensures n == |byId|
    {
      CountIsMapSize(byId, tree);
      |tree|
    }

    /** `get`: the strategy picks the query; any other strategy is rejected. */
    function Get(args: GetArgs): (r: Result<seq<PlayerWithRank>>)
      reads this
      requires Valid()
      ensures args.OtherStrategy? ==> r == Err(GetStrategyValidation)
      ensures args.RankArgs? ==> r == RankQuery(tree, args.offset, args.limit)
      ensures args.AroundPlayerArgs? ==> r == AroundQuery(byId, tree, args.playerId, args.range)
    {
      match args
      case AroundPlayerArgs(playerId, range) => AroundQuery(byId, tree, playerId, range)
      case RankArgs(offset, limit) => RankQuery(tree, offset, limit)
      case OtherStrategy => Err(GetStrategyValidation)
    }

    /** `find`: the player with the id, ranked and tiered; an absent id is not found. */
    function Find(id: int): (r: Result<PlayerWithRank>)
      reads this
      requires Valid()
      ensures r.Err? <==> id !in byId
      ensures r.Err? ==> r.error == NotFoundPlayer
      ensures r.Ok? ==>
        && r.value.id == id && r.value.mmr == byId[id].mmr
        && 1 <= r.value.rank <= |tree|
        && r.value.rank == 1 + Ahead(tree, byId[id])
        && r.value.tier == RankToTier(r.value.rank, |tree|)
    {
      if id !in byId then Err(NotFoundPlayer)
      else
        RankCountsAhead(tree, byId[id]);
        WithRank(tree, byId[id])
    }

    /** `sort`: the array sorted in place by the leaderboard's comparator. */
    method Sort()
      modifies this
      ensures byId == old(byId) && tree == SortBy(old(tree), Compare)
    {
      SortByPointwise(tree, SortComparator, Compare);
      tree := SortBy(tree, SortComparator);
    }

    /** `onPlayerAdd`: a player whose id is already registered fails the assertion before
        anything changes; otherwise the player is registered and pushed, and the array
        sorted, which inserts it at its rank. */
    method OnPlayerAdd(player: Player) returns (o: Outcome)
      requires Valid()
      modifies this
      ensures Valid()
      ensures o == AfterAdd(old(byId), player).outcome && byId == AfterAdd(old(byId), player).byId
      ensures tree == if o.Pass? then InsertBy(player, old(tree), Compare) else old(tree)
    {
      if player.id in byId {
        return Fail(Internal);
      }
      Added(byId, tree, player);
      byId := byId[player.id := player];
      tree := tree + [player];
      Sort();
      return Pass;
    }

    /** `onPlayerUpdate`: a player whose id is not registered fails the assertion before
        anything changes; otherwise the new record replaces the old one in the map and in
        the array, and the array is sorted, which moves it to its new rank. */
    method OnPlayerUpdate(player: Player) returns (o: Outcome)
      requires Valid()
      modifies this
      ensures Valid()
      ensures o == AfterUpdate(old(byId), player).outcome && byId == AfterUpdate(old(byId), player).byId
      ensures tree ==
        if o.Pass? then InsertBy(player, RemoveAt(old(tree), IndexOf(old(tree), old(byId)[player.id])), Compare)
        else old(tree)
    {
      if player.id !in byId {
        return Fail(Internal);
      }
      var before := byId[player.id];
      var index := IndexOf(tree, before);
      Updated(byId, tree, player, index);
      byId := byId[player.id := player];
      tree := ReplaceAt(tree, index, player);
      Sort();
      return Pass;
    }

    /** `onPlayerDelete`: an id that is not registered fails the assertion before anything
        changes; otherwise the player leaves the map and the array, which stays sorted. */
    method OnPlayerDelete(playerId: int) returns (o: Outcome)
      requires Valid()
      modifies this
      ensures Valid()
      ensures o == AfterDelete(old(byId), playerId).outcome && byId == AfterDelete(old(byId), playerId).byId
      ensures tree ==
        if o.Pass? then RemoveAt(old(tree), IndexOf(old(tree), old(byId)[playerId])) else old(tree)
    {
      if playerId !in byId {
        return Fail(Internal);
      }
      var before := byId[playerId];
      var index := IndexOf(tree, before);
      Deleted(byId, tree, before, index);
      byId := byId - {playerId};
      tree := RemoveAt(tree, index);
      Sort();
      return Pass;
    }

    /** `clear`: the map is emptied and the array spliced down to nothing. */
    method Clear()
      modifies this
      ensures Valid() && byId == map[] && tree == []
    {
      byId := map[];
      tree := tree[|tree|..];
    }

    /** `onPlayerStoreEvent`: INIT clears the board and adds the payload's players one by one,
        stopping at the first that fails; the other events go to the matching handler. The
        map ends as the event's specification says, and the array lists its players in rank
        order. */
    method OnPlayerStoreEvent(event: Event) returns (o: Outcome)
      requires Valid()
      modifies this
      ensures Valid()
      ensures o == AfterEvent(old(byId), event).outcome && byId == AfterEvent(old(byId), event).byId
    {
      match event
      case Init(players) =>
        Clear();
        var i := 0;
        while i < |players|
          invariant 0 <= i <= |players| && Valid()
          invariant AfterAddAll(byId, players[i..]) == AfterAddAll(map[], players)
        {
          assert players[i..][0] == players[i] && players[i..][1..] == players[i + 1..];
          o := OnPlayerAdd(players[i]);
          if o.Fail? {
            return;
          }
          i := i + 1;
        }
        assert players[i..] == [];
        o := Pass;
      case Add(player) =>
        o := OnPlayerAdd(player);
      case Update(player) =>
        o := OnPlayerUpdate(player);
      case Delete(id) =>
        o := OnPlayerDelete(id);
    }
  }
}
