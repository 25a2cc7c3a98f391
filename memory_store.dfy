/**
 * The record store: a JavaScript `Map` from id to player record, whose public calls validate
 * a payload, change the map, and broadcast the change to every registered consumer (the
 * leaderboards). The event emitter calls its listeners synchronously, one after another, so a
 * broadcast is a loop that hands the event to each registered board in turn.
 */
module MemoryStore {
  import opened Errors
  import opened JsArray
  import opened Store
  import opened PlayerList
  import opened Leaderboard

  /** No key occurs twice. */
  predicate Distinct(s: seq<int>) {
    forall i, j :: 0 <= i < j < |s| ==> s[i] != s[j]
  }

  /** Every record is stored under its own id. */
  predicate Keyed(m: map<int, Player>) {
    forall id :: id in m ==> m[id].id == id
  }

  /** `players` lists every record of `m` exactly once, and nothing else. */
  ghost predicate SnapshotOf(players: seq<Player>, m: map<int, Player>) {
    DistinctIds(players) && forall p :: p in players <==> p.id in m && m[p.id] == p
  }

  /** Taking one key out of a list without repetitions leaves the other keys, still without
      repetitions. */
  lemma RemoveKey(s: seq<int>, i: nat)
    requires Distinct(s) && i < |s|
    ensures Distinct(RemoveAt(s, i))
    ensures forall k :: k in RemoveAt(s, i) <==> k in s && k != s[i]
  {
    var r := RemoveAt(s, i);
    forall p, q | 0 <= p < q < |r| ensures r[p] != r[q] {
      assert r[p] == s[if p < i then p else p + 1] && r[q] == s[if q < i then q else q + 1];
    }
    forall k ensures k in r <==> k in s && k != s[i] {
      if k in r {
        var p :| 0 <= p < |r| && r[p] == k;
        assert r[p] == s[if p < i then p else p + 1];
      }
      if k in s && k != s[i] {
        var p :| 0 <= p < |s| && s[p] == k;
        assert r[if p < i then p else p - 1] == k;
      }
    }
  }

  /** A board handed an INIT event carrying a snapshot of `m` ends holding exactly `m`,
      whatever it held before, and the INIT succeeds. */
  lemma InitFromSnapshot(board: map<int, Player>, players: seq<Player>, m: map<int, Player>)
    requires Keyed(m) && SnapshotOf(players, m)
    ensures AfterEvent(board, Init(players)) == Applied(Pass, m)
  {
    AddAllKeys(map[], players);
    AddAllValues(map[], players);
    var got := AfterAddAll(map[], players).byId;
    forall id | id in m ensures id in IdsOf(players) && id in got && got[id] == m[id] {
      assert m[id] in players;
    }
    assert got.Keys == m.Keys;
    assert got == m;
  }

  class PlayerMemoryStore {
    /** The private `map`: id → record. */
    var records: map<int, Player>
    /** The keys of `records` in the order the map first received them, which is the order
        its iteration (and so `read`) follows. */
    var order: seq<int>
    /** The listeners registered with the emitter. */
    var consumers: set<PlayerLeaderBoard>
    /** Every event broadcast so far, oldest first. */
    ghost var log: seq<Event>

    /** The map holds each record under its own id, and `order` lists its keys once each. */
    ghost predicate Stored()
      reads this
    {
      && Keyed(records) && Distinct(order) && |order| == |records|
      && forall id :: id in order <==> id in records
    }

    /** Between calls every registered board is consistent and holds exactly the store's
        records. */
    ghost predicate Valid()
      reads this, consumers
    {
      && Stored()
      && forall b :: b in consumers ==> b.Valid() && b.byId == records
    }

    constructor()
      ensures Valid() && records == map[] && order == [] && consumers == {} && log == []
    {
      records := map[];
      order := [];
      consumers := {};
      log := [];
    }

    /** `read`: the values of the map in iteration order, which are exactly the stored
        records, one per id. */
    function Read(): (players: seq<Player>)
      reads this
      requires Stored()
      ensures |players| == |records|
      ensures SnapshotOf(players, records)
      ensures |players| == |order| && forall i :: 0 <= i < |order| ==> order[i] in records && players[i] == records[order[i]]
    {
      var keys, m := order, records;
      forall i | 0 <= i < |keys| ensures keys[i] in m {
        assert keys[i] in order;
        assert forall id :: id in order <==> id in records;
      }
      var players := seq(|keys|, i requires 0 <= i < |keys| && keys[i] in m => m[keys[i]]);
      assert forall i :: 0 <= i < |players| ==> players[i] == m[keys[i]] && players[i].id == keys[i];
      assert forall p :: p in players ==> p.id in m && m[p.id] == p by {
        forall p | p in players ensures p.id in m && m[p.id] == p {
          var i :| 0 <= i < |players| && players[i] == p;
        }
      }
      assert forall p: Player :: p.id in m && m[p.id] == p ==> p in players by {
        forall p: Player | p.id in m && m[p.id] == p ensures p in players {
          var i :| 0 <= i < |keys| && keys[i] == p.id;
          assert players[i] == p;
        }
      }
      players
    }

    /** `has`: whether some stored record carries the id. */
    function Has(id: int): (b: bool)
      reads this
      requires Stored()
      ensures b <==> exists p :: p in Read() && p.id == id
    {
      assert id in records ==> records[id] in Read();
      id in records
    }

    /** `count`: the size of the map, which is the number of records `read` returns. */
    function Count(): (n: nat)
      reads this
      requires Stored()
      ensures n == |Read()| && n == |records.Keys|
    {
      |records|
    }

    /** `create`: the record is stored under its id; a new id joins the end of the
        iteration order. */
    method Create(payload: Player) returns (player: Player)
      requires Stored()
      modifies this`records, this`order
      ensures Stored() && player == payload
      ensures records == old(records)[payload.id := payload]
      ensures order == if payload.id in old(records) then old(order) else old(order) + [payload.id]
    {
      player := payload;
      if player.id !in records {
        order := order + [player.id];
      }
      records := records[player.id := player];
    }

    /** `update`: the record replaces the one stored under its id; the other records and the
        iteration order of a stored id do not change. */
    method Update(payload: Player) returns (player: Player)
      requires Stored()
      modifies this`records, this`order
      ensures Stored() && player == payload
      ensures records == old(records)[payload.id := payload]
      ensures payload.id in old(records) ==> order == old(order) && |records| == |old(records)|
      ensures payload.id !in old(records) ==> order == old(order) + [payload.id]
    {
      player := payload;
      if player.id !in records {
        order := order + [player.id];
      }
      records := records[player.id := player];
    }

    /** `delete`: the id leaves the map and the iteration order, the other records stay; the
        id is handed back. */
    method Delete(id: int) returns (deleted: int)
      requires Stored()
      modifies this`records, this`order
      ensures Stored() && deleted == id
      ensures records == old(records) - {id}
      ensures id !in old(records) ==> order == old(order)
      ensures forall k :: k in order <==> k in old(order) && k != id
    {
      deleted := id;
      if id in records {
        var i := IndexOf(order, id);
        RemoveKey(order, i);
        order := RemoveAt(order, i);
        records := records - {id};
      }
    }

    /** The board is consistent and holds exactly the store's records. */
    ghost predicate Holds(b: PlayerLeaderBoard)
      reads this, b
    {
      b.Valid() && b.byId == records
    }

    /** The board is consistent, handles `e` without failing its assertion, and ends holding
        exactly the store's records. */
    ghost predicate Handles(b: PlayerLeaderBoard, e: Event)
      reads this, b
    {
      b.Valid() && AfterEvent(b.byId, e).outcome == Pass && AfterEvent(b.byId, e).byId == records
    }

    /** Every registered board handles `e`. */
    ghost predicate Accepts(e: Event)
      reads this, consumers
    {
      forall b :: b in consumers ==> Handles(b, e)
    }

    /** `broadcast`: the event is emitted once, and every registered board handles it; no
        handler fails, so the emit does not throw. */
    method Broadcast(e: Event) returns (o: Outcome)
      requires Stored() && Accepts(e)
      modifies this`log, consumers
      ensures log == old(log) + [e]
      ensures Valid() && o == Pass
    {
      log := log + [e];
      o := Deliver(e);
    }

    /** The emitter hands the event to the listeners one after another; a listener that fails
        its assertion throws out of the emit, so the remaining listeners are skipped and the
        failure is the result. When every board accepts the event, none fails, every board
        is reached and each ends holding the store's records. */
    method Deliver(e: Event) returns (o: Outcome)
      requires Accepts(e)
      modifies consumers
      ensures (forall b :: b in consumers ==> Holds(b)) && o == Pass
    {
      var pending := consumers;
      o := Pass;
      while pending != {} && o == Pass
        invariant pending <= consumers && o == Pass
        invariant forall b :: b in consumers ==> if b in pending then Handles(b, e) else Holds(b)
        decreases pending
      {
        var b :| b in pending;
        o := b.OnPlayerStoreEvent(e);
        pending := pending - {b};
      }
    }

    /** `createAndBroadcast`: a payload that fails validation (malformed, or an id already
        stored) changes nothing and broadcasts nothing; otherwise the record is stored, one
        ADD event carrying it is broadcast, and it is returned. */
    method CreateAndBroadcast(payload: Payload) returns (r: Result<Player>)
      requires Valid()
      modifies this, consumers
      ensures Valid() && consumers == old(consumers)
      ensures r == ValidatePayload(payload, false, old(records).Keys)
      ensures r.Err? ==> records == old(records) && order == old(order) && log == old(log)
      ensures r.Ok? ==> records == old(records)[r.value.id := r.value] && log == old(log) + [Add(r.value)]
    {
      r := ValidatePayload(payload, false, records.Keys);
      if r.Err? {
        return;
      }
      var player := Create(r.value);
      var o := Broadcast(Add(player));
    }

    /** `updateAndBroadcast`: a payload that fails validation (malformed, or an id not stored)
        changes nothing and broadcasts nothing; otherwise the record replaces the stored one,
        one UPDATE event carrying it is broadcast, and it is returned. */
    method UpdateAndBroadcast(payload: Payload) returns (r: Result<Player>)
      requires Valid()
      modifies this, consumers
      ensures Valid() && consumers == old(consumers)
      ensures r == ValidatePayload(payload, true, old(records).Keys)
      ensures r.Err? ==> records == old(records) && order == old(order) && log == old(log)
      ensures r.Ok? ==>
        && records == old(records)[r.value.id := r.value] && |records| == |old(records)|
        && log == old(log) + [Event.Update(r.value)]
    {
      r := ValidatePayload(payload, true, records.Keys);
      if r.Err? {
        return;
      }
      var player := Update(r.value);
      var o := Broadcast(Event.Update(player));
    }

    /** `deleteAndBroadcast`: the id is validated with the mmr fixed at 1; an id that fails
        (malformed, or not stored) changes nothing and broadcasts nothing; otherwise the
        record is removed, one DELETE event carrying the id is broadcast, and the id is
        returned. */
    method DeleteAndBroadcast(id: Field) returns (r: Result<int>)
      requires Valid()
      modifies this, consumers
      ensures Valid() && consumers == old(consumers)
      ensures r.Err? <==> ValidatePayload(Payload(id, Integer(1)), true, old(records).Keys).Err?
      ensures r.Err? ==> r.error == ValidatePayload(Payload(id, Integer(1)), true, old(records).Keys).error
      ensures r.Err? ==> records == old(records) && order == old(order) && log == old(log)
      ensures r.Ok? ==>
        && r.value == id.value && r.value in old(records)
        && records == old(records) - {r.value} && log == old(log) + [Event.Delete(r.value)]
    {
      var checked := ValidatePayload(Payload(id, Integer(1)), true, records.Keys);
      if checked.Err? {
        return Err(checked.error);
      }
      var deleted := Delete(checked.value.id);
      var o := Broadcast(Event.Delete(deleted));
      r := Ok(deleted);
    }

    /** `registerConsumer`: the board joins the listeners and is handed one INIT event whose
        payload is the current `read` snapshot; the INIT succeeds, after which the board holds
        exactly the store's records. */
    method RegisterConsumer(board: PlayerLeaderBoard) returns (o: Outcome)
      requires Valid() && board.Valid()
      modifies this`consumers, board
      ensures Valid() && consumers == old(consumers) + {board}
      ensures board.byId == records && o == Pass
    {
      consumers := consumers + {board};
      var players := Read();
      InitFromSnapshot(board.byId, players, records);
      o := board.OnPlayerStoreEvent(Init(players));
    }

    /** `unregisterConsumer`: the board stops receiving events. */
    method UnregisterConsumer(board: PlayerLeaderBoard)
      requires Valid()
      modifies this`consumers
      ensures Valid() && consumers == old(consumers) - {board}
    {
      consumers := consumers - {board};
    }

    /** `stop`: every listener is removed. */
    method Stop()
      requires Valid()
      modifies this`consumers
      ensures Valid() && consumers == {}
    {
      consumers := {};
    }
  }
}
