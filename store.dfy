/**
 * The record store's shared vocabulary: the player record, the change events it broadcasts,
 * and the validation every mutating call runs before it touches the stored records.
 */
module Store {
  import opened Errors

  /** A player record: a stable identity and a mutable rating. */
  datatype Player = Player(id: int, mmr: int)

  /** The events a consumer receives: a full snapshot on registration, then one event per
      successful create, update or delete, in the order the store performed them. */
  datatype Event =
    | Init(players: seq<Player>)
    | Add(player: Player)
    | Update(player: Player)
    | Delete(id: int)

  /** A JavaScript value found in a payload field: an integral number, a number that is not
      integral (a fraction or an infinity), or anything that is not a number at all
      (another type, or NaN). */
  datatype Field = Integer(value: int) | NonInteger | NotANumber

  /** A create, update or delete request as it reaches the store. */
  datatype Payload = Payload(id: Field, mmr: Field)

  /** An acceptable id is an integer greater than zero. */
  predicate ValidId(f: Field) {
    f.Integer? && f.value > 0
  }

  /** An acceptable mmr is an integer that is not negative. */
  predicate ValidMmr(f: Field) {
    f.Integer? && f.value >= 0
  }

  /**
   * The checks every mutating call runs first: the id, then the mmr, then whether the id is
   * among the `stored` ids (what the concrete store's `has` answers) as `shouldExist` asks.
   * On success the validated record is returned.
   */
  function ValidatePayload(payload: Payload, shouldExist: bool, stored: set<int>): (r: Result<Player>)
    ensures r.Ok? <==>
      ValidId(payload.id) && ValidMmr(payload.mmr) && (payload.id.value in stored <==> shouldExist)
    ensures r.Ok? ==> r.value == Player(payload.id.value, payload.mmr.value) && r.value.id > 0 && r.value.mmr >= 0
    ensures !ValidId(payload.id) ==> r == Err(PlayerIdValidation)
    ensures ValidId(payload.id) && !ValidMmr(payload.mmr) ==> r == Err(PlayerMmrValidation)
    ensures ValidId(payload.id) && ValidMmr(payload.mmr) && shouldExist && payload.id.value !in stored ==>
      r == Err(NotFoundPlayer)
    ensures ValidId(payload.id) && ValidMmr(payload.mmr) && !shouldExist && payload.id.value in stored ==>
      r == Err(AlreadyExistingPlayer)
  {
    if !ValidId(payload.id) then Err(PlayerIdValidation)
    else if !ValidMmr(payload.mmr) then Err(PlayerMmrValidation)
    else
      var isStored := payload.id.value in stored;
      if shouldExist && !isStored then Err(NotFoundPlayer)
      else if !shouldExist && isStored then Err(AlreadyExistingPlayer)
      else Ok(Player(payload.id.value, payload.mmr.value))
  }

  /** A delete is validated with its mmr fixed at 1, so it fails only on the id: for being
      malformed or for not being stored. */
  lemma DeleteValidationIgnoresMmr(id: Field, stored: set<int>)
    ensures ValidatePayload(Payload(id, Integer(1)), true, stored).Err? ==>
      ValidatePayload(Payload(id, Integer(1)), true, stored).error in {PlayerIdValidation, NotFoundPlayer}
    ensures ValidatePayload(Payload(id, Integer(1)), true, stored).Ok? <==> ValidId(id) && id.value in stored
  {
  }

  /** An mmr of zero is accepted; a negative or non-integral mmr is not. */
  lemma MmrBoundary(id: int, stored: set<int>)
    requires id > 0 && id !in stored
    ensures ValidatePayload(Payload(Integer(id), Integer(0)), false, stored) == Ok(Player(id, 0))
    ensures ValidatePayload(Payload(Integer(id), Integer(-1)), false, stored) == Err(PlayerMmrValidation)
    ensures ValidatePayload(Payload(Integer(id), NonInteger), false, stored) == Err(PlayerMmrValidation)
  {
  }
}
