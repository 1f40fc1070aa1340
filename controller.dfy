/** The record manager as the program runs it: a store whose table and
    AUTOINCREMENT counter are changed in place by insert_game, update_game
    and delete_game. Each method performs the controller's steps in the
    controller's order and is proved to leave the store, and to return,
    exactly what the corresponding Records function describes; what those
    functions guarantee (validation first, fresh ids, frames, "Game not
    found") is proved about them in Records. */
module GameController {
  import opened Validation
  import opened Records

  class GameStore {
    /** The rows of the games table, by id. */
    var rows: map<int, Game>
    /** The largest id handed out so far (the sqlite_sequence entry). */
    var lastId: nat

    /** The table as a value, for the query functions of Records. */
    function Snapshot(): Table
      reads this
    {
      Table(rows, lastId)
    }

    predicate Valid()
      reads this
    {
      Snapshot().Valid()
    }

    /** create_tables: drop and recreate the table, which also resets the
        id sequence. */
    constructor ()
      ensures Valid()
      ensures Snapshot() == EmptyTable
    {
      rows := map[];
      lastId := 0;
    }

    /** insert_game: validate, then INSERT one row stamped now, then re-read
        it by its new id. */
    method InsertGame(name: Option<string>, price: Option<real>, rate: Option<int>, now: nat) returns (r: Result<Game>)
      requires Valid()
      modifies this
      ensures Valid()
      ensures Step(Snapshot(), r) == Insert(old(Snapshot()), name, price, rate, now)
      ensures r.Err? ==> rows == old(rows) && lastId == old(lastId)
      ensures r.Ok? ==> lastId == old(lastId) + 1 && rows == old(rows)[lastId := r.value]
    {
      var errors := ValidateGame(name, price, rate);
      if |errors| > 0 {
        r := Err(GameError(Join(errors, ", "), 400));
        return;
      }
      var id := lastId + 1;
      rows := rows[id := Game(id, name.value, price.value, rate.value, now, now)];
      lastId := id;
      r := GetById(Snapshot(), id);
    }

    /** update_game: validate, then look the id up, then UPDATE name, price,
        rate and updated_at of that row, then re-read it. */
    method UpdateGame(id: int, name: Option<string>, price: Option<real>, rate: Option<int>, now: nat) returns (r: Result<Game>)
      requires Valid()
      modifies this
      ensures Valid()
      ensures Step(Snapshot(), r) == Update(old(Snapshot()), id, name, price, rate, now)
      ensures r.Err? ==> rows == old(rows) && lastId == old(lastId)
      ensures r.Ok? ==> lastId == old(lastId) && rows == old(rows)[id := r.value]
    {
      var errors := ValidateGame(name, price, rate);
      if |errors| > 0 {
        r := Err(GameError(Join(errors, ", "), 400));
        return;
      }
      if id !in rows {
        r := Err(NotFound);
        return;
      }
      rows := rows[id := rows[id].(name := name.value, price := price.value, rate := rate.value, updatedAt := now)];
      r := GetById(Snapshot(), id);
    }

    /** delete_game: look the id up, then DELETE that row. */
    method DeleteGame(id: int) returns (r: Result<string>)
      requires Valid()
      modifies this
      ensures Valid()
      ensures Step(Snapshot(), r) == Delete(old(Snapshot()), id)
      ensures r.Err? ==> rows == old(rows) && lastId == old(lastId)
      ensures r.Ok? ==> lastId == old(lastId) && rows == old(rows) - {id}
    {
      if id !in rows {
        r := Err(NotFound);
        return;
      }
      rows := rows - {id};
      r := Ok(DeletedMessage);
    }
  }

  /** What a caller of the store can rely on from the method contracts
      alone: the scenario of creating a game, deleting it, and looking it
      up afterwards. */
  method CreateDeleteLookUp(now: nat)
  {
    var store := new GameStore();
    var created := store.InsertGame(Some("Test Game"), Some(29.99), Some(5), now);
    assert ValidInput(Some("Test Game"), Some(29.99), Some(5)) by {
      assert !IsWhitespace("Test Game"[0]);
    }
    assert created.Ok? && created.value.id == 1;
    assert created.value.createdAt == created.value.updatedAt == now;
    var deleted := store.DeleteGame(1);
    assert deleted == Ok(DeletedMessage);
    assert GetById(store.Snapshot(), 1) == Err(NotFound);
    var again := store.DeleteGame(1);
    assert again == Err(NotFound);
    var next := store.InsertGame(Some("Test Game"), Some(29.99), Some(5), now);
    assert next.Ok? && next.value.id == 2;
  }
}
