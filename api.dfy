/** The REST layer (prefix /api/v1): each handler makes one controller call
    and turns its outcome into a JSON body and an HTTP status. */
module Api {
  import opened Validation
  import opened Records

  /** How a controller call ended: it returned a value, raised a GameError,
      or raised some other exception (a missing payload field, a value of
      the wrong type), of which only the text matters here. */
  datatype Outcome<+T> = Returned(value: T) | Raised(error: GameError) | Failed(message: string)

  function FromResult<T>(r: Result<T>): (o: Outcome<T>)
    ensures o.Returned? <==> r.Ok?
    ensures r.Ok? ==> o.value == r.value
    ensures r.Err? ==> o.Raised? && o.error == r.error
  {
    match r
    case Ok(v) => Returned(v)
    case Err(e) => Raised(e)
  }

  /** str() of the exception a failed call raised. */
  function ErrorText<T>(o: Outcome<T>): (text: string)
    requires !o.Returned?
    ensures o.Raised? ==> text == o.error.message
    ensures o.Failed? ==> text == o.message
  {
    if o.Raised? then o.error.message else o.message
  }

  /** A JSON response body: a marshalled game, a list of them, the error
      object {"error": message}, or nothing. */
  datatype Body = GameJson(game: Game) | GameListJson(games: seq<Game>) | ErrorJson(error: string) | EmptyBody

  datatype Response = Response(body: Body, status: int)

  /** handle_game_error: a GameError the handler does not catch is answered
      with its own message and code. */
  function HandleGameError(e: GameError): (resp: Response)
    ensures resp.status == e.code && resp.body == ErrorJson(e.message)
  {
    Response(ErrorJson(e.message), e.code)
  }

  /** handle_general_error: any other uncaught exception becomes a 500. */
  function HandleGeneralError(message: string): (resp: Response)
    ensures resp.status == 500 && resp.body == ErrorJson(message)
  {
    Response(ErrorJson(message), 500)
  }

  /** GET /games: the list get_games returned, with the default status 200;
      failures are left to the registered error handlers. */
  function GameListGet(o: Outcome<seq<Game>>): (resp: Response)
    ensures o.Returned? ==> resp == Response(GameListJson(o.value), 200)
    ensures o.Raised? ==> resp.status == o.error.code && resp.body == ErrorJson(o.error.message)
    ensures o.Failed? ==> resp.status == 500 && resp.body == ErrorJson(o.message)
  {
    match o
    case Returned(games) => Response(GameListJson(games), 200)
    case Raised(e) => HandleGameError(e)
    case Failed(m) => HandleGeneralError(m)
  }

  /** POST /games: 201 with the created game; every failure, whatever its
      kind or code (including a 500 from the database), becomes 400. */
  function GameListPost(o: Outcome<Game>): (resp: Response)
    ensures resp.status == 201 <==> o.Returned?
    ensures o.Returned? ==> resp.body == GameJson(o.value)
    ensures !o.Returned? ==> resp.status == 400 && resp.body == ErrorJson(ErrorText(o))
  {
    match o
    case Returned(g) => Response(GameJson(g), 201)
    case Raised(e) => Response(ErrorJson(e.message), 400)
    case Failed(m) => Response(ErrorJson(m), 400)
  }

  /** GET /games/{id}: the game with status 200; every GameError becomes 404
      whatever its code; any other exception reaches handle_general_error. */
  function GameGet(o: Outcome<Game>): (resp: Response)
    ensures resp.status == 200 <==> o.Returned?
    ensures o.Returned? ==> resp.body == GameJson(o.value)
    ensures o.Raised? ==> resp.status == 404 && resp.body == ErrorJson(o.error.message)
    ensures o.Failed? ==> resp == HandleGeneralError(o.message)
  {
    match o
    case Returned(g) => Response(GameJson(g), 200)
    case Raised(e) => Response(ErrorJson(e.message), 404)
    case Failed(m) => HandleGeneralError(m)
  }

  /** PUT /games/{id}: the updated game with status 200; a GameError keeps
      its own code (400 invalid input, 404 unknown id); any other exception
      becomes 400. */
  function GamePut(o: Outcome<Game>): (resp: Response)
    ensures o.Returned? ==> resp == Response(GameJson(o.value), 200)
    ensures o.Raised? ==> resp.status == o.error.code && resp.body == ErrorJson(o.error.message)
    ensures o.Failed? ==> resp.status == 400 && resp.body == ErrorJson(o.message)
  {
    match o
    case Returned(g) => Response(GameJson(g), 200)
    case Raised(e) => Response(ErrorJson(e.message), e.code)
    case Failed(m) => Response(ErrorJson(m), 400)
  }

  /** DELETE /games/{id}: 204 with an empty body; every GameError becomes
      404; any other exception reaches handle_general_error. */
  function GameDelete(o: Outcome<string>): (resp: Response)
    ensures resp.status == 204 <==> o.Returned?
    ensures o.Returned? ==> resp.body == EmptyBody
    ensures o.Raised? ==> resp.status == 404 && resp.body == ErrorJson(o.error.message)
    ensures o.Failed? ==> resp == HandleGeneralError(o.message)
  {
    match o
    case Returned(_) => Response(EmptyBody, 204)
    case Raised(e) => Response(ErrorJson(e.message), 404)
    case Failed(m) => HandleGeneralError(m)
  }

  /** Every handler answers a failure with the body {"error": message},
      the message being the exception's text unchanged. */
  lemma ErrorBodiesCarryMessage(games: Outcome<seq<Game>>, game: Outcome<Game>, ack: Outcome<string>)
    ensures !games.Returned? ==> GameListGet(games).body == ErrorJson(ErrorText(games))
    ensures !game.Returned? ==>
              && GameListPost(game).body == ErrorJson(ErrorText(game))
              && GameGet(game).body == ErrorJson(ErrorText(game))
              && GamePut(game).body == ErrorJson(ErrorText(game))
    ensures !ack.Returned? ==> GameDelete(ack).body == ErrorJson(ErrorText(ack))
  {
  }

  /** For one and the same GameError, POST reports 400, GET and DELETE
      report 404, and PUT reports the error's own code. */
  lemma StatusByVerb(e: GameError)
    ensures GameListPost(Raised(e)).status == 400
    ensures GameGet(Raised(e)).status == 404
    ensures GameDelete(Outcome<string>.Raised(e)).status == 404
    ensures GamePut(Raised(e)).status == e.code
  {
  }

  // ---------------------------------------------------------------------
  // Requests end to end: controller step, then handler
  // ---------------------------------------------------------------------

  /** POST /games with valid fields answers 201 with the stored row. */
  lemma PostValidGame(t: Table, name: Option<string>, price: Option<real>, rate: Option<int>, now: nat)
    requires t.Valid() && ValidInput(name, price, rate)
    ensures var s := Insert(t, name, price, rate, now);
            && GameListPost(FromResult(s.result)).status == 201
            && GameListPost(FromResult(s.result)).body == GameJson(s.result.value)
            && s.result.value == s.table.rows[s.result.value.id]
            && s.result.value.name == name.value && s.result.value.price == price.value
            && s.result.value.rate == rate.value
            && s.result.value.createdAt == s.result.value.updatedAt
  {
  }

  /** POST /games with invalid fields answers 400 with a non-empty message
      listing the violations, and the table is left as it was. */
  lemma PostInvalidGame(t: Table, name: Option<string>, price: Option<real>, rate: Option<int>, now: nat)
    requires t.Valid() && !ValidInput(name, price, rate)
    ensures var s := Insert(t, name, price, rate, now);
            && s.table == t
            && GameListPost(FromResult(s.result)) == Response(ErrorJson(ValidationMessage(name, price, rate)), 400)
            && |ValidationMessage(name, price, rate)| > 0
  {
  }

  /** The request body {"name": "", "price": -1, "rate": 6} is refused with
      400 and a message naming all three fields. */
  lemma PostAllFieldsInvalid(t: Table, now: nat)
    requires t.Valid()
    ensures GameListPost(FromResult(Insert(t, Some(""), Some(-1.0), Some(6), now).result))
         == Response(ErrorJson(NameRequired + ", " + PriceInvalid + ", " + RateInvalid), 400)
  {
    AllThreeViolations();
  }

  /** GET /games on a table holding one game lists exactly that game. */
  lemma ListAfterFirstInsert(name: Option<string>, price: Option<real>, rate: Option<int>, now: nat)
    requires ValidInput(name, price, rate)
    ensures var s := Insert(EmptyTable, name, price, rate, now);
            GameListGet(Returned(GetGames(s.table))) == Response(GameListJson([s.result.value]), 200)
  {
    var s := Insert(EmptyTable, name, price, rate, now);
    assert s.table.rows.Keys == {1};
    OnlyRowListed(s.table, s.result.value);
  }

  lemma OnlyRowListed(t: Table, g: Game)
    requires Keyed(t.rows) && t.rows.Keys == {g.id} && t.rows[g.id] == g
    ensures GetGames(t) == [g]
  {
    assert t.rows == map[g.id := g];
    var all := GetGames(t);
    assert |all| == 1;
    assert all[0].id in t.rows;
  }

  /** PUT /games/{id} with invalid fields answers 400 whether or not the id
      exists: validation comes before the existence check. */
  lemma PutInvalidGame(t: Table, id: int, name: Option<string>, price: Option<real>, rate: Option<int>, now: nat)
    requires t.Valid() && !ValidInput(name, price, rate)
    ensures var s := Update(t, id, name, price, rate, now);
            s.table == t && GamePut(FromResult(s.result)) == Response(ErrorJson(ValidationMessage(name, price, rate)), 400)
  {
  }

  /** PUT /games/{id} with valid fields for an unknown id answers 404 with
      {"error": "Game not found"}. */
  lemma PutMissingGame(t: Table, id: int, name: Option<string>, price: Option<real>, rate: Option<int>, now: nat)
    requires t.Valid() && ValidInput(name, price, rate) && id !in t.rows
    ensures var s := Update(t, id, name, price, rate, now);
            s.table == t && GamePut(FromResult(s.result)) == Response(ErrorJson(NotFoundMessage), 404)
  {
  }

  /** PUT /games/{id} with valid fields for a stored game answers 200 with
      the refreshed row, whose id and creation time are kept. */
  lemma PutExistingGame(t: Table, id: int, name: Option<string>, price: Option<real>, rate: Option<int>, now: nat)
    requires t.Valid() && ValidInput(name, price, rate) && id in t.rows
    ensures var s := Update(t, id, name, price, rate, now);
            && GamePut(FromResult(s.result)) == Response(GameJson(s.table.rows[id]), 200)
            && s.table.rows[id].createdAt == t.rows[id].createdAt
            && s.table.rows[id].name == name.value
  {
  }

  /** GET /games/{id} for an unknown id answers 404. */
  lemma GetMissingGame(t: Table, id: int)
    requires id !in t.rows
    ensures GameGet(FromResult(GetById(t, id))) == Response(ErrorJson(NotFoundMessage), 404)
  {
  }

  /** DELETE /games/{id} of a stored game answers 204 with no body; a GET of
      the same id then answers 404, and so does a second DELETE. */
  lemma DeleteThenGet(t: Table, id: int)
    requires t.Valid() && id in t.rows
    ensures var s := Delete(t, id);
            && GameDelete(FromResult(s.result)) == Response(EmptyBody, 204)
            && GameGet(FromResult(GetById(s.table, id))) == Response(ErrorJson(NotFoundMessage), 404)
            && GameDelete(FromResult(Delete(s.table, id).result)) == Response(ErrorJson(NotFoundMessage), 404)
  {
  }
}
