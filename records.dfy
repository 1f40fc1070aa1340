/** The games table and the record operations of the controller, as pure
    functions: each mutating operation maps the table before the call to
    the table after it and the value returned (or the GameError raised).
    The class GameController.GameStore performs the same steps in place. */
module Records {
  import opened Validation
  import opened SqlLike

  /** One row of the games table. Timestamps are readings of an abstract
      clock that orders them the way SQLite's datetime('now') strings sort. */
  datatype Game = Game(id: int, name: string, price: real, rate: int, createdAt: nat, updatedAt: nat)

  /** GameError(message, code). */
  datatype GameError = GameError(message: string, code: int)

  /** A controller call either returns a value or raises a GameError. */
  datatype Result<+T> = Ok(value: T) | Err(error: GameError)

  const NotFoundMessage: string := "Game not found"
  const NotFound: GameError := GameError(NotFoundMessage, 404)
  const DeletedMessage: string := "Game deleted successfully"

  /** The error insert_game and update_game raise for invalid input. */
  function ValidationError(name: Option<string>, price: Option<real>, rate: Option<int>): (e: GameError)
    ensures e.code == 400
    ensures |e.message| > 0 <==> !ValidInput(name, price, rate)
  {
    GameError(ValidationMessage(name, price, rate), 400)
  }

  /** Every value that insert and update store passes validation. */
  predicate WellFormed(g: Game) {
    NameOk(Some(g.name)) && PriceOk(Some(g.price)) && RateOk(Some(g.rate))
  }

  /** The primary key: each row is stored under its own id. */
  predicate Keyed(rows: map<int, Game>) {
    forall k :: k in rows ==> rows[k].id == k
  }

  /** The games table: its rows by id, and lastId, the largest id the
      AUTOINCREMENT column has handed out so far (SQLite's sqlite_sequence
      entry for the table). */
  datatype Table = Table(rows: map<int, Game>, lastId: nat) {
    /** Rows are keyed by id, every id was handed out (1 <= id <= lastId),
        and every row passed validation. */
    predicate Valid() {
      && Keyed(rows)
      && (forall k :: k in rows ==> 1 <= k <= lastId)
      && (forall k :: k in rows ==> WellFormed(rows[k]))
    }
  }

  /** The table that create_tables leaves: no rows, id sequence reset. */
  const EmptyTable: Table := Table(map[], 0)

  /** The table after an operation and the operation's outcome. */
  datatype Step<+T> = Step(table: Table, result: Result<T>)

  // ---------------------------------------------------------------------
  // Queries
  // ---------------------------------------------------------------------

  /** get_by_id: the stored row, or GameError("Game not found", 404). */
  function GetById(t: Table, id: int): (r: Result<Game>)
    ensures r.Ok? <==> id in t.rows
    ensures r.Ok? ==> r.value == t.rows[id]
    ensures r.Err? ==> r.error == NotFound
  {
    if id in t.rows then Ok(t.rows[id]) else Err(NotFound)
  }

  /** The result order of ORDER BY created_at DESC, with ties broken by id
      (SQLite leaves the order of ties open; only createdAt order is
      promised below). */
  predicate NewerOrSame(a: Game, b: Game) {
    a.createdAt > b.createdAt || (a.createdAt == b.createdAt && a.id >= b.id)
  }

  predicate NewestFirst(gs: seq<Game>) {
    forall i, j :: 0 <= i < j < |gs| ==> gs[i].createdAt >= gs[j].createdAt
  }

  predicate DistinctIds(gs: seq<Game>) {
    forall i, j :: 0 <= i < j < |gs| ==> gs[i].id != gs[j].id
  }

  /** Every entry of gs is a row of the table, as stored. */
  predicate RowsOf(gs: seq<Game>, rows: map<int, Game>) {
    forall i :: 0 <= i < |gs| ==> gs[i].id in rows && rows[gs[i].id] == gs[i]
  }

  lemma SomeKey(keys: set<int>)
    requires keys != {}
    ensures exists k :: k in keys
  {
    if forall k :: k !in keys {
      assert false;
    }
  }

  lemma {:induction false} NewestExists(rows: map<int, Game>)
    requires |rows| > 0
    ensures exists k :: k in rows && forall j :: j in rows ==> NewerOrSame(rows[k], rows[j])
    decreases |rows|
  {
    SomeKey(rows.Keys);
    var k0 :| k0 in rows.Keys;
    var rest := rows - {k0};
    assert rest.Keys == rows.Keys - {k0};
    assert |rest| == |rows| - 1;
    if |rest| == 0 {
      assert rest.Keys == {};
      assert rows.Keys == {k0};
      assert NewerOrSame(rows[k0], rows[k0]);
    } else {
      NewestExists(rest);
      var m :| m in rest && forall j :: j in rest ==> NewerOrSame(rest[m], rest[j]);
      if NewerOrSame(rows[m], rows[k0]) {
        assert forall j :: j in rows ==> NewerOrSame(rows[m], rows[j]) by {
          forall j | j in rows ensures NewerOrSame(rows[m], rows[j]) {
            if j != k0 { assert j in rest; }
          }
        }
      } else {
        assert forall j :: j in rows ==> NewerOrSame(rows[k0], rows[j]) by {
          forall j | j in rows ensures NewerOrSame(rows[k0], rows[j]) {
            if j != k0 { assert j in rest && NewerOrSame(rest[m], rest[j]); }
          }
        }
      }
    }
  }

  /** The key of the row that ORDER BY created_at DESC lists first. */
  function Newest(rows: map<int, Game>): (k: int)
    requires |rows| > 0 && Keyed(rows)
    ensures k in rows
    ensures forall j :: j in rows ==> NewerOrSame(rows[k], rows[j])
  {
    NewestExists(rows);
    var k :| k in rows && forall j :: j in rows ==> NewerOrSame(rows[k], rows[j]);
    k
  }

  /** The facts ByRecency establishes about the rows it has not listed yet. */
  predicate ListsNewestFirst(r: seq<Game>, rows: map<int, Game>) {
    && |r| == |rows|
    && RowsOf(r, rows)
    && (forall k :: k in rows ==> rows[k] in r)
    && DistinctIds(r)
    && (forall i, j :: 0 <= i < j < |r| ==> NewerOrSame(r[i], r[j]))
  }

  /** Listing the newest row in front of a listing of the others lists all
      rows, newest first. */
  lemma ConsNewest(rows: map<int, Game>, k: int, tail: seq<Game>)
    requires Keyed(rows) && k in rows
    requires forall j :: j in rows ==> NewerOrSame(rows[k], rows[j])
    requires ListsNewestFirst(tail, rows - {k})
    ensures ListsNewestFirst([rows[k]] + tail, rows)
  {
    var rest := rows - {k};
    assert rest.Keys == rows.Keys - {k};
    assert |rest| == |rows| - 1;
    ConsRows(rows, k, tail);
    ConsCovers(rows, k, tail);
    ConsOrdered(rows, k, tail);
  }

  lemma ConsRows(rows: map<int, Game>, k: int, tail: seq<Game>)
    requires Keyed(rows) && k in rows
    requires RowsOf(tail, rows - {k})
    ensures RowsOf([rows[k]] + tail, rows)
    ensures DistinctIds(tail) ==> DistinctIds([rows[k]] + tail)
  {
  }

  lemma ConsCovers(rows: map<int, Game>, k: int, tail: seq<Game>)
    requires k in rows
    requires forall j :: j in rows - {k} ==> (rows - {k})[j] in tail
    ensures forall j :: j in rows ==> rows[j] in [rows[k]] + tail
  {
    forall j | j in rows ensures rows[j] in [rows[k]] + tail {
      if j != k {
        assert j in rows - {k};
      }
    }
  }

  lemma ConsOrdered(rows: map<int, Game>, k: int, tail: seq<Game>)
    requires k in rows
    requires forall j :: j in rows ==> NewerOrSame(rows[k], rows[j])
    requires RowsOf(tail, rows - {k})
    requires forall i, j :: 0 <= i < j < |tail| ==> NewerOrSame(tail[i], tail[j])
    ensures forall i, j :: 0 <= i < j < |[rows[k]] + tail| ==> NewerOrSame(([rows[k]] + tail)[i], ([rows[k]] + tail)[j])
  {
  }

  /** All rows, newest first. */
  function ByRecency(rows: map<int, Game>): (r: seq<Game>)
    requires Keyed(rows)
    ensures ListsNewestFirst(r, rows)
    decreases |rows|
  {
    if |rows| == 0 then []
    else
      var k := Newest(rows);
      var rest := rows - {k};
      assert rest.Keys == rows.Keys - {k};
      assert |rest| < |rows|;
      var tail := ByRecency(rest);
      ConsNewest(rows, k, tail);
      [rows[k]] + tail
  }

  /** get_games: exactly the table's rows, each once, ordered by created_at
      non-increasing. */
  function GetGames(t: Table): (r: seq<Game>)
    requires Keyed(t.rows)
    ensures |r| == |t.rows|
    ensures RowsOf(r, t.rows)
    ensures forall k :: k in t.rows ==> t.rows[k] in r
    ensures DistinctIds(r)
    ensures NewestFirst(r)
  {
    ByRecency(t.rows)
  }

  /** The first entry of a list bounds the rest: it is no older than any of
      them, and its id differs from theirs. */
  lemma HeadBoundsTail(gs: seq<Game>)
    requires |gs| > 0
    ensures NewestFirst(gs) ==> NewestFirst(gs[1..]) && forall g :: g in gs[1..] ==> g.createdAt <= gs[0].createdAt
    ensures DistinctIds(gs) ==> DistinctIds(gs[1..]) && forall g :: g in gs[1..] ==> g.id != gs[0].id
  {
  }

  /** a is b with some entries left out: its entries occur in b in the
      same order. */
  predicate OrderedSubsequence(a: seq<Game>, b: seq<Game>)
    decreases |b|
  {
    if |a| == 0 then true
    else if |b| == 0 then false
    else (a[0] == b[0] && OrderedSubsequence(a[1..], b[1..])) || OrderedSubsequence(a, b[1..])
  }

  /** The entries of gs whose name is LIKE pattern, in their order. */
  function Matching(gs: seq<Game>, pattern: string): (r: seq<Game>)
    ensures forall g :: g in r <==> g in gs && Like(g.name, pattern)
    ensures OrderedSubsequence(r, gs)
    ensures NewestFirst(gs) ==> NewestFirst(r)
    ensures DistinctIds(gs) ==> DistinctIds(r)
  {
    if |gs| == 0 then []
    else
      var tail := Matching(gs[1..], pattern);
      var keep := Like(gs[0].name, pattern);
      ConsMembers(gs, tail, keep);
      ConsKeepsNewestFirst(gs, tail, keep);
      ConsKeepsDistinct(gs, tail, keep);
      ConsKeepsOrder(gs, tail, keep);
      if keep then [gs[0]] + tail else tail
  }

  /** The steps of Matching: tail is drawn from gs[1..], and the head is
      put back in front of it when keep holds. */
  lemma ConsMembers(gs: seq<Game>, tail: seq<Game>, keep: bool)
    requires |gs| > 0
    ensures forall g :: g in (if keep then [gs[0]] + tail else tail) <==> (keep && g == gs[0]) || g in tail
    ensures forall g :: g in gs <==> g == gs[0] || g in gs[1..]
  {
    assert gs == [gs[0]] + gs[1..];
  }

  lemma ConsKeepsOrder(gs: seq<Game>, tail: seq<Game>, keep: bool)
    requires |gs| > 0 && OrderedSubsequence(tail, gs[1..])
    ensures OrderedSubsequence(if keep then [gs[0]] + tail else tail, gs)
  {
    if keep {
      assert ([gs[0]] + tail)[1..] == tail;
    }
  }

  lemma ConsKeepsNewestFirst(gs: seq<Game>, tail: seq<Game>, keep: bool)
    requires |gs| > 0
    requires forall g :: g in tail ==> g in gs[1..]
    requires NewestFirst(gs[1..]) ==> NewestFirst(tail)
    ensures NewestFirst(gs) ==> NewestFirst(if keep then [gs[0]] + tail else tail)
  {
    HeadBoundsTail(gs);
    if keep && NewestFirst(gs) {
      var r := [gs[0]] + tail;
      assert forall i :: 1 <= i < |r| ==> r[i] == tail[i - 1] && r[i] in gs[1..];
    }
  }

  lemma ConsKeepsDistinct(gs: seq<Game>, tail: seq<Game>, keep: bool)
    requires |gs| > 0
    requires forall g :: g in tail ==> g in gs[1..]
    requires DistinctIds(gs[1..]) ==> DistinctIds(tail)
    ensures DistinctIds(gs) ==> DistinctIds(if keep then [gs[0]] + tail else tail)
  {
    HeadBoundsTail(gs);
    if keep && DistinctIds(gs) {
      var r := [gs[0]] + tail;
      assert forall i :: 1 <= i < |r| ==> r[i] == tail[i - 1] && r[i] in gs[1..];
    }
  }

  /** Entries drawn from a list of stored rows are stored rows. */
  lemma SubsequenceRows(r: seq<Game>, all: seq<Game>, rows: map<int, Game>)
    requires RowsOf(all, rows) && forall g :: g in r ==> g in all
    ensures RowsOf(r, rows)
  {
    forall i | 0 <= i < |r| ensures r[i].id in rows && rows[r[i].id] == r[i] {
      assert r[i] in all;
    }
  }

  /** The pattern search_games passes to LIKE. */
  function SearchPattern(term: string): (p: string)
    ensures |p| == |term| + 2 && p[0] == '%' && p[|p| - 1] == '%' && p[1..|p| - 1] == term
  {
    "%" + term + "%"
  }

  /** search_games: the rows whose name is LIKE "%term%", each once, in the
      same created_at order as get_games. */
  function SearchGames(t: Table, term: string): (r: seq<Game>)
    requires Keyed(t.rows)
    ensures RowsOf(r, t.rows)
    ensures forall i :: 0 <= i < |r| ==> Like(r[i].name, SearchPattern(term))
    ensures forall k :: k in t.rows && Like(t.rows[k].name, SearchPattern(term)) ==> t.rows[k] in r
    ensures OrderedSubsequence(r, GetGames(t))
    ensures DistinctIds(r)
    ensures NewestFirst(r)
  {
    var all := GetGames(t);
    var r := Matching(all, SearchPattern(term));
    SubsequenceRows(r, all, t.rows);
    r
  }

  /** For a term without '%' or '_', search_games returns the rows whose name
      contains the term, ignoring ASCII case. */
  lemma SearchIsSubstringMatch(t: Table, term: string)
    requires Keyed(t.rows) && NoWildcards(term)
    ensures forall i :: 0 <= i < |SearchGames(t, term)| ==> ContainsFolded(SearchGames(t, term)[i].name, term)
    ensures forall k :: k in t.rows && ContainsFolded(t.rows[k].name, term) ==> t.rows[k] in SearchGames(t, term)
  {
    var r := SearchGames(t, term);
    forall i | 0 <= i < |r| ensures ContainsFolded(r[i].name, term) {
      LikeIsSubstring(r[i].name, term);
    }
    forall k | k in t.rows && ContainsFolded(t.rows[k].name, term) ensures t.rows[k] in r {
      LikeIsSubstring(t.rows[k].name, term);
    }
  }

  lemma {:induction false} MatchingAllKeepsAll(gs: seq<Game>, pattern: string)
    requires forall i :: 0 <= i < |gs| ==> Like(gs[i].name, pattern)
    ensures Matching(gs, pattern) == gs
  {
    if |gs| > 0 {
      MatchingAllKeepsAll(gs[1..], pattern);
      assert [gs[0]] + gs[1..] == gs;
    }
  }

  /** Searching for the empty term returns the same list as get_games. */
  lemma SearchEmptyTermIsGetGames(t: Table)
    requires Keyed(t.rows)
    ensures SearchGames(t, "") == GetGames(t)
  {
    var all := GetGames(t);
    forall i | 0 <= i < |all| ensures Like(all[i].name, SearchPattern("")) {
      EmptyTermMatchesAll(all[i].name);
    }
    MatchingAllKeepsAll(all, SearchPattern(""));
  }

  // ---------------------------------------------------------------------
  // Mutating operations
  // ---------------------------------------------------------------------

  /** insert_game: validate first; on success add one row with a fresh id,
      stamped now, and return the row as re-read by get_by_id. */
  function Insert(t: Table, name: Option<string>, price: Option<real>, rate: Option<int>, now: nat): (s: Step<Game>)
    requires t.Valid()
    ensures s.table.Valid()
    ensures s.result.Ok? <==> ValidInput(name, price, rate)
    ensures s.result.Err? ==> s.table == t && s.result.error == ValidationError(name, price, rate)
    ensures s.result.Ok? ==>
              var g := s.result.value;
              && g.name == name.value && g.price == price.value && g.rate == rate.value
              && g.createdAt == now && g.updatedAt == now
              && g.id == s.table.lastId == t.lastId + 1
              && (forall k :: k in t.rows ==> k < g.id)
              && s.table.rows.Keys == t.rows.Keys + {g.id}
              && (forall k :: k in t.rows ==> s.table.rows[k] == t.rows[k])
              && GetById(s.table, g.id) == Ok(g)
  {
    if !ValidInput(name, price, rate) then
      Step(t, Err(ValidationError(name, price, rate)))
    else
      var id := t.lastId + 1;
      var t' := Table(t.rows[id := Game(id, name.value, price.value, rate.value, now, now)], id);
      Step(t', GetById(t', id))
  }

  /** update_game: validate first, then check that the id exists; on
      success overwrite name, price and rate and restamp updated_at, and
      return the row as re-read by get_by_id. */
  function Update(t: Table, id: int, name: Option<string>, price: Option<real>, rate: Option<int>, now: nat): (s: Step<Game>)
    requires t.Valid()
    ensures s.table.Valid()
    ensures s.result.Ok? <==> ValidInput(name, price, rate) && id in t.rows
    ensures !ValidInput(name, price, rate) ==> s == Step(t, Err(ValidationError(name, price, rate)))
    ensures ValidInput(name, price, rate) && id !in t.rows ==> s == Step(t, Err(NotFound))
    ensures s.result.Ok? ==>
              var g := s.result.value;
              && g.id == id && g.createdAt == t.rows[id].createdAt
              && g.name == name.value && g.price == price.value && g.rate == rate.value
              && g.updatedAt == now
              && s.table.lastId == t.lastId
              && s.table.rows.Keys == t.rows.Keys
              && (forall k :: k in t.rows && k != id ==> s.table.rows[k] == t.rows[k])
              && GetById(s.table, id) == Ok(g)
  {
    if !ValidInput(name, price, rate) then
      Step(t, Err(ValidationError(name, price, rate)))
    else if id !in t.rows then
      Step(t, Err(NotFound))
    else
      var t' := Table(t.rows[id := t.rows[id].(name := name.value, price := price.value, rate := rate.value, updatedAt := now)], t.lastId);
      Step(t', GetById(t', id))
  }

  /** delete_game: check that the id exists, then remove exactly that row. */
  function Delete(t: Table, id: int): (s: Step<string>)
    requires t.Valid()
    ensures s.table.Valid()
    ensures id !in t.rows ==> s == Step(t, Err(NotFound))
    ensures id in t.rows ==>
              && s.result == Ok(DeletedMessage)
              && s.table.lastId == t.lastId
              && s.table.rows.Keys == t.rows.Keys - {id}
              && (forall k :: k in s.table.rows ==> s.table.rows[k] == t.rows[k])
    ensures GetById(s.table, id) == Err(NotFound)
  {
    if id !in t.rows then Step(t, Err(NotFound))
    else Step(Table(t.rows - {id}, t.lastId), Ok(DeletedMessage))
  }

  // ---------------------------------------------------------------------
  // Sequences of requests
  // ---------------------------------------------------------------------

  /** A call to one of the mutating operations. */
  datatype Request =
    | InsertRequest(name: Option<string>, price: Option<real>, rate: Option<int>, now: nat)
    | UpdateRequest(id: int, name: Option<string>, price: Option<real>, rate: Option<int>, now: nat)
    | DeleteRequest(id: int)

  function Apply(t: Table, req: Request): (t': Table)
    requires t.Valid()
    ensures t'.Valid() && t'.lastId >= t.lastId
  {
    match req
    case InsertRequest(name, price, rate, now) => Insert(t, name, price, rate, now).table
    case UpdateRequest(id, name, price, rate, now) => Update(t, id, name, price, rate, now).table
    case DeleteRequest(id) => Delete(t, id).table
  }

  function Run(t: Table, reqs: seq<Request>): (t': Table)
    requires t.Valid()
    ensures t'.Valid() && t'.lastId >= t.lastId
    decreases |reqs|
  {
    if |reqs| == 0 then t else Run(Apply(t, reqs[0]), reqs[1..])
  }

  /** The ids that the successful inserts of a run return, in order. */
  function IssuedIds(t: Table, reqs: seq<Request>): (ids: seq<int>)
    requires t.Valid()
    ensures forall i :: 0 <= i < |ids| ==> t.lastId < ids[i] <= Run(t, reqs).lastId
    ensures forall i, j :: 0 <= i < j < |ids| ==> ids[i] < ids[j]
    decreases |reqs|
  {
    if |reqs| == 0 then []
    else
      var req := reqs[0];
      var next := Apply(t, req);
      var here :=
        if req.InsertRequest? && ValidInput(req.name, req.price, req.rate)
        then [Insert(t, req.name, req.price, req.rate, req.now).result.value.id]
        else [];
      here + IssuedIds(next, reqs[1..])
  }

  /** AUTOINCREMENT never reuses an id: whatever was inserted, updated or
      deleted in between, no two inserts of a run return the same id, and
      none returns an id that was handed out before the run. */
  lemma IssuedIdsAreFresh(t: Table, reqs: seq<Request>, k: int)
    requires t.Valid() && k in t.rows
    ensures k !in IssuedIds(t, reqs)
    ensures forall i, j :: 0 <= i < j < |IssuedIds(t, reqs)| ==> IssuedIds(t, reqs)[i] != IssuedIds(t, reqs)[j]
  {
  }

  /** Every row was last written no earlier than it was created. */
  predicate Chronological(t: Table) {
    forall k :: k in t.rows ==> t.rows[k].createdAt <= t.rows[k].updatedAt
  }

  /** No stored timestamp is later than the clock reading. */
  predicate StampsNotAfter(t: Table, clock: nat) {
    forall k :: k in t.rows ==> t.rows[k].updatedAt <= clock
  }

  /** The clock reading after a request. */
  function ClockAfter(req: Request, clock: nat): nat {
    if req.DeleteRequest? then clock else req.now
  }

  /** The clock readings passed to the requests never go backwards. */
  predicate ClockMonotone(reqs: seq<Request>, clock: nat)
    decreases |reqs|
  {
    |reqs| == 0 ||
    (ClockAfter(reqs[0], clock) >= clock && ClockMonotone(reqs[1..], ClockAfter(reqs[0], clock)))
  }

  lemma ApplyKeepsChronology(t: Table, req: Request, clock: nat)
    requires t.Valid() && Chronological(t) && StampsNotAfter(t, clock)
    requires ClockAfter(req, clock) >= clock
    ensures Chronological(Apply(t, req)) && StampsNotAfter(Apply(t, req), ClockAfter(req, clock))
  {
  }

  /** updated_at >= created_at holds for every row, provided the clock the
      caller supplies never goes backwards. */
  lemma {:induction false} MonotoneClockKeepsChronology(t: Table, reqs: seq<Request>, clock: nat)
    requires t.Valid() && Chronological(t) && StampsNotAfter(t, clock)
    requires ClockMonotone(reqs, clock)
    ensures Chronological(Run(t, reqs))
    decreases |reqs|
  {
    if |reqs| > 0 {
      ApplyKeepsChronology(t, reqs[0], clock);
      MonotoneClockKeepsChronology(Apply(t, reqs[0]), reqs[1..], ClockAfter(reqs[0], clock));
    }
  }

  /** A game inserted at a clock reading later than every existing creation
      time is listed first by get_games. */
  lemma InsertedGameListedFirst(t: Table, name: Option<string>, price: Option<real>, rate: Option<int>, now: nat)
    requires t.Valid() && ValidInput(name, price, rate)
    requires forall k :: k in t.rows ==> t.rows[k].createdAt < now
    ensures |GetGames(Insert(t, name, price, rate, now).table)| > 0
    ensures GetGames(Insert(t, name, price, rate, now).table)[0] == Insert(t, name, price, rate, now).result.value
  {
    var s := Insert(t, name, price, rate, now);
    var g := s.result.value;
    var all := GetGames(s.table);
    assert g.id in s.table.rows;
    assert g in all;
    var i :| 0 <= i < |all| && all[i] == g;
    assert all[0].createdAt >= g.createdAt;
    var k := all[0].id;
    assert k in t.rows || k == g.id;
    assert forall j :: j in t.rows ==> s.table.rows[j].createdAt < now;
    assert k == g.id;
  }
}
