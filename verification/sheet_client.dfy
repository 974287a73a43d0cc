/**
 * `GoogleSheetsClient`'s lookup caches. The worksheet is an abstract state
 * `S` read and changed only through a `Remote<S>` oracle, and every remote
 * request the client makes is appended to a call log, so "no remote call"
 * and "exactly one batch request" are statements about that log.
 */
module SheetClient {
  import opened Common
  import opened Decimal

  /** A value the program puts in a cell: some are texts, some integers. */
  datatype CellValue = Text(text: string) | Number(n: int)

  /** `str(value)`. */
  function Str(v: CellValue): (text: string)
    ensures v.Text? ==> text == v.text
    ensures v.Number? ==> ParseInt(text) == Some(v.n)
  {
    match v
    case Text(s) => s
    case Number(n) => IntRoundTrip(n); IntToString(n)
  }

  /** A cell address as the lookups return it: column first, then row. */
  datatype Coord = Coord(col: int, row: int)

  /**
   * Keys of `_find_cache`: `find` uses the pair `(value, in_column)`,
   * `find_last` the string `"last_" + value`; a pair never equals a string.
   */
  datatype FindKey = Search(value: string, inColumn: Option<int>) | Tagged(tag: string)

  function LastKey(value: string): FindKey {
    Tagged("last_" + value)
  }

  /** One `(row, col, value)` triple given to `update_cells`. */
  datatype CellUpdate = CellUpdate(row: int, col: int, value: CellValue)

  /** A `gspread` `Cell` as sent: the value already converted by `str`. */
  datatype SentCell = SentCell(row: int, col: int, text: string)

  /** A request the client sends to the worksheet. */
  datatype RemoteCall =
    | FindCall(query: string, inColumn: Option<int>)
    | FindAllCall(query: string)
    | RowValuesCall(rowIndex: int)
    | ColValuesCall(colIndex: int)
    | InsertRowCall(values: seq<CellValue>, index: Option<int>)
    | UpdateCellsCall(cells: seq<SentCell>)
    | UpdateElementCall(column: int, rowPosition: Option<int>, value: CellValue)

  /** The worksheet's answers and effects, left abstract. */
  datatype Remote<!S> = Remote(
    find: (S, string, Option<int>) -> Option<Coord>,
    findAll: (S, string) -> seq<Coord>,
    rowValues: (S, int) -> seq<string>,
    colValues: (S, int) -> seq<string>,
    insertRow: (S, seq<CellValue>, Option<int>) -> S,
    updateCells: (S, seq<SentCell>) -> S,
    updateElement: (S, int, Option<int>, CellValue) -> S)

  datatype Client<S> = Client(
    sheet: S,
    rowCache: map<int, seq<string>>,
    colCache: map<int, seq<string>>,
    cellCache: map<(int, int), CellValue>,
    findCache: map<FindKey, Coord>,
    calls: seq<RemoteCall>)

  /** What a client method returns, with the client state after it. */
  datatype Reply<S, T> = Reply(client: Client<S>, value: T)

  /** The `ValueError` a lookup raises when nothing matches. */
  datatype NotFound = NotFound(value: string)

  /** A freshly constructed client: four empty caches, nothing sent yet. */
  function NewClient<S>(sheet: S): (c: Client<S>)
    ensures c.rowCache == map[] && c.colCache == map[] && c.cellCache == map[] && c.findCache == map[]
    ensures c.calls == [] && c.sheet == sheet
  {
    Client(sheet, map[], map[], map[], map[], [])
  }

  /** Python truthiness of an optional integer argument: `None` and `0` both mean "not given". */
  function Truthy(x: Option<int>): (r: Option<int>)
    ensures r.Some? <==> x.Some? && x.value != 0
    ensures r.Some? ==> r == x
  {
    if x.Some? && x.value != 0 then x else None
  }

  /**
   * `find`: a cached key answers with no remote call; otherwise one remote
   * search, whose hit is cached and whose miss raises and is not cached.
   */
  function Find<S>(c: Client<S>, remote: Remote<S>, value: string, inColumn: Option<int>)
    : (r: Reply<S, Result<Coord, NotFound>>)
    ensures Search(value, inColumn) in c.findCache ==>
      r == Reply(c, Ok(c.findCache[Search(value, inColumn)]))
    ensures Search(value, inColumn) !in c.findCache ==>
      && r.client.calls == c.calls + [FindCall(value, Truthy(inColumn))]
      && r.client.(calls := c.calls, findCache := c.findCache) == c
      && (r.value.Ok? <==> remote.find(c.sheet, value, Truthy(inColumn)).Some?)
      && (r.value.Ok? ==> r.value.value == remote.find(c.sheet, value, Truthy(inColumn)).value
                          && r.client.findCache == c.findCache[Search(value, inColumn) := r.value.value])
      && (r.value.Err? ==> r.client.findCache == c.findCache)
  {
    var key := Search(value, inColumn);
    if key in c.findCache then Reply(c, Ok(c.findCache[key]))
    else
      var c1 := c.(calls := c.calls + [FindCall(value, Truthy(inColumn))]);
      match remote.find(c.sheet, value, Truthy(inColumn))
      case Some(cell) => Reply(c1.(findCache := c.findCache[key := cell]), Ok(cell))
      case None => Reply(c1, Err(NotFound(value)))
  }

  /**
   * `find_last`: cached under `"last_" + value`; on a miss one `findall`,
   * whose last match is cached, and no match raises without caching.
   */
  function FindLast<S>(c: Client<S>, remote: Remote<S>, value: string): (r: Reply<S, Result<Coord, NotFound>>)
    ensures LastKey(value) in c.findCache ==> r == Reply(c, Ok(c.findCache[LastKey(value)]))
    ensures LastKey(value) !in c.findCache ==>
      && r.client.calls == c.calls + [FindAllCall(value)]
      && r.client.(calls := c.calls, findCache := c.findCache) == c
      && (r.value.Ok? <==> |remote.findAll(c.sheet, value)| > 0)
      && (r.value.Ok? ==>
            && r.value.value == remote.findAll(c.sheet, value)[|remote.findAll(c.sheet, value)| - 1]
            && r.client.findCache == c.findCache[LastKey(value) := r.value.value])
      && (r.value.Err? ==> r.client.findCache == c.findCache)
  {
    var key := LastKey(value);
    if key in c.findCache then Reply(c, Ok(c.findCache[key]))
    else
      var c1 := c.(calls := c.calls + [FindAllCall(value)]);
      var cells := remote.findAll(c.sheet, value);
      if |cells| > 0 then Reply(c1.(findCache := c.findCache[key := cells[|cells| - 1]]), Ok(cells[|cells| - 1]))
      else Reply(c1, Err(NotFound(value)))
  }

  /**
   * `write_row`: one `insert_row` (at `position` only when it is truthy);
   * the row and cell caches are emptied whichever way, the column and find
   * caches are left as they are.
   */
  function WriteRow<S>(c: Client<S>, remote: Remote<S>, row: seq<CellValue>, position: Option<int>)
    : (r: Client<S>)
    ensures r.rowCache == map[] && r.cellCache == map[]
    ensures r.colCache == c.colCache && r.findCache == c.findCache
    ensures r.calls == c.calls + [InsertRowCall(row, Truthy(position))]
  {
    c.(sheet := remote.insertRow(c.sheet, row, Truthy(position)),
       rowCache := map[], cellCache := map[],
       calls := c.calls + [InsertRowCall(row, Truthy(position))])
  }

  /** The only key `get_column_values` ever uses. */
  const FirstColumn: int := 1

  /** `get_column_values`: the first column, read remotely at most once while cached. */
  function GetColumnValues<S>(c: Client<S>, remote: Remote<S>): (r: Reply<S, seq<string>>)
    ensures FirstColumn in c.colCache ==> r == Reply(c, c.colCache[FirstColumn])
    ensures FirstColumn !in c.colCache ==>
      && r.value == remote.colValues(c.sheet, FirstColumn)
      && r.client == c.(colCache := c.colCache[FirstColumn := r.value],
                        calls := c.calls + [ColValuesCall(FirstColumn)])
  {
    if FirstColumn in c.colCache then Reply(c, c.colCache[FirstColumn])
    else
      var values := remote.colValues(c.sheet, FirstColumn);
      Reply(c.(colCache := c.colCache[FirstColumn := values], calls := c.calls + [ColValuesCall(FirstColumn)]),
            values)
  }

  /** `get_row_values(row)`: the row, read remotely at most once while cached. */
  function GetRowValues<S>(c: Client<S>, remote: Remote<S>, row: int): (r: Reply<S, seq<string>>)
    ensures row in c.rowCache ==> r == Reply(c, c.rowCache[row])
    ensures row !in c.rowCache ==>
      && r.value == remote.rowValues(c.sheet, row)
      && r.client == c.(rowCache := c.rowCache[row := r.value], calls := c.calls + [RowValuesCall(row)])
  {
    if row in c.rowCache then Reply(c, c.rowCache[row])
    else
      var values := remote.rowValues(c.sheet, row);
      Reply(c.(rowCache := c.rowCache[row := values], calls := c.calls + [RowValuesCall(row)]), values)
  }

  /** `clear_cache`: all four caches emptied, nothing sent. */
  function ClearCache<S>(c: Client<S>): (r: Client<S>)
    ensures r.rowCache == map[] && r.colCache == map[] && r.cellCache == map[] && r.findCache == map[]
    ensures r.calls == c.calls && r.sheet == c.sheet
  {
    c.(rowCache := map[], colCache := map[], cellCache := map[], findCache := map[])
  }

  /**
   * `update_element_at(col, row, value)`. The client defines no such method,
   * so only its request is modelled: one single-cell write, no cache change.
   */
  function UpdateElementAt<S>(c: Client<S>, remote: Remote<S>, col: int, row: Option<int>, value: CellValue)
    : (r: Client<S>)
    ensures r.calls == c.calls + [UpdateElementCall(col, row, value)]
    ensures r.rowCache == c.rowCache && r.colCache == c.colCache
    ensures r.cellCache == c.cellCache && r.findCache == c.findCache
  {
    c.(sheet := remote.updateElement(c.sheet, col, row, value),
       calls := c.calls + [UpdateElementCall(col, row, value)])
  }

  /** The cells `update_cells` sends for `updates`: same order, values through `str`. */
  function Sent(updates: seq<CellUpdate>): (cells: seq<SentCell>)
    ensures |cells| == |updates|
    ensures forall i | 0 <= i < |updates| ::
      cells[i] == SentCell(updates[i].row, updates[i].col, Str(updates[i].value))
  {
    seq(|updates|, i requires 0 <= i < |updates| =>
      SentCell(updates[i].row, updates[i].col, Str(updates[i].value)))
  }

  /** The addresses `updates` writes, as `(row, col)` pairs. */
  function Addresses(updates: seq<CellUpdate>): set<(int, int)> {
    set i | 0 <= i < |updates| :: (updates[i].row, updates[i].col)
  }

  function Rows(updates: seq<CellUpdate>): set<int> {
    set i | 0 <= i < |updates| :: updates[i].row
  }

  function Cols(updates: seq<CellUpdate>): set<int> {
    set i | 0 <= i < |updates| :: updates[i].col
  }

  /** Update `i` is the last one in `updates` to its address. */
  ghost predicate LastUpdateAt(updates: seq<CellUpdate>, i: int) {
    && 0 <= i < |updates|
    && forall j | i < j < |updates| :: (updates[j].row, updates[j].col) != (updates[i].row, updates[i].col)
  }

  /** The cell cache after recording `updates` one by one. */
  function CellsAfter(cache: map<(int, int), CellValue>, updates: seq<CellUpdate>): map<(int, int), CellValue> {
    if updates == [] then cache
    else
      var u := updates[|updates| - 1];
      CellsAfter(cache, updates[..|updates| - 1])[(u.row, u.col) := u.value]
  }

  /**
   * Recording updates adds exactly their addresses, keeps the last value
   * written to each, and leaves every other cached cell alone.
   */
  lemma {:induction false} CellsAfterLastWins(cache: map<(int, int), CellValue>, updates: seq<CellUpdate>)
    ensures CellsAfter(cache, updates).Keys == cache.Keys + Addresses(updates)
    ensures forall i | LastUpdateAt(updates, i) ::
      CellsAfter(cache, updates)[(updates[i].row, updates[i].col)] == updates[i].value
    ensures forall k | k in cache && k !in Addresses(updates) :: CellsAfter(cache, updates)[k] == cache[k]
  {
    if updates != [] {
      var init := updates[..|updates| - 1];
      var u := updates[|updates| - 1];
      CellsAfterLastWins(cache, init);
      assert updates == init + [u];
      UpdatesSnoc(init, u);
      forall i | LastUpdateAt(updates, i) && i < |updates| - 1 ensures LastUpdateAt(init, i) {
      }
    }
  }

  lemma UpdatesSnoc(init: seq<CellUpdate>, u: CellUpdate)
    ensures Addresses(init + [u]) == Addresses(init) + {(u.row, u.col)}
    ensures Rows(init + [u]) == Rows(init) + {u.row}
    ensures Cols(init + [u]) == Cols(init) + {u.col}
  {
    var s := init + [u];
    forall k | k in Addresses(s) ensures k in Addresses(init) + {(u.row, u.col)} {
      var i :| 0 <= i < |s| && k == (s[i].row, s[i].col);
      if i < |init| {
        assert s[i] == init[i];
      }
    }
    forall k | k in Addresses(init) ensures k in Addresses(s) {
      var i :| 0 <= i < |init| && k == (init[i].row, init[i].col);
      assert s[i] == init[i];
    }
    assert s[|init|] == u;
    forall k | k in Rows(s) ensures k in Rows(init) + {u.row} {
      var i :| 0 <= i < |s| && k == s[i].row;
      if i < |init| {
        assert s[i] == init[i];
      }
    }
    forall k | k in Rows(init) ensures k in Rows(s) {
      var i :| 0 <= i < |init| && k == init[i].row;
      assert s[i] == init[i];
    }
    forall k | k in Cols(s) ensures k in Cols(init) + {u.col} {
      var i :| 0 <= i < |s| && k == s[i].col;
      if i < |init| {
        assert s[i] == init[i];
      }
    }
    forall k | k in Cols(init) ensures k in Cols(s) {
      var i :| 0 <= i < |init| && k == init[i].col;
      assert s[i] == init[i];
    }
  }

  lemma MapMinusStep<K, V>(m: map<K, V>, removed: set<K>, x: K)
    ensures (m - removed) - {x} == m - (removed + {x})
  {
  }

  /** What one more update adds to each quantity `update_cells` accumulates. */
  lemma PrefixStep(cells: map<(int, int), CellValue>, rows: map<int, seq<string>>,
                   cols: map<int, seq<string>>, updates: seq<CellUpdate>, i: int)
    requires 0 <= i < |updates|
    ensures var u := updates[i];
      && Sent(updates[..i + 1]) == Sent(updates[..i]) + [SentCell(u.row, u.col, Str(u.value))]
      && CellsAfter(cells, updates[..i + 1]) == CellsAfter(cells, updates[..i])[(u.row, u.col) := u.value]
      && rows - Rows(updates[..i + 1]) == (rows - Rows(updates[..i])) - {u.row}
      && cols - Cols(updates[..i + 1]) == (cols - Cols(updates[..i])) - {u.col}
  {
    var u := updates[i];
    assert updates[..i + 1] == updates[..i] + [u];
    UpdatesSnoc(updates[..i], u);
    MapMinusStep(rows, Rows(updates[..i]), u.row);
    MapMinusStep(cols, Cols(updates[..i]), u.col);
  }

  /**
   * `update_cells`: exactly one batch request carrying every update in
   * order; the cell cache then holds the raw value of the last update to
   * each address, the row and column caches lose every touched row and
   * column, and all other entries stay.
   */
  method UpdateCells<S>(c: Client<S>, remote: Remote<S>, updates: seq<CellUpdate>) returns (r: Client<S>)
    ensures r.calls == c.calls + [UpdateCellsCall(Sent(updates))]
    ensures r.cellCache.Keys == c.cellCache.Keys + Addresses(updates)
    ensures forall i | LastUpdateAt(updates, i) :: r.cellCache[(updates[i].row, updates[i].col)] == updates[i].value
    ensures forall k | k in c.cellCache && k !in Addresses(updates) :: r.cellCache[k] == c.cellCache[k]
    ensures r.rowCache == c.rowCache - Rows(updates)
    ensures r.colCache == c.colCache - Cols(updates)
    ensures r.findCache == c.findCache
    ensures CellCacheCoherent(c) ==> CellCacheCoherent(r)
  {
    var cells: seq<SentCell> := [];
    var cellCache := c.cellCache;
    var rowCache := c.rowCache;
    var colCache := c.colCache;
    for i := 0 to |updates|
      invariant cells == Sent(updates[..i])
      invariant cellCache == CellsAfter(c.cellCache, updates[..i])
      invariant rowCache == c.rowCache - Rows(updates[..i])
      invariant colCache == c.colCache - Cols(updates[..i])
    {
      var u := updates[i];
      PrefixStep(c.cellCache, c.rowCache, c.colCache, updates, i);
      cells := cells + [SentCell(u.row, u.col, Str(u.value))];
      cellCache := cellCache[(u.row, u.col) := u.value];
      if u.row in rowCache {
        rowCache := rowCache - {u.row};
      }
      if u.col in colCache {
        colCache := colCache - {u.col};
      }
    }
    assert updates[..|updates|] == updates;
    CellsAfterLastWins(c.cellCache, updates);
    r := c.(sheet := remote.updateCells(c.sheet, cells),
            rowCache := rowCache, colCache := colCache, cellCache := cellCache,
            calls := c.calls + [UpdateCellsCall(cells)]);
    if CellCacheCoherent(c) {
      UpdateCellsKeepsCellCacheCoherent(c, r, updates);
    }
  }

  /** A second `find` of a key the first one resolved answers the same, with no remote call. */
  lemma FindMemoised<S>(c: Client<S>, remote: Remote<S>, value: string, inColumn: Option<int>)
    requires Find(c, remote, value, inColumn).value.Ok?
    ensures var first := Find(c, remote, value, inColumn);
      Find(first.client, remote, value, inColumn) == Reply(first.client, first.value)
  {
  }

  /** A miss is not remembered: asking again searches the sheet again. */
  lemma FindMissNotCached<S>(c: Client<S>, remote: Remote<S>, value: string, inColumn: Option<int>)
    requires Find(c, remote, value, inColumn).value.Err?
    ensures var first := Find(c, remote, value, inColumn);
      && first.client.findCache == c.findCache
      && Find(first.client, remote, value, inColumn).client.calls
           == first.client.calls + [FindCall(value, Truthy(inColumn))]
  {
  }

  /**
   * `write_row` does not invalidate lookups: a coordinate cached before an
   * insertion is still answered afterwards, without asking the sheet.
   */
  lemma WriteRowKeepsFindHits<S>(c: Client<S>, remote: Remote<S>, row: seq<CellValue>, position: Option<int>,
                                 value: string, inColumn: Option<int>)
    requires Search(value, inColumn) in c.findCache
    ensures var after := WriteRow(c, remote, row, position);
      Find(after, remote, value, inColumn) == Reply(after, Ok(c.findCache[Search(value, inColumn)]))
  {
  }

  /** `find_last` keys never collide with `find` keys, nor with each other. */
  lemma LastKeysDisjoint(a: string, b: string, inColumn: Option<int>)
    ensures LastKey(a) != Search(b, inColumn)
    ensures LastKey(a) == LastKey(b) ==> a == b
  {
    if LastKey(a) == LastKey(b) {
      assert a == ("last_" + a)[5..] && b == ("last_" + b)[5..];
    }
  }

  /** A second `get_row_values(row)` returns the same list and sends nothing. */
  lemma RowValuesMemoised<S>(c: Client<S>, remote: Remote<S>, row: int)
    ensures var first := GetRowValues(c, remote, row);
      GetRowValues(first.client, remote, row) == first
  {
  }

  /** A second `get_column_values()` returns the same list and sends nothing. */
  lemma ColumnValuesMemoised<S>(c: Client<S>, remote: Remote<S>)
    ensures var first := GetColumnValues(c, remote);
      GetColumnValues(first.client, remote) == first
  {
  }

  /** The text the last cell of `cells` addressed to `key` carries, if any. */
  function LastInBatch(cells: seq<SentCell>, key: (int, int)): Option<string> {
    if cells == [] then None
    else
      var cell := cells[|cells| - 1];
      if (cell.row, cell.col) == key then Some(cell.text) else LastInBatch(cells[..|cells| - 1], key)
  }

  /**
   * The text the sheet last received for cell `key` according to the log,
   * looking back no further than the latest row insertion (which shifts
   * every address below it).
   */
  function LastWritten(calls: seq<RemoteCall>, key: (int, int)): Option<string> {
    if calls == [] then None
    else
      var earlier := calls[..|calls| - 1];
      match calls[|calls| - 1]
      case InsertRowCall(_, _) => None
      case UpdateCellsCall(cells) =>
        if LastInBatch(cells, key).Some? then LastInBatch(cells, key) else LastWritten(earlier, key)
      case UpdateElementCall(col, row, v) =>
        if row == Some(key.0) && col == key.1 then Some(Str(v)) else LastWritten(earlier, key)
      case _ => LastWritten(earlier, key)
  }

  /** Every cached cell shows what the sheet was last sent for it. */
  ghost predicate CellCacheCoherent<S>(c: Client<S>) {
    forall k | k in c.cellCache :: LastWritten(c.calls, k) == Some(Str(c.cellCache[k]))
  }

  /** In a batch, the text an address ends with is the one its last update sent. */
  lemma {:induction false} LastInBatchOfSent(updates: seq<CellUpdate>)
    ensures forall k | k !in Addresses(updates) :: LastInBatch(Sent(updates), k) == None
    ensures forall i | LastUpdateAt(updates, i) ::
      LastInBatch(Sent(updates), (updates[i].row, updates[i].col)) == Some(Str(updates[i].value))
  {
    if updates != [] {
      var init := updates[..|updates| - 1];
      var u := updates[|updates| - 1];
      LastInBatchOfSent(init);
      assert updates == init + [u];
      UpdatesSnoc(init, u);
      assert Sent(updates)[..|updates| - 1] == Sent(init);
      forall i | LastUpdateAt(updates, i) && i < |updates| - 1 ensures LastUpdateAt(init, i) {
      }
    }
  }

  lemma {:induction false} SomeUpdateIsLast(updates: seq<CellUpdate>, i: int)
    requires 0 <= i < |updates|
    ensures exists j | LastUpdateAt(updates, j) :: (updates[j].row, updates[j].col) == (updates[i].row, updates[i].col)
    decreases |updates| - i
  {
    if !LastUpdateAt(updates, i) {
      var j :| i < j < |updates| && (updates[j].row, updates[j].col) == (updates[i].row, updates[i].col);
      SomeUpdateIsLast(updates, j);
    }
  }

  /** A batch answers for the addresses it writes and passes every other one to the calls before it. */
  lemma LastWrittenAfterBatch(calls: seq<RemoteCall>, cells: seq<SentCell>, k: (int, int))
    ensures LastWritten(calls + [UpdateCellsCall(cells)], k)
      == if LastInBatch(cells, k).Some? then LastInBatch(cells, k) else LastWritten(calls, k)
  {
    assert (calls + [UpdateCellsCall(cells)])[..|calls|] == calls;
  }

  /** A read request changes no cell's last written text. */
  lemma ReadKeepsCoherence<S>(c: Client<S>, r: Client<S>, call: RemoteCall)
    requires CellCacheCoherent(c)
    requires call.FindCall? || call.FindAllCall? || call.RowValuesCall? || call.ColValuesCall?
    requires r.calls == c.calls + [call] && r.cellCache == c.cellCache
    ensures CellCacheCoherent(r)
  {
    assert r.calls[..|c.calls|] == c.calls;
  }

  /** `update_cells` keeps the cell cache coherent with what the sheet was sent. */
  lemma UpdateCellsKeepsCellCacheCoherent<S>(c: Client<S>, r: Client<S>, updates: seq<CellUpdate>)
    requires CellCacheCoherent(c)
    requires r.calls == c.calls + [UpdateCellsCall(Sent(updates))]
    requires r.cellCache.Keys == c.cellCache.Keys + Addresses(updates)
    requires forall i | LastUpdateAt(updates, i) :: r.cellCache[(updates[i].row, updates[i].col)] == updates[i].value
    requires forall k | k in c.cellCache && k !in Addresses(updates) :: r.cellCache[k] == c.cellCache[k]
    ensures CellCacheCoherent(r)
  {
    LastInBatchOfSent(updates);
    forall k | k in r.cellCache ensures LastWritten(r.calls, k) == Some(Str(r.cellCache[k])) {
      LastWrittenAfterBatch(c.calls, Sent(updates), k);
      if k in Addresses(updates) {
        var i0 :| 0 <= i0 < |updates| && k == (updates[i0].row, updates[i0].col);
        SomeUpdateIsLast(updates, i0);
        var i :| LastUpdateAt(updates, i) && (updates[i].row, updates[i].col) == k;
        assert LastInBatch(Sent(updates), k) == Some(Str(updates[i].value));
      } else {
        assert LastInBatch(Sent(updates), k) == None;
        assert k in c.cellCache;
      }
    }
  }

  /** Every other client method keeps the cell cache coherent too. */
  lemma OtherMethodsKeepCellCacheCoherent<S>(c: Client<S>, remote: Remote<S>, value: string,
                                              inColumn: Option<int>, row: int,
                                              values: seq<CellValue>, position: Option<int>)
    requires CellCacheCoherent(c)
    ensures CellCacheCoherent(Find(c, remote, value, inColumn).client)
    ensures CellCacheCoherent(FindLast(c, remote, value).client)
    ensures CellCacheCoherent(GetRowValues(c, remote, row).client)
    ensures CellCacheCoherent(GetColumnValues(c, remote).client)
    ensures CellCacheCoherent(WriteRow(c, remote, values, position))
    ensures CellCacheCoherent(ClearCache(c))
  {
    FindKeepsCoherence(c, remote, value, inColumn);
    FindLastKeepsCoherence(c, remote, value);
    RowValuesKeepCoherence(c, remote, row);
    ColumnValuesKeepCoherence(c, remote);
  }

  lemma FindKeepsCoherence<S>(c: Client<S>, remote: Remote<S>, value: string, inColumn: Option<int>)
    requires CellCacheCoherent(c)
    ensures CellCacheCoherent(Find(c, remote, value, inColumn).client)
  {
    var r := Find(c, remote, value, inColumn).client;
    if r.calls != c.calls {
      ReadKeepsCoherence(c, r, FindCall(value, Truthy(inColumn)));
    }
  }

  lemma FindLastKeepsCoherence<S>(c: Client<S>, remote: Remote<S>, value: string)
    requires CellCacheCoherent(c)
    ensures CellCacheCoherent(FindLast(c, remote, value).client)
  {
    var r := FindLast(c, remote, value).client;
    if r.calls != c.calls {
      ReadKeepsCoherence(c, r, FindAllCall(value));
    }
  }

  lemma RowValuesKeepCoherence<S>(c: Client<S>, remote: Remote<S>, row: int)
    requires CellCacheCoherent(c)
    ensures CellCacheCoherent(GetRowValues(c, remote, row).client)
  {
    var r := GetRowValues(c, remote, row).client;
    if r.calls != c.calls {
      ReadKeepsCoherence(c, r, RowValuesCall(row));
    }
  }

  lemma ColumnValuesKeepCoherence<S>(c: Client<S>, remote: Remote<S>)
    requires CellCacheCoherent(c)
    ensures CellCacheCoherent(GetColumnValues(c, remote).client)
  {
    var r := GetColumnValues(c, remote).client;
    if r.calls != c.calls {
      ReadKeepsCoherence(c, r, ColValuesCall(FirstColumn));
    }
  }
}
