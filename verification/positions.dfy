/**
 * The header column of a payment date: found once from the anchor cell of
 * the date's half-year block, then remembered for the rest of the run.
 */
module Positions {
  import opened Common
  import opened Calendar
  import opened SheetClient

  /** The header row that holds one column per day. */
  const DateRow: int := 3

  /** Why a date's column cannot be found; either aborts the run. */
  datatype PositionError = LabelNotFound(blockLabel: string) | BadDay(error: OffsetError)

  /** `get_payment_date_position`'s answer with the memo table and client after it. */
  datatype Located<S> = Located(index: map<Date, Coord>, client: Client<S>, result: Result<Coord, PositionError>)

  /** The sheet search that anchors `d`'s block. */
  function AnchorKey(d: Date): FindKey {
    Search(HalfYearLabel(d), None)
  }

  /** The table only gains entries; none is overwritten. */
  ghost predicate Extends<K, V>(before: map<K, V>, after: map<K, V>) {
    forall k | k in before :: k in after && after[k] == before[k]
  }

  lemma ExtendsTransitive<K, V>(a: map<K, V>, b: map<K, V>, c: map<K, V>)
    requires Extends(a, b) && Extends(b, c)
    ensures Extends(a, c)
  {
  }

  /**
   * `get_payment_date_position(date)`: a remembered date answers at once;
   * otherwise the block label is searched (a miss raises), the day offset
   * is computed (which can raise), and the column of the day is stored.
   */
  function PaymentDatePosition<S>(index: map<Date, Coord>, c: Client<S>, remote: Remote<S>, d: Date): (r: Located<S>)
    ensures d in index ==> r == Located(index, c, Ok(index[d]))
    ensures d !in index ==>
      && r.client == Find(c, remote, HalfYearLabel(d), None).client
      && (r.result.Ok? <==> Find(c, remote, HalfYearLabel(d), None).value.Ok?
                            && DayOffset(d.year, HalfYear(d), d.month, d.day).Ok?)
      && (r.result.Ok? ==> r.index == index[d := r.result.value] && r.result.value.row == DateRow)
      && (r.result.Err? ==> r.index == index)
  {
    if d in index then Located(index, c, Ok(index[d]))
    else
      var half := HalfYear(d);
      var blockLabel := HalfYearLabel(d);
      var anchor := Find(c, remote, blockLabel, None);
      match anchor.value
      case Err(_) => Located(index, anchor.client, Err(LabelNotFound(blockLabel)))
      case Ok(cell) =>
        match DayOffset(d.year, half, d.month, d.day)
        case Err(e) => Located(index, anchor.client, Err(BadDay(e)))
        case Ok(offset) =>
          var position := Coord(cell.col + offset - 1, DateRow);
          Located(index[d := position], anchor.client, Ok(position))
  }

  /**
   * Every remembered date sits in the header row, at its block anchor's
   * column plus its day offset less one, the anchor being the one the
   * client remembers for the block's label.
   */
  ghost predicate IndexConsistent(index: map<Date, Coord>, findCache: map<FindKey, Coord>) {
    forall d | d in index ::
      && AnchorKey(d) in findCache
      && DayOffset(d.year, HalfYear(d), d.month, d.day).Ok?
      && index[d] == Coord(findCache[AnchorKey(d)].col + DayOffset(d.year, HalfYear(d), d.month, d.day).value - 1,
                           DateRow)
  }

  /** Consistency survives any growth of the client's find cache. */
  lemma ConsistentUnderExtension(index: map<Date, Coord>, fc: map<FindKey, Coord>, fc': map<FindKey, Coord>)
    requires IndexConsistent(index, fc) && Extends(fc, fc')
    ensures IndexConsistent(index, fc')
  {
    forall d | d in index ensures AnchorKey(d) in fc' && fc'[AnchorKey(d)] == fc[AnchorKey(d)] {
    }
  }

  /**
   * A lookup keeps the table consistent with the client, only ever adds to
   * the table and to the find cache, and sends at most one search, for the
   * block's label.
   */
  lemma PaymentDatePositionKeepsConsistent<S>(index: map<Date, Coord>, c: Client<S>, remote: Remote<S>, d: Date)
    requires IndexConsistent(index, c.findCache)
    ensures var r := PaymentDatePosition(index, c, remote, d);
      && IndexConsistent(r.index, r.client.findCache)
      && Extends(index, r.index)
      && (r.result.Ok? ==> d in r.index && r.index[d] == r.result.value)
  {
    var r := PaymentDatePosition(index, c, remote, d);
    PaymentDatePositionRecords(index, c, remote, d);
    if d !in index {
      var anchor := Find(c, remote, HalfYearLabel(d), None);
      FindExtendsCache(c, remote, HalfYearLabel(d));
      ConsistentUnderExtension(index, c.findCache, anchor.client.findCache);
      if r.result.Ok? {
        FindRemembers(c, remote, HalfYearLabel(d));
        PaymentDatePositionColumn(index, c, remote, d);
        AddConsistentEntry(index, anchor.client.findCache, d, r.result.value);
      }
    }
  }

  /** A column found by searching is the anchor's column plus the day offset less one. */
  lemma PaymentDatePositionColumn<S>(index: map<Date, Coord>, c: Client<S>, remote: Remote<S>, d: Date)
    requires d !in index && PaymentDatePosition(index, c, remote, d).result.Ok?
    ensures var anchor := Find(c, remote, HalfYearLabel(d), None);
      && anchor.value.Ok?
      && DayOffset(d.year, HalfYear(d), d.month, d.day).Ok?
      && PaymentDatePosition(index, c, remote, d).result.value
         == Coord(anchor.value.value.col + DayOffset(d.year, HalfYear(d), d.month, d.day).value - 1, DateRow)
  {
  }

  /** A lookup only adds to the table, and a found column is recorded for the date. */
  lemma PaymentDatePositionRecords<S>(index: map<Date, Coord>, c: Client<S>, remote: Remote<S>, d: Date)
    ensures var r := PaymentDatePosition(index, c, remote, d);
      && Extends(index, r.index)
      && (r.result.Ok? ==> d in r.index && r.index[d] == r.result.value)
  {
  }

  /** Adding a date at its anchor's column plus its offset keeps the table consistent. */
  lemma AddConsistentEntry(index: map<Date, Coord>, fc: map<FindKey, Coord>, d: Date, position: Coord)
    requires IndexConsistent(index, fc) && d !in index
    requires AnchorKey(d) in fc && DayOffset(d.year, HalfYear(d), d.month, d.day).Ok?
    requires position == Coord(fc[AnchorKey(d)].col + DayOffset(d.year, HalfYear(d), d.month, d.day).value - 1, DateRow)
    ensures IndexConsistent(index[d := position], fc)
    ensures Extends(index, index[d := position])
  {
  }

  /**
   * A lookup sends at most one search, for the block's label, and changes
   * nothing of the client but the find cache, which it only adds to.
   */
  lemma PaymentDatePositionRequests<S>(index: map<Date, Coord>, c: Client<S>, remote: Remote<S>, d: Date)
    ensures var r := PaymentDatePosition(index, c, remote, d);
      && Extends(c.findCache, r.client.findCache)
      && (r.client.calls == c.calls || r.client.calls == c.calls + [FindCall(HalfYearLabel(d), None)])
      && r.client.(calls := c.calls, findCache := c.findCache) == c
  {
    if d !in index {
      FindExtendsCache(c, remote, HalfYearLabel(d));
    }
  }

  /** A lookup only ever adds to the client's find cache. */
  lemma PaymentDatePositionGrowsCache<S>(index: map<Date, Coord>, c: Client<S>, remote: Remote<S>, d: Date)
    ensures Extends(c.findCache, PaymentDatePosition(index, c, remote, d).client.findCache)
  {
    if d !in index {
      FindExtendsCache(c, remote, HalfYearLabel(d));
    }
  }

  /** A search only ever adds to the find cache. */
  lemma FindExtendsCache<S>(c: Client<S>, remote: Remote<S>, value: string)
    ensures Extends(c.findCache, Find(c, remote, value, None).client.findCache)
  {
  }

  /** A successful search leaves its answer in the find cache. */
  lemma FindRemembers<S>(c: Client<S>, remote: Remote<S>, value: string)
    requires Find(c, remote, value, None).value.Ok?
    ensures Search(value, None) in Find(c, remote, value, None).client.findCache
    ensures Find(c, remote, value, None).client.findCache[Search(value, None)] == Find(c, remote, value, None).value.value
  {
  }

  /**
   * Within one half-year block the columns follow the calendar: an earlier
   * day is always to the left of a later one, so no two days share a column.
   */
  lemma ColumnsFollowCalendar(index: map<Date, Coord>, fc: map<FindKey, Coord>, d1: Date, d2: Date)
    requires IndexConsistent(index, fc) && d1 in index && d2 in index
    requires ValidDate(d1) && ValidDate(d2) && Before(d1, d2)
    requires HalfYear(d1) == HalfYear(d2) && d1.year == d2.year
    ensures index[d1].col < index[d2].col
  {
    LabelIdentifiesBlock(d1, d2);
    OffsetStrictlyIncreasing(d1.year, HalfYear(d1), d1.month, d1.day, d2.month, d2.day);
  }

  /** A real calendar date never fails on its day offset; only its block label can be missing. */
  lemma ValidDateOnlyMissesLabel<S>(index: map<Date, Coord>, c: Client<S>, remote: Remote<S>, d: Date)
    requires ValidDate(d)
    ensures var r := PaymentDatePosition(index, c, remote, d);
      r.result.Err? ==> r.result.error == LabelNotFound(HalfYearLabel(d))
  {
    ValidDateHasOffset(d.year, HalfYear(d), d);
  }

  /** Asking again for a date just resolved answers from the table, with no request. */
  lemma PaymentDatePositionMemoised<S>(index: map<Date, Coord>, c: Client<S>, remote: Remote<S>, d: Date)
    ensures var r := PaymentDatePosition(index, c, remote, d);
      r.result.Ok? ==>
        PaymentDatePosition(r.index, r.client, remote, d) == Located(r.index, r.client, r.result)
  {
  }
}
