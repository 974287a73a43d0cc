/**
 * `inser_not_exist_patients_excel`: for each patient in turn, find its row
 * by full name (inserting a row, with no position given, when it is
 * missing; updating the plan and visit cells when it is present), write its
 * per-day payment sums, record it as a payer of each day; then write every
 * day's number of payers.
 */
module Sync {
  import opened Common
  import opened Calendar
  import opened Entities
  import opened OrderedMaps
  import opened SheetClient
  import opened Report
  import opened Positions
  import Joiner

  /** `RowElementId.MONTH_COUNT`: the row that holds each day's number of payers. */
  const MonthCountRow: int := 4

  /** A date whose column could not be found; the error ends the whole run. */
  datatype SyncError = SyncError(date: Date, reason: PositionError)

  /**
   * The run's state between patients: the sheet client, the table of day
   * columns, the payers of each day, and the patients handled so far with
   * the row each was given.
   */
  datatype SyncState<S> = SyncState(
    client: Client<S>,
    index: map<Date, Coord>,
    counts: OMap<Date, seq<Patient>>,
    done: seq<Patient>)

  /** A fresh client, an empty day table, no payers, nobody handled. */
  function Initial<S>(sheet: S): (st: SyncState<S>)
    ensures st.counts.Valid() && st.counts.vals == map[] && st.index == map[] && st.done == []
    ensures st.client == NewClient(sheet)
  {
    SyncState(NewClient(sheet), map[], Empty(), [])
  }

  /** `set_patient_row_position`: the row where the patient's full name is found, if any. */
  function RowPosition<S>(c: Client<S>, remote: Remote<S>, p: Patient): (r: Reply<S, Option<int>>)
    ensures Search(FullName(p), None) in c.findCache ==>
      r == Reply(c, Some(c.findCache[Search(FullName(p), None)].row))
    ensures Search(FullName(p), None) !in c.findCache ==>
      && r.client.calls == c.calls + [FindCall(FullName(p), None)]
      && (r.value.Some? <==> remote.find(c.sheet, FullName(p), None).Some?)
      && (r.value.Some? ==> r.value.value == remote.find(c.sheet, FullName(p), None).value.row)
  {
    var found := Find(c, remote, FullName(p), None);
    Reply(found.client, if found.value.Ok? then Some(found.value.value.row) else None)
  }

  /**
   * The first half of the loop body. A patient whose name is found gets its
   * plan and visit cells updated in place; one whose name is not found gets
   * a new row inserted (no position given) and is searched for again. The
   * row returned is always the one the client now remembers for the
   * patient's name.
   */
  function PlaceRow<S>(c: Client<S>, remote: Remote<S>, p: Patient): (r: Reply<S, Option<int>>)
    ensures Extends(c.findCache, r.client.findCache)
    ensures r.value.Some? ==>
      Search(FullName(p), None) in r.client.findCache
      && r.value.value == r.client.findCache[Search(FullName(p), None)].row
  {
    var located := RowPosition(c, remote, p);
    if located.value.Some? then
      var c1 := UpdateElementAt(located.client, remote, TreatmentPlanColumn, located.value, TreatmentPlanCell(p));
      Reply(UpdateElementAt(c1, remote, VisitsCountColumn, located.value, VisitsCountCell(p)), located.value)
    else
      var c1 := WriteRow(located.client, remote, InsertRowValues(p), None);
      RowPosition(c1, remote, p)
  }

  /**
   * The requests of placing a row: a remembered or found name gets exactly
   * the two cell updates, at its row; a name not found gets one inserted
   * row holding the patient's values, then a second search.
   */
  lemma PlaceRowRequests<S>(c: Client<S>, remote: Remote<S>, p: Patient)
    ensures var r := PlaceRow(c, remote, p);
      Search(FullName(p), None) in c.findCache ==>
        && r.value == Some(c.findCache[Search(FullName(p), None)].row)
        && r.client.calls == c.calls + [UpdateElementCall(TreatmentPlanColumn, r.value, TreatmentPlanCell(p)),
                                        UpdateElementCall(VisitsCountColumn, r.value, VisitsCountCell(p))]
    ensures var r := PlaceRow(c, remote, p);
      Search(FullName(p), None) !in c.findCache && remote.find(c.sheet, FullName(p), None).Some? ==>
        && r.value == Some(remote.find(c.sheet, FullName(p), None).value.row)
        && r.client.calls == c.calls + [FindCall(FullName(p), None),
                                        UpdateElementCall(TreatmentPlanColumn, r.value, TreatmentPlanCell(p)),
                                        UpdateElementCall(VisitsCountColumn, r.value, VisitsCountCell(p))]
    ensures var r := PlaceRow(c, remote, p);
      Search(FullName(p), None) !in c.findCache && remote.find(c.sheet, FullName(p), None).None? ==>
        && r.client.calls == c.calls + [FindCall(FullName(p), None),
                                        InsertRowCall(InsertRowValues(p), None),
                                        FindCall(FullName(p), None)]
        && (r.value.Some? <==>
              remote.find(remote.insertRow(c.sheet, InsertRowValues(p), None), FullName(p), None).Some?)
  {
  }

  /** The day table and client after a series of per-day writes. */
  datatype Written<S> = Written(index: map<Date, Coord>, client: Client<S>)

  /**
   * The loop shared by `update_patient_payments` and
   * `update_patients_payments_count`: for each date in order, find its
   * column and write the date's value into `row` there.
   */
  function WriteByDate<S>(index: map<Date, Coord>, c: Client<S>, remote: Remote<S>,
                          dates: seq<Date>, row: Option<int>, values: map<Date, int>)
    : (r: Result<Written<S>, SyncError>)
    requires forall i | 0 <= i < |dates| :: dates[i] in values
    ensures r.Err? ==> r.error.date in dates
  {
    if dates == [] then Ok(Written(index, c))
    else
      var d := dates[|dates| - 1];
      match WriteByDate(index, c, remote, dates[..|dates| - 1], row, values)
      case Err(e) => Err(e)
      case Ok(w) =>
        var loc := PaymentDatePosition(w.index, w.client, remote, d);
        match loc.result
        case Err(reason) => Err(SyncError(d, reason))
        case Ok(position) =>
          Ok(Written(loc.index, UpdateElementAt(loc.client, remote, position.col, row, Number(values[d]))))
  }

  /** The single-cell writes expected for `dates`: each date's value at its column, in order. */
  function DateWrites(index: map<Date, Coord>, dates: seq<Date>, row: Option<int>, values: map<Date, int>)
    : seq<RemoteCall>
    requires forall i | 0 <= i < |dates| :: dates[i] in index && dates[i] in values
  {
    seq(|dates|, i requires 0 <= i < |dates| && dates[i] in index && dates[i] in values =>
      UpdateElementCall(index[dates[i]].col, row, Number(values[dates[i]])))
  }

  /** The single-cell writes among `calls`, in order. */
  function Writes(calls: seq<RemoteCall>): seq<RemoteCall> {
    if calls == [] then []
    else Writes(calls[..|calls| - 1]) + (if calls[|calls| - 1].UpdateElementCall? then [calls[|calls| - 1]] else [])
  }

  lemma {:induction false} WritesAppend(a: seq<RemoteCall>, b: seq<RemoteCall>)
    ensures Writes(a + b) == Writes(a) + Writes(b)
    decreases |b|
  {
    if b == [] {
      assert a + b == a;
    } else {
      assert (a + b)[..|a + b| - 1] == a + b[..|b| - 1];
      assert (a + b)[|a + b| - 1] == b[|b| - 1];
      WritesAppend(a, b[..|b| - 1]);
    }
  }

  lemma WritesOfWrite(call: RemoteCall)
    requires call.UpdateElementCall?
    ensures Writes([call]) == [call]
  {
    assert [call][..0] == [];
  }

  lemma SnocChain<T>(y: seq<T>, x: seq<T>, base: seq<T>, prefix: seq<T>, whole: seq<T>, e: T)
    requires y == x + [e] && x == base + prefix && whole == prefix + [e]
    ensures y == base + whole
  {
  }

  lemma DateWritesSnoc(index: map<Date, Coord>, dates: seq<Date>, row: Option<int>, values: map<Date, int>)
    requires dates != []
    requires forall i | 0 <= i < |dates| :: dates[i] in index && dates[i] in values
    ensures DateWrites(index, dates, row, values)
      == DateWrites(index, dates[..|dates| - 1], row, values)
         + [UpdateElementCall(index[dates[|dates| - 1]].col, row, Number(values[dates[|dates| - 1]]))]
  {
  }

  /** Growing the table leaves the writes expected for already-listed dates as they were. */
  lemma DateWritesExtend(index: map<Date, Coord>, index': map<Date, Coord>, dates: seq<Date>,
                         row: Option<int>, values: map<Date, int>)
    requires Extends(index, index')
    requires forall i | 0 <= i < |dates| :: dates[i] in index && dates[i] in values
    ensures DateWrites(index', dates, row, values) == DateWrites(index, dates, row, values)
  {
  }

  /**
   * When every date's column is already known, the loop cannot fail, sends
   * no search, and sends exactly the expected writes; no cache changes.
   */
  lemma {:induction false} WriteByDateKnownDates<S>(index: map<Date, Coord>, c: Client<S>, remote: Remote<S>,
                                                     dates: seq<Date>, row: Option<int>, values: map<Date, int>)
    requires forall i | 0 <= i < |dates| :: dates[i] in index && dates[i] in values
    ensures var r := WriteByDate(index, c, remote, dates, row, values);
      && r.Ok?
      && r.value.index == index
      && r.value.client.calls == c.calls + DateWrites(index, dates, row, values)
      && r.value.client.(sheet := c.sheet, calls := c.calls) == c
  {
    if dates != [] {
      var init := dates[..|dates| - 1];
      WriteByDateKnownDates(index, c, remote, init, row, values);
      DateWritesSnoc(index, dates, row, values);
    }
  }

  /** A successful loop over `dates` is a successful loop over all but the last, then one lookup and one write. */
  lemma WriteByDateStep<S>(index: map<Date, Coord>, c: Client<S>, remote: Remote<S>,
                           dates: seq<Date>, row: Option<int>, values: map<Date, int>)
    requires dates != []
    requires forall i | 0 <= i < |dates| :: dates[i] in values
    ensures var r := WriteByDate(index, c, remote, dates, row, values);
      var r0 := WriteByDate(index, c, remote, dates[..|dates| - 1], row, values);
      r.Ok? ==>
        && r0.Ok?
        && var d := dates[|dates| - 1];
           var loc := PaymentDatePosition(r0.value.index, r0.value.client, remote, d);
           && loc.result.Ok?
           && r.value == Written(loc.index, UpdateElementAt(loc.client, remote, loc.result.value.col, row, Number(values[d])))
  {
  }

  /** Whatever the loop succeeds on, every date ends up in the table, which only grows. */
  lemma {:induction false} WriteByDateResolves<S>(index: map<Date, Coord>, c: Client<S>, remote: Remote<S>,
                                                   dates: seq<Date>, row: Option<int>, values: map<Date, int>)
    requires forall i | 0 <= i < |dates| :: dates[i] in values
    ensures var r := WriteByDate(index, c, remote, dates, row, values);
      r.Ok? ==>
        && (forall i | 0 <= i < |dates| :: dates[i] in r.value.index)
        && Extends(index, r.value.index)
  {
    if dates != [] {
      var init := dates[..|dates| - 1];
      var d := dates[|dates| - 1];
      WriteByDateResolves(index, c, remote, init, row, values);
      WriteByDateStep(index, c, remote, dates, row, values);
      var r := WriteByDate(index, c, remote, dates, row, values);
      var r0 := WriteByDate(index, c, remote, init, row, values);
      if r.Ok? {
        var w := r0.value;
        var loc := PaymentDatePosition(w.index, w.client, remote, d);
        PaymentDatePositionRecords(w.index, w.client, remote, d);
        TableCoversDates(w.index, loc.index, dates, init);
        ExtendsTransitive(index, w.index, loc.index);
      }
    }
  }

  /** The loop only adds to the find cache and keeps the table consistent with it. */
  lemma {:induction false} WriteByDateKeepsConsistent<S>(index: map<Date, Coord>, c: Client<S>, remote: Remote<S>,
                                                          dates: seq<Date>, row: Option<int>, values: map<Date, int>)
    requires forall i | 0 <= i < |dates| :: dates[i] in values
    requires IndexConsistent(index, c.findCache)
    ensures var r := WriteByDate(index, c, remote, dates, row, values);
      r.Ok? ==>
        && Extends(c.findCache, r.value.client.findCache)
        && IndexConsistent(r.value.index, r.value.client.findCache)
  {
    if dates != [] {
      var init := dates[..|dates| - 1];
      var d := dates[|dates| - 1];
      WriteByDateKeepsConsistent(index, c, remote, init, row, values);
      WriteByDateStep(index, c, remote, dates, row, values);
      var r := WriteByDate(index, c, remote, dates, row, values);
      var r0 := WriteByDate(index, c, remote, init, row, values);
      if r.Ok? {
        var w := r0.value;
        PaymentDatePositionKeepsConsistent(w.index, w.client, remote, d);
        PaymentDatePositionGrowsCache(w.index, w.client, remote, d);
        var loc := PaymentDatePosition(w.index, w.client, remote, d);
        ExtendsTransitive(c.findCache, w.client.findCache, loc.client.findCache);
      }
    }
  }

  /** A column lookup sends no write. */
  lemma PaymentDatePositionSendsNoWrite<S>(index: map<Date, Coord>, c: Client<S>, remote: Remote<S>, d: Date)
    ensures Writes(PaymentDatePosition(index, c, remote, d).client.calls) == Writes(c.calls)
  {
    var loc := PaymentDatePosition(index, c, remote, d);
    PaymentDatePositionRequests(index, c, remote, d);
    if loc.client.calls != c.calls {
      var search := FindCall(HalfYearLabel(d), None);
      WritesAppend(c.calls, [search]);
      assert Writes([search]) == [];
    }
  }

  /**
   * The writes a successful loop sends are exactly the expected ones, in
   * date order; everything else it sends is a block search.
   */
  lemma {:induction false} WriteByDateWrites<S>(index: map<Date, Coord>, c: Client<S>, remote: Remote<S>,
                                                 dates: seq<Date>, row: Option<int>, values: map<Date, int>)
    requires forall i | 0 <= i < |dates| :: dates[i] in values
    ensures var r := WriteByDate(index, c, remote, dates, row, values);
      r.Ok? ==>
        && (forall i | 0 <= i < |dates| :: dates[i] in r.value.index)
        && Writes(r.value.client.calls) == Writes(c.calls) + DateWrites(r.value.index, dates, row, values)
  {
    WriteByDateResolves(index, c, remote, dates, row, values);
    if dates != [] {
      var init := dates[..|dates| - 1];
      var d := dates[|dates| - 1];
      WriteByDateWrites(index, c, remote, init, row, values);
      WriteByDateStep(index, c, remote, dates, row, values);
      var r := WriteByDate(index, c, remote, dates, row, values);
      var r0 := WriteByDate(index, c, remote, init, row, values);
      if r.Ok? {
        var w := r0.value;
        var loc := PaymentDatePosition(w.index, w.client, remote, d);
        PaymentDatePositionSendsNoWrite(w.index, w.client, remote, d);
        PaymentDatePositionRecords(w.index, w.client, remote, d);
        var call := UpdateElementCall(loc.result.value.col, row, Number(values[d]));
        DateWritesGrow(w.index, loc.index, dates, init, row, values, loc.result.value);
        WritesAfterDate(c.calls, w.client.calls, loc.client.calls, DateWrites(w.index, init, row, values),
                        DateWrites(loc.index, dates, row, values), call);
      }
    }
  }

  /** A grown table that has the last date covers every date once it covered the earlier ones. */
  lemma TableCoversDates(index: map<Date, Coord>, index': map<Date, Coord>, dates: seq<Date>, init: seq<Date>)
    requires dates != [] && init == dates[..|dates| - 1]
    requires forall i | 0 <= i < |init| :: init[i] in index
    requires Extends(index, index') && dates[|dates| - 1] in index'
    ensures forall i | 0 <= i < |dates| :: dates[i] in index'
  {
    forall i | 0 <= i < |dates| ensures dates[i] in index' {
      if i < |init| {
        assert dates[i] == init[i] && init[i] in index;
      }
    }
  }

  /** One more write after a lookup that sent none: the writes so far gain exactly that one. */
  lemma WritesAfterDate(start: seq<RemoteCall>, mid: seq<RemoteCall>, located: seq<RemoteCall>,
                        prefix: seq<RemoteCall>, whole: seq<RemoteCall>, call: RemoteCall)
    requires call.UpdateElementCall?
    requires Writes(mid) == Writes(start) + prefix && Writes(located) == Writes(mid)
    requires whole == prefix + [call]
    ensures Writes(located + [call]) == Writes(start) + whole
  {
    WritesAppend(located, [call]);
    WritesOfWrite(call);
    SnocChain(Writes(located + [call]), Writes(located), Writes(start), prefix, whole, call);
  }

  /** The expected writes for one more date, under a grown table, gain that date's write. */
  lemma DateWritesGrow(index: map<Date, Coord>, index': map<Date, Coord>, dates: seq<Date>, init: seq<Date>,
                       row: Option<int>, values: map<Date, int>, position: Coord)
    requires dates != [] && init == dates[..|dates| - 1]
    requires forall i | 0 <= i < |dates| :: dates[i] in values
    requires forall i | 0 <= i < |init| :: init[i] in index
    requires Extends(index, index') && dates[|dates| - 1] in index' && index'[dates[|dates| - 1]] == position
    ensures forall i | 0 <= i < |dates| :: dates[i] in index'
    ensures DateWrites(index', dates, row, values)
      == DateWrites(index, init, row, values) + [UpdateElementCall(position.col, row, Number(values[dates[|dates| - 1]]))]
  {
    TableCoversDates(index, index', dates, init);
    DateWritesExtend(index, index', init, row, values);
    DateWritesSnoc(index', dates, row, values);
  }

  /**
   * One iteration of the patient loop: place the row, write the payment
   * sums into it, then record the patient (with its row) as a payer.
   */
  function SyncPatient<S>(st: SyncState<S>, remote: Remote<S>, p: Patient): (r: Result<SyncState<S>, SyncError>)
    requires st.counts.Valid()
    ensures r.Ok? ==> r.value.counts.Valid()
  {
    var placed := PlaceRow(st.client, remote, p);
    var stamped := p.(rowPosition := placed.value);
    var sums := PaymentSums(p.payments, CurrentDate);
    match WriteByDate(st.index, placed.client, remote, sums.keys, placed.value, sums.vals)
    case Err(e) => Err(e)
    case Ok(w) => Ok(SyncState(w.client, w.index, InsertPaymentCount(stamped, st.counts, CurrentDate), st.done + [stamped]))
  }

  /**
   * The patient loop over `patients`, in order; the first failure ends it.
   * Every patient is handled, whether or not it has visits, and keeps all
   * its data but the row.
   */
  function Run<S>(patients: seq<Patient>, st: SyncState<S>, remote: Remote<S>): (r: Result<SyncState<S>, SyncError>)
    requires st.counts.Valid()
    ensures r.Ok? ==> r.value.counts.Valid()
  {
    if patients == [] then Ok(st)
    else
      match Run(patients[..|patients| - 1], st, remote)
      case Err(e) => Err(e)
      case Ok(s) => SyncPatient(s, remote, patients[|patients| - 1])
  }

  /** Each date's number of payers. */
  function PayerCounts(counts: OMap<Date, seq<Patient>>): (r: map<Date, int>)
    ensures r.Keys == counts.vals.Keys
    ensures forall d | d in r :: r[d] == |counts.vals[d]|
  {
    map d | d in counts.vals :: |counts.vals[d]|
  }

  /** `update_patients_payments_count`: each day's number of payers into the count row. */
  function WriteCounts<S>(st: SyncState<S>, remote: Remote<S>): (r: Result<Written<S>, SyncError>)
    requires st.counts.Valid()
    ensures r.Err? ==> r.error.date in st.counts.vals
    ensures (forall d | d in st.counts.vals :: d in st.index) ==>
      r.Ok? && r.value.index == st.index
      && r.value.client.calls == st.client.calls
                                 + DateWrites(st.index, st.counts.keys, Some(MonthCountRow), PayerCounts(st.counts))
  {
    var r := WriteByDate(st.index, st.client, remote, st.counts.keys, Some(MonthCountRow), PayerCounts(st.counts));
    if forall d | d in st.counts.vals :: d in st.index then
      WriteByDateKnownDates(st.index, st.client, remote, st.counts.keys, Some(MonthCountRow), PayerCounts(st.counts));
      r
    else r
  }

  /** `inser_not_exist_patients_excel` on a fresh client: the patient loop, then the counts. */
  function Synchronise<S>(patients: seq<Patient>, sheet: S, remote: Remote<S>): (r: Result<Client<S>, SyncError>)
    ensures r.Ok? <==> Run(patients, Initial(sheet), remote).Ok?
    ensures r.Err? ==> r.error == Run(patients, Initial(sheet), remote).error
  {
    InitialInvariant(sheet);
    RunInvariant(patients, Initial(sheet), remote);
    match Run(patients, Initial(sheet), remote)
    case Err(e) => Err(e)
    case Ok(st) =>
      match WriteCounts(st, remote)
      case Err(e) => Err(e)
      case Ok(w) => Ok(w.client)
  }

  /**
   * What holds between patients: the payers table is the one built from the
   * patients handled so far, every date in it has a known column, and the
   * column table agrees with the client's find cache.
   */
  ghost predicate Invariant<S>(st: SyncState<S>) {
    && st.counts == PaymentCounts(st.done, CurrentDate)
    && IndexConsistent(st.index, st.client.findCache)
    && forall d | d in st.counts.vals :: d in st.index
  }

  lemma InitialInvariant<S>(sheet: S)
    ensures Invariant(Initial(sheet))
  {
  }

  /** A successful iteration is a successful write loop over the patient's paid days. */
  lemma SyncPatientStep<S>(st: SyncState<S>, remote: Remote<S>, p: Patient)
    requires st.counts.Valid()
    ensures var r := SyncPatient(st, remote, p);
      var placed := PlaceRow(st.client, remote, p);
      var sums := PaymentSums(p.payments, CurrentDate);
      var w := WriteByDate(st.index, placed.client, remote, sums.keys, placed.value, sums.vals);
      r.Ok? ==>
        && w.Ok?
        && r.value == SyncState(w.value.client, w.value.index,
                                InsertPaymentCount(p.(rowPosition := placed.value), st.counts, CurrentDate),
                                st.done + [p.(rowPosition := placed.value)])
  {
  }

  lemma SyncPatientInvariant<S>(st: SyncState<S>, remote: Remote<S>, p: Patient)
    requires st.counts.Valid() && Invariant(st)
    ensures SyncPatient(st, remote, p).Ok? ==> Invariant(SyncPatient(st, remote, p).value)
  {
    var placed := PlaceRow(st.client, remote, p);
    var sums := PaymentSums(p.payments, CurrentDate);
    var r := SyncPatient(st, remote, p);
    SyncPatientStep(st, remote, p);
    if r.Ok? {
      ConsistentUnderExtension(st.index, st.client.findCache, placed.client.findCache);
      WriteByDateResolves(st.index, placed.client, remote, sums.keys, placed.value, sums.vals);
      WriteByDateKeepsConsistent(st.index, placed.client, remote, sums.keys, placed.value, sums.vals);
      InvariantAfterPatient(st, r.value, p.(rowPosition := placed.value), sums);
    }
  }

  /**
   * The invariant survives a patient once its row is stamped, its payers
   * recorded, and the columns of its paid days known and consistent.
   */
  lemma InvariantAfterPatient<S>(st: SyncState<S>, s: SyncState<S>, stamped: Patient, sums: OMap<Date, int>)
    requires st.counts.Valid() && Invariant(st)
    requires s.counts == InsertPaymentCount(stamped, st.counts, CurrentDate)
    requires s.done == st.done + [stamped]
    requires IndexConsistent(s.index, s.client.findCache) && Extends(st.index, s.index)
    requires sums == PaymentSums(stamped.payments, CurrentDate)
    requires forall i | 0 <= i < |sums.keys| :: sums.keys[i] in s.index
    ensures Invariant(s)
  {
    assert s.done[..|s.done| - 1] == st.done;
    CountPaymentsEffect(stamped, stamped.payments, st.counts, CurrentDate);
    PaymentSumsByDay(stamped.payments, CurrentDate);
    forall d | d in s.counts.vals ensures d in s.index {
      if d !in st.counts.vals {
        assert d in QualifyingDates(stamped.payments, CurrentDate);
        assert d in sums.vals;
        var k :| 0 <= k < |sums.keys| && sums.keys[k] == d;
      }
    }
  }

  lemma {:induction false} RunInvariant<S>(patients: seq<Patient>, st: SyncState<S>, remote: Remote<S>)
    requires st.counts.Valid() && Invariant(st)
    ensures Run(patients, st, remote).Ok? ==> Invariant(Run(patients, st, remote).value)
  {
    if patients != [] {
      RunInvariant(patients[..|patients| - 1], st, remote);
      if Run(patients, st, remote).Ok? {
        var s := RunStep(patients, st, remote);
        SyncPatientInvariant(s, remote, patients[|patients| - 1]);
      }
    }
  }

  /** `done` is `patients`, in order, each with only its row changed. */
  predicate Stamped(done: seq<Patient>, patients: seq<Patient>) {
    && |done| == |patients|
    && forall i | 0 <= i < |patients| :: done[i] == patients[i].(rowPosition := done[i].rowPosition)
  }

  /** `fin` is `prior` followed by `patients`, each stamped with its row. */
  predicate Handled(prior: seq<Patient>, fin: seq<Patient>, patients: seq<Patient>) {
    |prior| <= |fin| && fin[..|prior|] == prior && Stamped(fin[|prior|..], patients)
  }

  /**
   * A run that gets through the loop has handled every patient, in order,
   * whether or not it has visits, changing nothing of it but its row.
   */
  lemma {:induction false} RunHandlesEveryPatient<S>(patients: seq<Patient>, st: SyncState<S>, remote: Remote<S>)
    requires st.counts.Valid()
    ensures var r := Run(patients, st, remote);
      r.Ok? ==> Handled(st.done, r.value.done, patients)
  {
    if patients != [] {
      var init := patients[..|patients| - 1];
      var p := patients[|patients| - 1];
      RunHandlesEveryPatient(init, st, remote);
      if Run(patients, st, remote).Ok? {
        var s := RunStep(patients, st, remote);
        var x := SyncPatientAppendsDone(s, remote, p);
        StampedExtend(st.done, s.done, x, patients);
      }
    }
  }

  /** An iteration that succeeds records its patient, with only the row changed, after the ones before. */
  lemma SyncPatientAppendsDone<S>(st: SyncState<S>, remote: Remote<S>, p: Patient) returns (x: Patient)
    requires st.counts.Valid() && SyncPatient(st, remote, p).Ok?
    ensures SyncPatient(st, remote, p).value.done == st.done + [x]
    ensures x == p.(rowPosition := x.rowPosition)
  {
    SyncPatientStep(st, remote, p);
    x := p.(rowPosition := PlaceRow(st.client, remote, p).value);
  }

  /** A history that extends `prior` with all patients but the last, stamped, extended by the last one stamped. */
  lemma StampedExtend(prior: seq<Patient>, mid: seq<Patient>, x: Patient, patients: seq<Patient>)
    requires patients != [] && Handled(prior, mid, patients[..|patients| - 1])
    requires x == patients[|patients| - 1].(rowPosition := x.rowPosition)
    ensures Handled(prior, mid + [x], patients)
  {
    var init := patients[..|patients| - 1];
    var p := patients[|patients| - 1];
    assert init + [p] == patients;
    var n := |prior|;
    assert (mid + [x])[..n] == mid[..n];
    assert (mid + [x])[n..] == mid[n..] + [x];
    StampedSnoc(mid[n..], init, x, p);
  }

  /** A successful run is a successful run over all but the last patient, then one iteration. */
  lemma RunStep<S>(patients: seq<Patient>, st: SyncState<S>, remote: Remote<S>) returns (s: SyncState<S>)
    requires st.counts.Valid() && patients != [] && Run(patients, st, remote).Ok?
    ensures s.counts.Valid()
    ensures Run(patients[..|patients| - 1], st, remote) == Ok(s)
    ensures Run(patients, st, remote) == SyncPatient(s, remote, patients[|patients| - 1])
  {
    s := Run(patients[..|patients| - 1], st, remote).value;
  }

  lemma StampedSnoc(done: seq<Patient>, patients: seq<Patient>, x: Patient, p: Patient)
    requires Stamped(done, patients) && x == p.(rowPosition := x.rowPosition)
    ensures Stamped(done + [x], patients + [p])
  {
  }

  /** Changing only the rows keeps the payments and keeps distinct ids distinct. */
  lemma StampedKeepsDistinct(done: seq<Patient>, patients: seq<Patient>)
    requires Stamped(done, patients) && Joiner.DistinctIds(patients)
    ensures NoDuplicates(done)
    ensures forall i | 0 <= i < |done| :: done[i].payments == patients[i].payments
  {
    forall a, b | 0 <= a < b < |done| ensures done[a] != done[b] {
      assert done[a].id == patients[a].id && done[b].id == patients[b].id;
    }
  }

  /** Patients with the same payments, position by position, have the same number of payers per day. */
  lemma {:induction false} PayersDependOnPaymentsOnly(a: seq<Patient>, b: seq<Patient>, d: Date)
    requires |a| == |b| && forall i | 0 <= i < |a| :: a[i].payments == b[i].payments
    ensures |Payers(a, d, CurrentDate)| == |Payers(b, d, CurrentDate)|
  {
    if a != [] {
      PayersDependOnPaymentsOnly(a[..|a| - 1], b[..|b| - 1], d);
    }
  }

  /**
   * For patients with distinct ids, a run that gets through the patient
   * loop lists under each day exactly as many patients as paid that day,
   * at least one, and lists every paid day of every patient.
   */
  lemma RunCountsPayers<S>(patients: seq<Patient>, sheet: S, remote: Remote<S>)
    requires Joiner.DistinctIds(patients)
    ensures var run := Run(patients, Initial(sheet), remote);
      run.Ok? ==>
        && (forall d | d in run.value.counts.vals ::
              PayerCounts(run.value.counts)[d] == |Payers(patients, d, CurrentDate)| >= 1)
        && (forall i | 0 <= i < |patients| ::
              QualifyingDates(patients[i].payments, CurrentDate) <= run.value.counts.vals.Keys)
  {
    var st0 := Initial(sheet);
    var run := Run(patients, st0, remote);
    InitialInvariant(sheet);
    RunInvariant(patients, st0, remote);
    RunHandlesEveryPatient(patients, st0, remote);
    if run.Ok? {
      var st := run.value;
      assert st.done[0..] == st.done;
      StampedKeepsDistinct(st.done, patients);
      PaymentCountsArePayers(st.done, CurrentDate);
      forall d | d in st.counts.vals
        ensures PayerCounts(st.counts)[d] == |Payers(patients, d, CurrentDate)| >= 1
      {
        PayersDependOnPaymentsOnly(st.done, patients, d);
      }
      forall i | 0 <= i < |patients|
        ensures QualifyingDates(patients[i].payments, CurrentDate) <= st.counts.vals.Keys
      {
        assert patients[i].payments == st.done[i].payments;
      }
    }
  }

  /**
   * A run that gets through the patient loop always finishes: the count
   * phase sends no search and exactly one write per paid day, into the count
   * row at that day's column, of that day's number of payers.
   */
  lemma SynchroniseWritesPayerCounts<S>(patients: seq<Patient>, sheet: S, remote: Remote<S>)
    ensures var run := Run(patients, Initial(sheet), remote);
      run.Ok? ==>
        && Synchronise(patients, sheet, remote).Ok?
        && (forall d | d in run.value.counts.vals :: d in run.value.index)
        && Synchronise(patients, sheet, remote).value.calls
             == run.value.client.calls
                + DateWrites(run.value.index, run.value.counts.keys, Some(MonthCountRow), PayerCounts(run.value.counts))
  {
    var st0 := Initial(sheet);
    var run := Run(patients, st0, remote);
    InitialInvariant(sheet);
    RunInvariant(patients, st0, remote);
    if run.Ok? {
      var st := run.value;
      WriteByDateKnownDates(st.index, st.client, remote, st.counts.keys, Some(MonthCountRow), PayerCounts(st.counts));
    }
  }
  /** Patients with the same payments, position by position, have the same paid days. */
  lemma {:induction false} PaidDaysDependOnPaymentsOnly(a: seq<Patient>, b: seq<Patient>)
    requires |a| == |b| && forall i | 0 <= i < |a| :: a[i].payments == b[i].payments
    ensures PaidDays(a, CurrentDate) == PaidDays(b, CurrentDate)
  {
    if a != [] {
      PaidDaysDependOnPaymentsOnly(a[..|a| - 1], b[..|b| - 1]);
    }
  }

  /**
   * A run that gets through the patient loop has its paid days in the
   * order the count phase writes them: each day where the first qualifying
   * payment of it, over the patients and their payments in turn, put it.
   */
  lemma RunCountOrder<S>(patients: seq<Patient>, sheet: S, remote: Remote<S>)
    ensures var run := Run(patients, Initial(sheet), remote);
      run.Ok? ==> run.value.counts.keys == KeyOrder([], PaidDays(patients, CurrentDate))
  {
    var st0 := Initial(sheet);
    var run := Run(patients, st0, remote);
    InitialInvariant(sheet);
    RunInvariant(patients, st0, remote);
    RunHandlesEveryPatient(patients, st0, remote);
    if run.Ok? {
      var st := run.value;
      assert st.done[0..] == st.done;
      PaymentCountsKeyOrder(st.done, CurrentDate);
      forall i | 0 <= i < |st.done| ensures st.done[i].payments == patients[i].payments {
        assert st.done[i] == patients[i].(rowPosition := st.done[i].rowPosition);
      }
      PaidDaysDependOnPaymentsOnly(st.done, patients);
    }
  }
}
