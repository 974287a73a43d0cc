/**
 * The values the synchronisation computes from one aggregated patient:
 * the row for a new patient, the visit and plan cells, the per-day payment
 * sums, and the per-day lists of distinct payers.
 */
module Report {
  import opened Common
  import opened Calendar
  import opened Entities
  import opened OrderedMaps
  import opened SheetClient

  /** The visit status that counts as attended. */
  const Visited: string := "VISITED"

  /** `ColumnElementId.TREATMENT_PLAN`. */
  const TreatmentPlanColumn: int := 10

  /** `ColumnElementId.VISITS_COUNT`. */
  const VisitsCountColumn: int := 7

  /** `CURRENT_DATE`: payments dated before it are ignored. */
  const CurrentDate: Date := Date(2023, 1, 1)

  /** `len([visit for visit in visits if visit.status == "VISITED"])`. */
  function VisitedCount(visits: seq<Visit>): (n: nat)
    ensures n <= |visits|
  {
    if visits == [] then 0
    else VisitedCount(visits[..|visits| - 1]) + (if visits[|visits| - 1].status == Visited then 1 else 0)
  }

  /** Counting attended visits distributes over concatenation. */
  lemma {:induction false} VisitedCountAppend(a: seq<Visit>, b: seq<Visit>)
    ensures VisitedCount(a + b) == VisitedCount(a) + VisitedCount(b)
    decreases |b|
  {
    if b == [] {
      assert a + b == a;
    } else {
      assert (a + b)[..|a + b| - 1] == a + b[..|b| - 1];
      assert (a + b)[|a + b| - 1] == b[|b| - 1];
      VisitedCountAppend(a, b[..|b| - 1]);
    }
  }

  /** The count is zero exactly when no visit is attended, and all of them exactly when every one is. */
  lemma {:induction false} VisitedCountBounds(visits: seq<Visit>)
    ensures VisitedCount(visits) <= |visits|
    ensures VisitedCount(visits) == 0 <==> forall i | 0 <= i < |visits| :: visits[i].status != Visited
    ensures VisitedCount(visits) == |visits| <==> forall i | 0 <= i < |visits| :: visits[i].status == Visited
  {
    if visits != [] {
      var init := visits[..|visits| - 1];
      VisitedCountBounds(init);
      assert forall i | 0 <= i < |init| :: init[i] == visits[i];
    }
  }

  /** The visit-count cell: the count, or blank when it is zero. */
  function VisitsCountCell(p: Patient): (cell: CellValue)
    ensures VisitedCount(p.visits) == 0 ==> cell == Text("")
    ensures VisitedCount(p.visits) != 0 ==> cell == Number(VisitedCount(p.visits))
  {
    var n := VisitedCount(p.visits);
    if n != 0 then Number(n) else Text("")
  }

  /**
   * The treatment-plan cell: the discounted total, or blank when there is no
   * plan or its total is the empty string.
   */
  function TreatmentPlanCell(p: Patient): (cell: CellValue)
    ensures p.mainPlans.None? || p.mainPlans.value.planTotalWithDiscount.None? ==> cell == Text("")
    ensures p.mainPlans.Some? && p.mainPlans.value.planTotalWithDiscount.Some? ==>
      cell == Number(p.mainPlans.value.planTotalWithDiscount.value)
  {
    match p.mainPlans
    case None => Text("")
    case Some(plan) =>
      match plan.planTotalWithDiscount
      case None => Text("")
      case Some(total) => Number(total)
  }

  /** `get_inisert_patient_values`: the ten cells of a new patient's row. */
  function InsertRowValues(p: Patient): (row: seq<CellValue>)
    ensures |row| == 10
    ensures row[0] == row[1] == row[7] == row[8] == Text("")
    ensures row[2] == Text(FullName(p)) && row[3] == Text(p.code) && row[4] == Text(p.curator)
    ensures row[5] == Text(if |p.visits| > 0 then p.visits[0].doctor else "")
    ensures row[6] == Text("") <==> forall i | 0 <= i < |p.visits| :: p.visits[i].status != Visited
    ensures row[6].Number? ==> 1 <= row[6].n <= |p.visits| && row[6].n == VisitedCount(p.visits)
    ensures VisitedCount(p.visits) != 0 ==> row[6] == Number(VisitedCount(p.visits))
    ensures row[9] == Text("") <==> p.mainPlans.None? || p.mainPlans.value.planTotalWithDiscount.None?
    ensures row[9].Number? ==> p.mainPlans.Some? && p.mainPlans.value.planTotalWithDiscount == Some(row[9].n)
    ensures p.mainPlans.Some? && p.mainPlans.value.planTotalWithDiscount.Some? ==>
      row[9] == Number(p.mainPlans.value.planTotalWithDiscount.value)
  {
    VisitedCountBounds(p.visits);
    var firstDoctor := if |p.visits| > 0 then p.visits[0].doctor else "";
    [Text(""), Text(""), Text(FullName(p)), Text(p.code), Text(p.curator), Text(firstDoctor),
     VisitsCountCell(p), Text(""), Text(""), TreatmentPlanCell(p)]
  }

  /**
   * A new patient's row carries in the visit-count and treatment-plan
   * columns exactly what an existing patient's update writes there.
   */
  lemma InsertedRowMatchesUpdates(p: Patient)
    ensures InsertRowValues(p)[VisitsCountColumn - 1] == VisitsCountCell(p)
    ensures InsertRowValues(p)[TreatmentPlanColumn - 1] == TreatmentPlanCell(p)
  {
  }

  /** A payment counts toward the report: it is dated on or after the cutoff. */
  predicate Qualifies(p: Payment, cutoff: Date) {
    !Before(p.dateCreated, cutoff)
  }

  /** The sum of the amounts of the payments dated exactly `d`. */
  function DaySum(payments: seq<Payment>, d: Date): int {
    if payments == [] then 0
    else
      var p := payments[|payments| - 1];
      DaySum(payments[..|payments| - 1], d) + (if p.dateCreated == d then p.amount else 0)
  }

  /**
   * `get_patient_payment_sums_grouped_by_datetime`; its keys are in the
   * order of each day's first qualifying payment (`PaymentSumsKeyOrder`).
   */
  function PaymentSums(payments: seq<Payment>, cutoff: Date): (r: OMap<Date, int>)
    ensures r.Valid()
    ensures forall d | d in r.vals :: !Before(d, cutoff)
  {
    if payments == [] then Empty()
    else
      var r0 := PaymentSums(payments[..|payments| - 1], cutoff);
      var p := payments[|payments| - 1];
      if !Qualifies(p, cutoff) then r0
      else r0.Put(p.dateCreated, (if p.dateCreated in r0.vals then r0.vals[p.dateCreated] else 0) + p.amount)
  }

  /**
   * The keys are exactly the dates of qualifying payments, so none is
   * before the cutoff, and each holds the sum of every payment of that day.
   */
  lemma {:induction false} PaymentSumsByDay(payments: seq<Payment>, cutoff: Date)
    ensures forall d | d in PaymentSums(payments, cutoff).vals ::
      !Before(d, cutoff) && exists i | 0 <= i < |payments| :: payments[i].dateCreated == d
    ensures forall i | 0 <= i < |payments| && Qualifies(payments[i], cutoff) ::
      payments[i].dateCreated in PaymentSums(payments, cutoff).vals
    ensures forall d | d in PaymentSums(payments, cutoff).vals :: PaymentSums(payments, cutoff).vals[d] == DaySum(payments, d)
  {
    if payments != [] {
      var init := payments[..|payments| - 1];
      var p := payments[|payments| - 1];
      PaymentSumsByDay(init, cutoff);
      assert forall i | 0 <= i < |init| :: init[i] == payments[i];
      var r := PaymentSums(payments, cutoff);
      forall d | d in r.vals ensures exists i | 0 <= i < |payments| :: payments[i].dateCreated == d {
        if d != p.dateCreated {
          var i :| 0 <= i < |init| && init[i].dateCreated == d;
        }
      }
      forall d | d in r.vals ensures r.vals[d] == DaySum(payments, d) {
        if d !in PaymentSums(init, cutoff).vals {
          DaySumAbsent(init, d, cutoff);
        }
      }
    }
  }

  /** A day with no qualifying payment, on or after the cutoff, sums to zero. */
  lemma {:induction false} DaySumAbsent(payments: seq<Payment>, d: Date, cutoff: Date)
    requires !Before(d, cutoff)
    requires forall i | 0 <= i < |payments| && Qualifies(payments[i], cutoff) :: payments[i].dateCreated != d
    ensures DaySum(payments, d) == 0
  {
    if payments != [] {
      var init := payments[..|payments| - 1];
      assert forall i | 0 <= i < |init| :: init[i] == payments[i];
      DaySumAbsent(init, d, cutoff);
    }
  }

  /** The dates of `payments` on or after the cutoff. */
  function QualifyingDates(payments: seq<Payment>, cutoff: Date): set<Date> {
    set i | 0 <= i < |payments| && Qualifies(payments[i], cutoff) :: payments[i].dateCreated
  }

  /** The list of payers a date had before; an absent date has none. */
  function PayersBefore(counts: OMap<Date, seq<Patient>>, d: Date): seq<Patient> {
    if d in counts.vals then counts.vals[d] else []
  }

  /** Record `p` as a payer on `d`: create the date's list if needed, add `p` unless it is there. */
  function AddPayer(counts: OMap<Date, seq<Patient>>, p: Patient, d: Date): (r: OMap<Date, seq<Patient>>)
    requires counts.Valid()
    ensures r.Valid()
    ensures r.keys == KeyOrder(counts.keys, [d])
    ensures r.vals.Keys == counts.vals.Keys + {d}
    ensures p in r.vals[d]
  {
    var payers := PayersBefore(counts, d);
    assert [d][..0] == [];
    if d in counts.vals && p in payers then counts
    else counts.Put(d, payers + (if p in payers then [] else [p]))
  }

  /** The loop of `insert_patient_payment_count` over `payments`. */
  function CountPayments(p: Patient, payments: seq<Payment>, counts: OMap<Date, seq<Patient>>, cutoff: Date)
    : (r: OMap<Date, seq<Patient>>)
    requires counts.Valid()
    ensures r.Valid()
    ensures counts.vals.Keys <= r.vals.Keys
    ensures forall d | d in r.vals && d !in counts.vals :: !Before(d, cutoff)
  {
    if payments == [] then counts
    else
      var r0 := CountPayments(p, payments[..|payments| - 1], counts, cutoff);
      var q := payments[|payments| - 1];
      if Qualifies(q, cutoff) then AddPayer(r0, p, q.dateCreated) else r0
  }

  /** `insert_patient_payment_count(patient, counts)`. */
  function InsertPaymentCount(p: Patient, counts: OMap<Date, seq<Patient>>, cutoff: Date)
    : (r: OMap<Date, seq<Patient>>)
    requires counts.Valid()
    ensures r.Valid()
    ensures counts.vals.Keys <= r.vals.Keys
    ensures forall d | d in r.vals && d !in counts.vals :: !Before(d, cutoff)
  {
    CountPayments(p, p.payments, counts, cutoff)
  }

  /**
   * After the loop the dates are the old ones plus the qualifying ones; a
   * qualifying date's list gains `p` at its end unless it was already there;
   * every other list is unchanged.
   */
  lemma {:induction false} CountPaymentsEffect(p: Patient, payments: seq<Payment>,
                                               counts: OMap<Date, seq<Patient>>, cutoff: Date)
    requires counts.Valid()
    ensures RecordedOnce(counts, CountPayments(p, payments, counts, cutoff), QualifyingDates(payments, cutoff), p)
  {
    if payments != [] {
      var init := payments[..|payments| - 1];
      var q := payments[|payments| - 1];
      CountPaymentsEffect(p, init, counts, cutoff);
      QualifyingDatesStep(payments, cutoff);
      CountStep(p, counts, CountPayments(p, init, counts, cutoff), CountPayments(p, payments, counts, cutoff),
                QualifyingDates(init, cutoff), QualifyingDates(payments, cutoff), q, cutoff);
    }
  }

  /**
   * `r` is `counts` with `p` recorded once on each of `dates`: the dates are
   * added, a listed date's list gains `p` at its end unless already there,
   * and every other list is unchanged.
   */
  ghost predicate RecordedOnce(counts: OMap<Date, seq<Patient>>, r: OMap<Date, seq<Patient>>, dates: set<Date>, p: Patient) {
    && r.vals.Keys == counts.vals.Keys + dates
    && (forall d | d in counts.vals && d !in dates :: r.vals[d] == counts.vals[d])
    && (forall d | d in dates :: r.vals[d] == PayersBefore(counts, d) + (if p in PayersBefore(counts, d) then [] else [p]))
  }

  /** One more payment keeps `p` recorded once on every qualifying date. */
  lemma CountStep(p: Patient, counts: OMap<Date, seq<Patient>>, r0: OMap<Date, seq<Patient>>, r: OMap<Date, seq<Patient>>,
                  dates0: set<Date>, dates: set<Date>, q: Payment, cutoff: Date)
    requires r0.Valid() && RecordedOnce(counts, r0, dates0, p)
    requires r == if Qualifies(q, cutoff) then AddPayer(r0, p, q.dateCreated) else r0
    requires dates == dates0 + (if Qualifies(q, cutoff) then {q.dateCreated} else {})
    ensures RecordedOnce(counts, r, dates, p)
  {
    if Qualifies(q, cutoff) {
      var day := q.dateCreated;
      AddPayerEffect(r0, p, day);
      UnionStep(r.vals.Keys, r0.vals.Keys, counts.vals.Keys, dates0, dates, {day});
      forall d | d in dates
        ensures r.vals[d] == PayersBefore(counts, d) + (if p in PayersBefore(counts, d) then [] else [p])
      {
        if d == day {
          var before := PayersBefore(counts, d);
          if d in dates0 {
            assert r0.vals[d] == before + (if p in before then [] else [p]);
            assert p in r0.vals[d];
            assert r.vals[d] == r0.vals[d] + [];
          } else {
            assert PayersBefore(r0, d) == before;
          }
        }
      }
    } else {
      assert dates == dates0;
    }
  }

  lemma UnionStep<T>(r: set<T>, r0: set<T>, base: set<T>, q0: set<T>, q: set<T>, extra: set<T>)
    requires r == r0 + extra && r0 == base + q0 && q == q0 + extra
    ensures r == base + q
  {
  }

  /** Recording one payer on `d` touches only `d`'s list, appending `p` unless already present. */
  lemma AddPayerEffect(counts: OMap<Date, seq<Patient>>, p: Patient, d: Date)
    requires counts.Valid()
    ensures var r := AddPayer(counts, p, d);
      && r.vals.Keys == counts.vals.Keys + {d}
      && (forall e | e in counts.vals && e != d :: r.vals[e] == counts.vals[e])
      && r.vals[d] == PayersBefore(counts, d) + (if p in PayersBefore(counts, d) then [] else [p])
  {
    var payers := PayersBefore(counts, d);
    if d in counts.vals && p in payers {
      assert payers + [] == payers;
    }
  }

  /** The qualifying dates of a non-empty list: those of all but the last payment, plus the last one's if it qualifies. */
  lemma QualifyingDatesStep(payments: seq<Payment>, cutoff: Date)
    requires payments != []
    ensures var q := payments[|payments| - 1];
      QualifyingDates(payments, cutoff)
        == QualifyingDates(payments[..|payments| - 1], cutoff) + (if Qualifies(q, cutoff) then {q.dateCreated} else {})
  {
    var init := payments[..|payments| - 1];
    var q := payments[|payments| - 1];
    forall d | d in QualifyingDates(payments, cutoff)
      ensures d in QualifyingDates(init, cutoff) + (if Qualifies(q, cutoff) then {q.dateCreated} else {})
    {
      var i :| 0 <= i < |payments| && Qualifies(payments[i], cutoff) && payments[i].dateCreated == d;
      if i < |init| {
        assert payments[i] == init[i];
      }
    }
    forall d | d in QualifyingDates(init, cutoff) ensures d in QualifyingDates(payments, cutoff) {
      var i :| 0 <= i < |init| && Qualifies(init[i], cutoff) && init[i].dateCreated == d;
      assert payments[i] == init[i];
    }
  }

  /** No list ever holds the same patient twice. */
  lemma InsertPaymentCountKeepsListsDistinct(p: Patient, counts: OMap<Date, seq<Patient>>, cutoff: Date)
    requires counts.Valid()
    requires forall d | d in counts.vals :: NoDuplicates(counts.vals[d])
    ensures var r := InsertPaymentCount(p, counts, cutoff);
      forall d | d in r.vals :: NoDuplicates(r.vals[d])
  {
    var r := InsertPaymentCount(p, counts, cutoff);
    CountPaymentsEffect(p, p.payments, counts, cutoff);
    forall d | d in r.vals ensures NoDuplicates(r.vals[d]) {
      var prior := PayersBefore(counts, d);
      if d in QualifyingDates(p.payments, cutoff) && p !in prior {
        assert r.vals[d] == prior + [p];
      }
    }
  }

  lemma {:induction false} CountPaymentsFixedPoint(p: Patient, payments: seq<Payment>,
                                                   counts: OMap<Date, seq<Patient>>, cutoff: Date)
    requires counts.Valid()
    requires forall d | d in QualifyingDates(payments, cutoff) :: d in counts.vals && p in counts.vals[d]
    ensures CountPayments(p, payments, counts, cutoff) == counts
  {
    if payments != [] {
      var init := payments[..|payments| - 1];
      var q := payments[|payments| - 1];
      QualifyingDatesStep(payments, cutoff);
      CountPaymentsFixedPoint(p, init, counts, cutoff);
    }
  }

  /** Recording the same patient's payments a second time changes nothing. */
  lemma InsertPaymentCountIdempotent(p: Patient, counts: OMap<Date, seq<Patient>>, cutoff: Date)
    requires counts.Valid()
    ensures var once := InsertPaymentCount(p, counts, cutoff);
      InsertPaymentCount(p, once, cutoff) == once
  {
    var once := InsertPaymentCount(p, counts, cutoff);
    CountPaymentsEffect(p, p.payments, counts, cutoff);
    CountPaymentsFixedPoint(p, p.payments, once, cutoff);
  }

  /** The counts table after `insert_patient_payment_count` ran for each of `patients` in turn. */
  function PaymentCounts(patients: seq<Patient>, cutoff: Date): (r: OMap<Date, seq<Patient>>)
    ensures r.Valid()
  {
    if patients == [] then Empty()
    else InsertPaymentCount(patients[|patients| - 1], PaymentCounts(patients[..|patients| - 1], cutoff), cutoff)
  }

  /** The patients, in order, with a payment on `d` that is not before the cutoff. */
  function Payers(patients: seq<Patient>, d: Date, cutoff: Date): seq<Patient> {
    if patients == [] then []
    else
      var p := patients[|patients| - 1];
      Payers(patients[..|patients| - 1], d, cutoff) + (if d in QualifyingDates(p.payments, cutoff) then [p] else [])
  }

  lemma {:induction false} PayersAreFromPatients(patients: seq<Patient>, d: Date, cutoff: Date, x: Patient)
    ensures x in Payers(patients, d, cutoff) ==> x in patients
  {
    if patients != [] {
      var init := patients[..|patients| - 1];
      PayersAreFromPatients(init, d, cutoff, x);
      assert forall k | 0 <= k < |init| :: init[k] == patients[k];
    }
  }

  /**
   * For distinct patients, the table lists under each date exactly the
   * patients who paid that day, in processing order, so the count written
   * for a date is its number of paying patients; every qualifying payment
   * date is listed and no listed date has an empty list.
   */
  lemma {:induction false} PaymentCountsArePayers(patients: seq<Patient>, cutoff: Date)
    requires NoDuplicates(patients)
    ensures var r := PaymentCounts(patients, cutoff);
      && (forall d | d in r.vals :: r.vals[d] == Payers(patients, d, cutoff) && r.vals[d] != [])
      && (forall i | 0 <= i < |patients| :: QualifyingDates(patients[i].payments, cutoff) <= r.vals.Keys)
  {
    if patients != [] {
      var init := patients[..|patients| - 1];
      var p := patients[|patients| - 1];
      var r0 := PaymentCounts(init, cutoff);
      var r := PaymentCounts(patients, cutoff);
      assert forall i | 0 <= i < |init| :: init[i] == patients[i];
      PaymentCountsArePayers(init, cutoff);
      CountPaymentsEffect(p, p.payments, r0, cutoff);
      var q := QualifyingDates(p.payments, cutoff);
      forall d | d in r.vals ensures r.vals[d] == Payers(patients, d, cutoff) && r.vals[d] != [] {
        if d in q {
          if d !in r0.vals {
            NoPayersWithoutEntry(init, d, cutoff);
          }
          PayersAreFromPatients(init, d, cutoff, p);
          assert forall k | 0 <= k < |init| :: init[k] != p;
        }
      }
    }
  }

  /** A date absent from the table of distinct patients has no payer among them. */
  lemma NoPayersWithoutEntry(patients: seq<Patient>, d: Date, cutoff: Date)
    requires forall i | 0 <= i < |patients| :: QualifyingDates(patients[i].payments, cutoff) <= PaymentCounts(patients, cutoff).vals.Keys
    requires d !in PaymentCounts(patients, cutoff).vals
    ensures Payers(patients, d, cutoff) == []
  {
    NoQualifyingNoPayers(patients, d, cutoff);
  }

  lemma {:induction false} NoQualifyingNoPayers(patients: seq<Patient>, d: Date, cutoff: Date)
    requires forall i | 0 <= i < |patients| :: d !in QualifyingDates(patients[i].payments, cutoff)
    ensures Payers(patients, d, cutoff) == []
  {
    if patients != [] {
      var init := patients[..|patients| - 1];
      assert forall i | 0 <= i < |init| :: init[i] == patients[i];
      NoQualifyingNoPayers(init, d, cutoff);
    }
  }
  /** The dates of the qualifying payments, in list order, a day repeated once per payment. */
  function QualifyingDateSeq(payments: seq<Payment>, cutoff: Date): seq<Date> {
    if payments == [] then []
    else
      var p := payments[|payments| - 1];
      QualifyingDateSeq(payments[..|payments| - 1], cutoff) + (if Qualifies(p, cutoff) then [p.dateCreated] else [])
  }

  /** The qualifying payment dates of each patient in turn. */
  function PaidDays(patients: seq<Patient>, cutoff: Date): seq<Date> {
    if patients == [] then []
    else PaidDays(patients[..|patients| - 1], cutoff) + QualifyingDateSeq(patients[|patients| - 1].payments, cutoff)
  }

  /** The sums are keyed by the qualifying dates, each day where its first payment put it. */
  lemma {:induction false} PaymentSumsKeyOrder(payments: seq<Payment>, cutoff: Date)
    ensures PaymentSums(payments, cutoff).keys == KeyOrder([], QualifyingDateSeq(payments, cutoff))
  {
    if payments != [] {
      var init := payments[..|payments| - 1];
      var p := payments[|payments| - 1];
      var r0 := PaymentSums(init, cutoff);
      var tail := if Qualifies(p, cutoff) then [p.dateCreated] else [];
      PaymentSumsKeyOrder(init, cutoff);
      KeyOrderAppend([], QualifyingDateSeq(init, cutoff), tail);
      if Qualifies(p, cutoff) {
        PutKeyOrder(r0, p.dateCreated, (if p.dateCreated in r0.vals then r0.vals[p.dateCreated] else 0) + p.amount);
      }
    }
  }

  /** The payment loop adds the patient's new qualifying dates after the old ones, in first-payment order. */
  lemma {:induction false} CountPaymentsKeyOrder(p: Patient, payments: seq<Payment>,
                                                 counts: OMap<Date, seq<Patient>>, cutoff: Date)
    requires counts.Valid()
    ensures CountPayments(p, payments, counts, cutoff).keys == KeyOrder(counts.keys, QualifyingDateSeq(payments, cutoff))
  {
    if payments != [] {
      var init := payments[..|payments| - 1];
      var q := payments[|payments| - 1];
      var tail := if Qualifies(q, cutoff) then [q.dateCreated] else [];
      CountPaymentsKeyOrder(p, init, counts, cutoff);
      KeyOrderAppend(counts.keys, QualifyingDateSeq(init, cutoff), tail);
    }
  }

  /**
   * The payers table lists its dates in the order each day was first paid,
   * over the patients' qualifying payments taken in turn.
   */
  lemma {:induction false} PaymentCountsKeyOrder(patients: seq<Patient>, cutoff: Date)
    ensures PaymentCounts(patients, cutoff).keys == KeyOrder([], PaidDays(patients, cutoff))
  {
    if patients != [] {
      var init := patients[..|patients| - 1];
      var p := patients[|patients| - 1];
      PaymentCountsKeyOrder(init, cutoff);
      CountPaymentsKeyOrder(p, p.payments, PaymentCounts(init, cutoff), cutoff);
      KeyOrderAppend([], PaidDays(init, cutoff), QualifyingDateSeq(p.payments, cutoff));
    }
  }
}
