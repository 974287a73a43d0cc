/**
 * The pure part of `get_all_patient_data`: index the plans and patients,
 * attach visits and payments to their owners, drop orphans, and sort the
 * aggregates by the integer value of their code.
 */
module Joiner {
  import opened Common
  import opened Decimal
  import opened Entities
  import opened OrderedMaps

  /** Plan `i` is the last plan in `plans` with its id. */
  ghost predicate LastPlanOf(plans: seq<Plan>, i: int) {
    0 <= i < |plans| && forall j | i < j < |plans| :: plans[j].id != plans[i].id
  }

  /** Patient `i` is the last patient in `patients` with its id. */
  ghost predicate LastPatientOf(patients: seq<Patient>, i: int) {
    0 <= i < |patients| && forall j | i < j < |patients| :: patients[j].id != patients[i].id
  }

  /** `{plan.id: plan for plan in plans}`. */
  function PlanMap(plans: seq<Plan>): (r: map<string, Plan>)
    ensures forall k | k in r :: r[k].id == k
  {
    if plans == [] then map[]
    else PlanMap(plans[..|plans| - 1])[plans[|plans| - 1].id := plans[|plans| - 1]]
  }

  /** Every plan id is a key, and nothing else is. */
  lemma {:induction false} PlanMapKeys(plans: seq<Plan>)
    ensures forall k | k in PlanMap(plans) :: exists i | 0 <= i < |plans| :: plans[i].id == k
    ensures forall i | 0 <= i < |plans| :: plans[i].id in PlanMap(plans)
  {
    if plans != [] {
      var init := plans[..|plans| - 1];
      PlanMapKeys(init);
      forall k | k in PlanMap(plans) ensures exists i | 0 <= i < |plans| :: plans[i].id == k {
        if k != plans[|plans| - 1].id {
          var i :| 0 <= i < |init| && init[i].id == k;
          assert plans[i] == init[i];
        }
      }
      forall i | 0 <= i < |plans| - 1 ensures plans[i].id in PlanMap(plans) {
        assert plans[i] == init[i];
      }
    }
  }

  /** The plan stored under an id is the last plan carrying it. */
  lemma {:induction false} PlanMapLastWins(plans: seq<Plan>)
    ensures forall i | LastPlanOf(plans, i) :: plans[i].id in PlanMap(plans) && PlanMap(plans)[plans[i].id] == plans[i]
  {
    if plans != [] {
      var init := plans[..|plans| - 1];
      PlanMapLastWins(init);
      forall i | LastPlanOf(plans, i) && i < |plans| - 1
        ensures plans[i].id in PlanMap(plans) && PlanMap(plans)[plans[i].id] == plans[i]
      {
        assert plans[i] == init[i];
        assert LastPlanOf(init, i) by {
          forall j | i < j < |init| ensures init[j].id != init[i].id {
            assert init[j] == plans[j];
          }
        }
      }
    }
  }

  /** `plan_map.get(patient.main_plans_id)`: `None` when the patient has no plan id or it is unknown. */
  function PlanFor(p: Patient, planMap: map<string, Plan>): Option<Plan> {
    match p.mainPlansId
    case None => None
    case Some(k) => if k in planMap then Some(planMap[k]) else None
  }

  function WithPlan(p: Patient, planMap: map<string, Plan>): Patient {
    p.(mainPlans := PlanFor(p, planMap))
  }

  /** The ids of `patients`, in order, repeats kept. */
  function Ids(patients: seq<Patient>): seq<string> {
    if patients == [] then [] else Ids(patients[..|patients| - 1]) + [patients[|patients| - 1].id]
  }

  /**
   * The loop filling `patient_map`: a repeated id keeps the place its first
   * patient gave it, so the keys are the ids in order of first appearance.
   */
  function PatientIndex(patients: seq<Patient>, planMap: map<string, Plan>): (r: OMap<string, Patient>)
    ensures r.Valid()
    ensures r.keys == KeyOrder([], Ids(patients))
  {
    if patients == [] then Empty()
    else
      var init := patients[..|patients| - 1];
      var p := patients[|patients| - 1];
      var r0 := PatientIndex(init, planMap);
      PutKeyOrder(r0, p.id, WithPlan(p, planMap));
      KeyOrderAppend([], Ids(init), [p.id]);
      r0.Put(p.id, WithPlan(p, planMap))
  }

  /** One key per distinct patient id, and its value carries that id. */
  lemma PatientIndexKeys(patients: seq<Patient>, planMap: map<string, Plan>)
    ensures forall k | k in PatientIndex(patients, planMap).vals :: PatientIndex(patients, planMap).vals[k].id == k
    ensures forall k | k in PatientIndex(patients, planMap).vals :: exists i | 0 <= i < |patients| :: patients[i].id == k
    ensures forall i | 0 <= i < |patients| :: patients[i].id in PatientIndex(patients, planMap).vals
  {
    PatientIndexIds(patients, planMap);
    PatientIndexOnlyGivenIds(patients, planMap);
    PatientIndexHasEveryId(patients, planMap);
  }

  lemma {:induction false} PatientIndexIds(patients: seq<Patient>, planMap: map<string, Plan>)
    ensures forall k | k in PatientIndex(patients, planMap).vals :: PatientIndex(patients, planMap).vals[k].id == k
  {
    if patients != [] {
      PatientIndexIds(patients[..|patients| - 1], planMap);
    }
  }

  lemma {:induction false} PatientIndexOnlyGivenIds(patients: seq<Patient>, planMap: map<string, Plan>)
    ensures forall k | k in PatientIndex(patients, planMap).vals :: exists i | 0 <= i < |patients| :: patients[i].id == k
  {
    if patients != [] {
      var init := patients[..|patients| - 1];
      var p := patients[|patients| - 1];
      PatientIndexOnlyGivenIds(init, planMap);
      var r0 := PatientIndex(init, planMap);
      var r := PatientIndex(patients, planMap);
      assert r.vals.Keys == r0.vals.Keys + {p.id};
      forall k | k in r.vals ensures exists i | 0 <= i < |patients| :: patients[i].id == k {
        if k == p.id {
          assert patients[|patients| - 1].id == k;
        } else {
          assert k in r0.vals;
          var i :| 0 <= i < |init| && init[i].id == k;
          assert patients[i].id == init[i].id;
        }
      }
    }
  }

  lemma {:induction false} PatientIndexHasEveryId(patients: seq<Patient>, planMap: map<string, Plan>)
    ensures forall i | 0 <= i < |patients| :: patients[i].id in PatientIndex(patients, planMap).vals
  {
    if patients != [] {
      var init := patients[..|patients| - 1];
      PatientIndexHasEveryId(init, planMap);
      forall i | 0 <= i < |patients| ensures patients[i].id in PatientIndex(patients, planMap).vals {
        if i < |init| {
          assert patients[i].id == init[i].id;
        }
      }
    }
  }

  /** The value under an id is the last patient with that id, plan attached. */
  lemma {:induction false} PatientIndexLastWins(patients: seq<Patient>, planMap: map<string, Plan>)
    ensures forall i | LastPatientOf(patients, i) ::
      && patients[i].id in PatientIndex(patients, planMap).vals
      && PatientIndex(patients, planMap).vals[patients[i].id] == WithPlan(patients[i], planMap)
  {
    if patients != [] {
      var init := patients[..|patients| - 1];
      PatientIndexLastWins(init, planMap);
      var r := PatientIndex(patients, planMap);
      forall i | LastPatientOf(patients, i) && i < |patients| - 1
        ensures patients[i].id in r.vals && r.vals[patients[i].id] == WithPlan(patients[i], planMap)
      {
        assert patients[i] == init[i];
        assert LastPatientOf(init, i) by {
          forall j | i < j < |init| ensures init[j].id != init[i].id {
            assert init[j] == patients[j];
          }
        }
      }
    }
  }

  /** The visits of `visits` that belong to patient `id`, in input order. */
  function VisitsOf(visits: seq<Visit>, id: string): seq<Visit> {
    if visits == [] then []
    else
      var v := visits[|visits| - 1];
      VisitsOf(visits[..|visits| - 1], id) + (if v.patientId == id then [v] else [])
  }

  /** The payments of `payments` that belong to patient `id`, in input order. */
  function PaymentsOf(payments: seq<Payment>, id: string): seq<Payment> {
    if payments == [] then []
    else
      var p := payments[|payments| - 1];
      PaymentsOf(payments[..|payments| - 1], id) + (if p.patientId == id then [p] else [])
  }

  /** The visit loop: append each visit to its owner; drop a visit whose owner is not indexed. */
  function AttachVisits(index: OMap<string, Patient>, visits: seq<Visit>): (r: OMap<string, Patient>)
    requires index.Valid()
    ensures r.Valid() && r.keys == index.keys && r.vals.Keys == index.vals.Keys
  {
    if visits == [] then index
    else
      var r0 := AttachVisits(index, visits[..|visits| - 1]);
      var v := visits[|visits| - 1];
      if v.patientId in r0.vals then
        r0.Put(v.patientId, r0.vals[v.patientId].(visits := r0.vals[v.patientId].visits + [v]))
      else r0
  }

  /** Each indexed patient gains exactly its own visits, in input order; nothing else changes. */
  lemma {:induction false} AttachVisitsAppendsOwn(index: OMap<string, Patient>, visits: seq<Visit>)
    requires index.Valid()
    ensures forall k | k in index.vals ::
      AttachVisits(index, visits).vals[k] == index.vals[k].(visits := index.vals[k].visits + VisitsOf(visits, k))
  {
    if visits != [] {
      var init := visits[..|visits| - 1];
      var v := visits[|visits| - 1];
      AttachVisitsAppendsOwn(index, init);
      forall k | k in index.vals
        ensures AttachVisits(index, visits).vals[k] == index.vals[k].(visits := index.vals[k].visits + VisitsOf(visits, k))
      {
        var own := VisitsOf(init, k);
        if v.patientId == k {
          AppendAssoc(index.vals[k].visits, own, [v]);
        } else {
          assert VisitsOf(visits, k) == own + [];
          assert own + [] == own;
        }
      }
    }
  }

  /** The payment loop, with the same rules as the visit loop. */
  function AttachPayments(index: OMap<string, Patient>, payments: seq<Payment>): (r: OMap<string, Patient>)
    requires index.Valid()
    ensures r.Valid() && r.keys == index.keys && r.vals.Keys == index.vals.Keys
  {
    if payments == [] then index
    else
      var r0 := AttachPayments(index, payments[..|payments| - 1]);
      var p := payments[|payments| - 1];
      if p.patientId in r0.vals then
        r0.Put(p.patientId, r0.vals[p.patientId].(payments := r0.vals[p.patientId].payments + [p]))
      else r0
  }

  /** Each indexed patient gains exactly its own payments, in input order; nothing else changes. */
  lemma {:induction false} AttachPaymentsAppendsOwn(index: OMap<string, Patient>, payments: seq<Payment>)
    requires index.Valid()
    ensures forall k | k in index.vals ::
      AttachPayments(index, payments).vals[k]
        == index.vals[k].(payments := index.vals[k].payments + PaymentsOf(payments, k))
  {
    if payments != [] {
      var init := payments[..|payments| - 1];
      var p := payments[|payments| - 1];
      AttachPaymentsAppendsOwn(index, init);
      forall k | k in index.vals
        ensures AttachPayments(index, payments).vals[k]
          == index.vals[k].(payments := index.vals[k].payments + PaymentsOf(payments, k))
      {
        var own := PaymentsOf(init, k);
        if p.patientId == k {
          AppendAssoc(index.vals[k].payments, own, [p]);
        } else {
          assert PaymentsOf(payments, k) == own + [];
          assert own + [] == own;
        }
      }
    }
  }

  lemma AppendAssoc<T>(a: seq<T>, b: seq<T>, c: seq<T>)
    ensures a + b + c == a + (b + c)
  {
  }

  /** `int(x.code)`, the sort key; an unparsable code never reaches a sort. */
  function CodeKey(p: Patient): int {
    match ParseInt(p.code)
    case Some(k) => k
    case None => 0
  }

  predicate SortedByCode(s: seq<Patient>) {
    forall i, j | 0 <= i < j < |s| :: CodeKey(s[i]) <= CodeKey(s[j])
  }

  lemma SortedCons(h: Patient, t: seq<Patient>)
    requires SortedByCode(t)
    requires forall x | x in t :: CodeKey(h) <= CodeKey(x)
    ensures SortedByCode([h] + t)
  {
    forall i, j | 0 <= i < j < |[h] + t| ensures CodeKey(([h] + t)[i]) <= CodeKey(([h] + t)[j]) {
      if i > 0 {
        assert ([h] + t)[i] == t[i - 1];
      }
      assert ([h] + t)[j] == t[j - 1];
    }
  }

  /** Insert `p` after every element whose code is not greater. */
  function InsertByCode(p: Patient, s: seq<Patient>): (r: seq<Patient>)
    requires SortedByCode(s)
    ensures SortedByCode(r)
    ensures multiset(r) == multiset(s) + multiset{p}
    ensures forall x | x in r :: x == p || x in s
  {
    if s == [] then [p]
    else if CodeKey(p) < CodeKey(s[0]) then
      SortedCons(p, s);
      [p] + s
    else
      var rest := InsertByCode(p, s[1..]);
      HeadTail(s);
      SortedCons(s[0], rest);
      [s[0]] + rest
  }

  lemma HeadTail<T>(s: seq<T>)
    requires s != []
    ensures s == [s[0]] + s[1..]
  {
  }

  lemma LastSplit<T>(s: seq<T>)
    requires s != []
    ensures s == s[..|s| - 1] + [s[|s| - 1]]
  {
  }

  /** `sorted(patients, key=lambda x: int(x.code))`: ordered by code, and a permutation of its input. */
  function SortByCode(s: seq<Patient>): (r: seq<Patient>)
    ensures SortedByCode(r)
    ensures multiset(r) == multiset(s)
  {
    if s == [] then []
    else
      LastSplit(s);
      InsertByCode(s[|s| - 1], SortByCode(s[..|s| - 1]))
  }

  /** No two positions carry the same patient id. */
  predicate DistinctIds(s: seq<Patient>) {
    forall a, b | 0 <= a < b < |s| :: s[a].id != s[b].id
  }

  lemma {:induction false} OccursTwice(s: seq<Patient>, a: int, b: int)
    requires 0 <= a < b < |s|
    ensures s[a] == s[b] ==> multiset(s)[s[a]] >= 2
  {
    assert s == s[..a] + [s[a]] + s[a + 1..b] + [s[b]] + s[b + 1..];
  }

  lemma {:induction false} OccursOnce(s: seq<Patient>, a: int)
    requires DistinctIds(s) && 0 <= a < |s|
    ensures multiset(s)[s[a]] == 1
  {
    var x := s[a];
    assert s == s[..a] + [x] + s[a + 1..];
    assert x !in s[..a] && x !in s[a + 1..] by {
      forall j | 0 <= j < |s| && j != a ensures s[j] != x {
        assert s[j].id != x.id;
      }
    }
    assert multiset(s[..a])[x] == 0 && multiset(s[a + 1..])[x] == 0;
  }

  /** A permutation of records with distinct ids has distinct ids. */
  lemma PermutationKeepsDistinctIds(s: seq<Patient>, t: seq<Patient>)
    requires DistinctIds(s) && multiset(t) == multiset(s)
    ensures DistinctIds(t)
  {
    forall a, b | 0 <= a < b < |t| ensures t[a].id != t[b].id {
      assert t[a] in multiset(s) && t[b] in multiset(s);
      var ia :| 0 <= ia < |s| && s[ia] == t[a];
      var ib :| 0 <= ib < |s| && s[ib] == t[b];
      OccursTwice(t, a, b);
      OccursOnce(s, ia);
      assert t[a] != t[b];
      assert ia != ib;
    }
  }

  /** `int(x.code)` raised `ValueError` for this code. */
  datatype JoinError = InvalidCode(code: string)

  /** The first patient, in order, whose code `int` rejects. */
  function FirstInvalidCode(s: seq<Patient>): (r: Option<string>)
    ensures r.None? <==> forall i | 0 <= i < |s| :: ParseInt(s[i].code).Some?
    ensures r.Some? ==> exists i | 0 <= i < |s| :: s[i].code == r.value && ParseInt(s[i].code).None?
  {
    if s == [] then None
    else if ParseInt(s[0].code).None? then Some(s[0].code)
    else
      assert forall i | 1 <= i < |s| :: s[i] == s[1..][i - 1];
      FirstInvalidCode(s[1..])
  }

  /** The aggregate the join builds for patient `p`. */
  function Aggregate(p: Patient, plans: seq<Plan>, visits: seq<Visit>, payments: seq<Payment>): Patient {
    WithPlan(p, PlanMap(plans)).(
      visits := p.visits + VisitsOf(visits, p.id),
      payments := p.payments + PaymentsOf(payments, p.id))
  }

  /** `patient_map` after all three loops. */
  function JoinedIndex(patients: seq<Patient>, visits: seq<Visit>, payments: seq<Payment>, plans: seq<Plan>)
    : (r: OMap<string, Patient>)
    ensures r.Valid()
    ensures r.keys == KeyOrder([], Ids(patients))
    ensures r.vals.Keys == PatientIndex(patients, PlanMap(plans)).vals.Keys
  {
    AttachPayments(AttachVisits(PatientIndex(patients, PlanMap(plans)), visits), payments)
  }

  lemma {:induction false} LastOccurrenceExists(patients: seq<Patient>, i: int)
    requires 0 <= i < |patients|
    ensures exists j | LastPatientOf(patients, j) :: patients[j].id == patients[i].id
    decreases |patients| - i
  {
    if !LastPatientOf(patients, i) {
      var j :| i < j < |patients| && patients[j].id == patients[i].id;
      LastOccurrenceExists(patients, j);
    }
  }

  /** Each key of the joined index holds the aggregate of the last patient with that id. */
  lemma JoinedIndexFacts(patients: seq<Patient>, visits: seq<Visit>, payments: seq<Payment>, plans: seq<Plan>)
    ensures var r := JoinedIndex(patients, visits, payments, plans);
      && (forall k | k in r.vals :: r.vals[k].id == k)
      && (forall k | k in r.vals ::
            exists i | LastPatientOf(patients, i) :: r.vals[k] == Aggregate(patients[i], plans, visits, payments))
      && (forall i | LastPatientOf(patients, i) ::
            patients[i].id in r.vals && r.vals[patients[i].id] == Aggregate(patients[i], plans, visits, payments))
  {
    var pm := PlanMap(plans);
    var idx := PatientIndex(patients, pm);
    var mid := AttachVisits(idx, visits);
    var r := JoinedIndex(patients, visits, payments, plans);
    PatientIndexKeys(patients, pm);
    PatientIndexLastWins(patients, pm);
    AttachVisitsAppendsOwn(idx, visits);
    AttachPaymentsAppendsOwn(mid, payments);
    forall i | LastPatientOf(patients, i)
      ensures patients[i].id in r.vals && r.vals[patients[i].id] == Aggregate(patients[i], plans, visits, payments)
    {
      var k := patients[i].id;
      assert idx.vals[k] == WithPlan(patients[i], pm);
    }
    forall k | k in r.vals
      ensures exists i | LastPatientOf(patients, i) :: r.vals[k] == Aggregate(patients[i], plans, visits, payments)
    {
      var i0 :| 0 <= i0 < |patients| && patients[i0].id == k;
      LastOccurrenceExists(patients, i0);
      var i :| LastPatientOf(patients, i) && patients[i].id == k;
      assert r.vals[k] == Aggregate(patients[i], plans, visits, payments);
    }
  }

  /**
   * The pure part of `get_all_patient_data`. On success the output holds
   * one aggregate per distinct patient id (the last patient with that id,
   * its plan, and its own visits and payments in input order), sorted by
   * integer code; it fails exactly when one of those patients' codes is
   * not an integer.
   */
  function JoinPatients(patients: seq<Patient>, visits: seq<Visit>, payments: seq<Payment>, plans: seq<Plan>)
    : (r: Result<seq<Patient>, JoinError>)
    ensures r.Ok? <==> forall i | LastPatientOf(patients, i) :: ParseInt(patients[i].code).Some?
    ensures r.Ok? ==> SortedByCode(r.value) && DistinctIds(r.value)
    ensures r.Ok? ==> forall q | q in r.value ::
      exists i | LastPatientOf(patients, i) :: q == Aggregate(patients[i], plans, visits, payments)
    ensures r.Ok? ==> forall i | LastPatientOf(patients, i) ::
      Aggregate(patients[i], plans, visits, payments) in r.value
  {
    var index := JoinedIndex(patients, visits, payments, plans);
    var values := index.Values();
    JoinedValuesFacts(patients, visits, payments, plans);
    match FirstInvalidCode(values)
    case Some(code) =>
      Err(InvalidCode(code))
    case None =>
      var sorted := SortByCode(values);
      PermutationKeepsDistinctIds(values, sorted);
      assert forall q :: q in sorted <==> q in values by {
        forall q ensures q in sorted <==> q in values {
          assert q in sorted <==> q in multiset(sorted);
          assert q in values <==> q in multiset(values);
        }
      }
      Ok(sorted)
  }

  /** The values of the joined index: exactly the aggregates of the last patients, ids distinct. */
  lemma JoinedValuesFacts(patients: seq<Patient>, visits: seq<Visit>, payments: seq<Payment>, plans: seq<Plan>)
    ensures var values := JoinedIndex(patients, visits, payments, plans).Values();
      && DistinctIds(values)
      && (forall q | q in values ::
            exists i | LastPatientOf(patients, i) :: q == Aggregate(patients[i], plans, visits, payments))
      && (forall i | LastPatientOf(patients, i) :: Aggregate(patients[i], plans, visits, payments) in values)
      && ((forall j | 0 <= j < |values| :: ParseInt(values[j].code).Some?)
          <==> forall i | LastPatientOf(patients, i) :: ParseInt(patients[i].code).Some?)
  {
    var index := JoinedIndex(patients, visits, payments, plans);
    var values := index.Values();
    JoinedIndexFacts(patients, visits, payments, plans);
    ValuesDistinct(index);
    ValuesAreAggregates(patients, visits, payments, plans);
    AggregatesAreValues(patients, visits, payments, plans);
    CodesParseIff(patients, visits, payments, plans, values);
  }

  /** The aggregates of the last patients all have integer codes exactly when those patients do. */
  lemma CodesParseIff(patients: seq<Patient>, visits: seq<Visit>, payments: seq<Payment>, plans: seq<Plan>,
                      values: seq<Patient>)
    requires forall q | q in values ::
      exists i | LastPatientOf(patients, i) :: q == Aggregate(patients[i], plans, visits, payments)
    requires forall i | LastPatientOf(patients, i) :: Aggregate(patients[i], plans, visits, payments) in values
    ensures (forall j | 0 <= j < |values| :: ParseInt(values[j].code).Some?)
      <==> forall i | LastPatientOf(patients, i) :: ParseInt(patients[i].code).Some?
  {
    if forall i | LastPatientOf(patients, i) :: ParseInt(patients[i].code).Some? {
      forall j | 0 <= j < |values| ensures ParseInt(values[j].code).Some? {
        assert values[j] in values;
        var i :| LastPatientOf(patients, i) && values[j] == Aggregate(patients[i], plans, visits, payments);
      }
    }
    if forall j | 0 <= j < |values| :: ParseInt(values[j].code).Some? {
      forall i | LastPatientOf(patients, i) ensures ParseInt(patients[i].code).Some? {
        var j :| 0 <= j < |values| && values[j] == Aggregate(patients[i], plans, visits, payments);
      }
    }
  }

  lemma ValuesDistinct(index: OMap<string, Patient>)
    requires index.Valid()
    requires forall k | k in index.vals :: index.vals[k].id == k
    ensures DistinctIds(index.Values())
  {
    var values := index.Values();
    forall a, b | 0 <= a < b < |values| ensures values[a].id != values[b].id {
      assert values[a].id == index.keys[a] && values[b].id == index.keys[b];
    }
  }

  lemma ValuesAreAggregates(patients: seq<Patient>, visits: seq<Visit>, payments: seq<Payment>, plans: seq<Plan>)
    ensures forall q | q in JoinedIndex(patients, visits, payments, plans).Values() ::
      exists i | LastPatientOf(patients, i) :: q == Aggregate(patients[i], plans, visits, payments)
  {
    var index := JoinedIndex(patients, visits, payments, plans);
    var values := index.Values();
    JoinedIndexFacts(patients, visits, payments, plans);
    forall q | q in values
      ensures exists i | LastPatientOf(patients, i) :: q == Aggregate(patients[i], plans, visits, payments)
    {
      var j :| 0 <= j < |values| && values[j] == q;
      assert index.keys[j] in index.vals;
    }
  }

  lemma AggregatesAreValues(patients: seq<Patient>, visits: seq<Visit>, payments: seq<Payment>, plans: seq<Plan>)
    ensures forall i | LastPatientOf(patients, i) ::
      Aggregate(patients[i], plans, visits, payments) in JoinedIndex(patients, visits, payments, plans).Values()
  {
    var index := JoinedIndex(patients, visits, payments, plans);
    var values := index.Values();
    JoinedIndexFacts(patients, visits, payments, plans);
    forall i | LastPatientOf(patients, i) ensures Aggregate(patients[i], plans, visits, payments) in values {
      var k := patients[i].id;
      var j :| 0 <= j < |index.keys| && index.keys[j] == k;
      assert values[j] == index.vals[k];
    }
  }
}
