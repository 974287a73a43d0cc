/**
 * The records fetched from the clinic API. Amount strings are held as the
 * integers `int(float(amount))` gives (truncated toward zero); a plan total
 * that is the empty string is `None`.
 */
module Entities {
  import opened Common
  import opened Decimal
  import opened Calendar

  datatype Payment = Payment(
    id: string,
    patientId: string,
    amount: int,
    kind: string,
    currency: Option<string>,
    status: Option<string>,
    dateCreated: Date)

  datatype Plan = Plan(
    id: string,
    name: string,
    doctorId: string,
    planTotal: Option<int>,
    planTotalWithDiscount: Option<int>)

  datatype Visit = Visit(
    id: string,
    patientId: string,
    status: string,
    doctor: string,
    dateCreated: string,
    visitStart: Option<string>,
    visitEnd: Option<string>)

  datatype Invoice = Invoice(
    id: string,
    patientId: string,
    dateCreated: Date,
    amount: int)

  /**
   * A patient and everything attached to it. Equality is the dataclass
   * equality: field by field, collections included.
   */
  datatype Patient = Patient(
    id: string,
    firstName: string,
    lastName: string,
    code: string,
    curator: string,
    firstVisitDate: Option<string>,
    lastVisitDate: Option<string>,
    mainPlansId: Option<string>,
    rowPosition: Option<int>,
    mainPlans: Option<Plan>,
    payments: seq<Payment>,
    visits: seq<Visit>,
    invoices: seq<Invoice>)

  /**
   * `Patient(...)` with only the API fields given: no row yet, no plan
   * attached, and fresh empty collections.
   */
  function NewPatient(
    id: string, firstName: string, lastName: string, code: string, curator: string,
    firstVisitDate: Option<string>, lastVisitDate: Option<string>, mainPlansId: Option<string>): (p: Patient)
    ensures p.rowPosition == None && p.mainPlans == None
    ensures p.payments == [] && p.visits == [] && p.invoices == []
    ensures p.id == id && p.code == code && p.mainPlansId == mainPlansId
  {
    Patient(id, firstName, lastName, code, curator, firstVisitDate, lastVisitDate, mainPlansId,
            None, None, [], [], [])
  }

  /** `Payment.__hash__`: `int(id)`; an id that is not an integer raises (`None`). */
  function PaymentHash(p: Payment): (h: Option<int>)
    ensures p.id == [] ==> h.None?
    ensures |p.id| >= 1 && AllDigits(p.id) ==> h == Some(DigitsValue(p.id))
    ensures h.Some? && p.id[0] == '-' ==> h.value <= 0
  {
    ParseInt(p.id)
  }

  /** A payment whose id is the text of `k` hashes to `k`, whatever its other fields. */
  lemma PaymentHashOfCanonicalId(p: Payment, k: int)
    requires p.id == IntToString(k)
    ensures PaymentHash(p) == Some(k)
  {
    IntRoundTrip(k);
  }

  /** `f"{patient.last_name} {patient.first_name}"`: the text a patient is matched by in the sheet. */
  function FullName(p: Patient): (name: string)
    ensures |name| == |p.lastName| + 1 + |p.firstName|
    ensures name[..|p.lastName|] == p.lastName
    ensures name[|p.lastName|] == ' '
    ensures name[|p.lastName| + 1..] == p.firstName
  {
    p.lastName + " " + p.firstName
  }
}
