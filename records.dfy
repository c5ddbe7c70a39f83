/**
 * The patient-admission table: one record per row of the loaded CSV, after
 * the two date columns have been parsed, and the frame that the
 * preprocessing step extends in place with the derived `stay_duration`
 * column.
 */
module Records {
  import opened Wrappers
  import opened Dates

  /** The two values of the gender column the dashboard tallies and filters on. */
  const Male: string := "male"
  const Female: string := "female"

  /** The exceptions the dashboard script can raise on the paths modelled here. */
  datatype DashboardError =
    | EmptyAgeColumn   // `int(data['age'].min())` on an empty frame: int() of NaN raises ValueError
    | ZeroDivision     // `male_count/total_count` with total_count == 0 raises ZeroDivisionError

  /** The categorical columns the dashboard filters and groups by. */
  datatype Column = Gender | BloodType | MedicalCondition | InsuranceProvider | AdmissionType

  /** One row of the frame. `stayDuration` is `None` until the preprocessing
      step adds that column, and then holds whole days. */
  datatype Record = Record(
    age: int,
    gender: string,
    bloodType: string,
    medicalCondition: string,
    insuranceProvider: string,
    admissionType: string,
    admitted: Date,
    discharged: Date,
    stayDuration: Option<int>)

  /** The value of a categorical column in one row. */
  function Field(r: Record, col: Column): string {
    match col
    case Gender => r.gender
    case BloodType => r.bloodType
    case MedicalCondition => r.medicalCondition
    case InsuranceProvider => r.insuranceProvider
    case AdmissionType => r.admissionType
  }

  /** A whole column of the frame, `data[col]`, in row order. */
  function Values(rows: seq<Record>, col: Column): (vals: seq<string>)
    ensures |vals| == |rows|
    ensures forall i :: 0 <= i < |rows| ==> vals[i] == Field(rows[i], col)
  {
    seq(|rows|, i requires 0 <= i < |rows| => Field(rows[i], col))
  }

  /** The `age` column, in row order. */
  function Ages(rows: seq<Record>): (ages: seq<int>)
    ensures |ages| == |rows|
    ensures forall i :: 0 <= i < |rows| ==> ages[i] == rows[i].age
  {
    seq(|rows|, i requires 0 <= i < |rows| => rows[i].age)
  }

  /** `(discharge_date - date_of_admission).dt.days`: the signed number of
      days from admission to discharge, neither clamped nor rejected. */
  function StayDays(admitted: Date, discharged: Date): (n: int)
    ensures ValidDate(admitted) && discharged == NextDay(admitted) ==> n == 1
  {
    if ValidDate(admitted) then DayNumberNext(admitted); DayNumber(discharged) - DayNumber(admitted)
    else DayNumber(discharged) - DayNumber(admitted)
  }

  /** The sign of a stay follows the calendar: it is negative exactly when
      discharge precedes admission, zero exactly for a same-day discharge. */
  lemma StayDaysSign(admitted: Date, discharged: Date)
    requires ValidDate(admitted) && ValidDate(discharged)
    ensures StayDays(admitted, discharged) < 0 <==> Before(discharged, admitted)
    ensures StayDays(admitted, discharged) == 0 <==> discharged == admitted
    ensures StayDays(admitted, discharged) > 0 <==> Before(admitted, discharged)
  {
    DayNumberOrder(admitted, discharged);
    DayNumberOrder(discharged, admitted);
  }

  /** A stay counts calendar days: discharge k days after admission is a stay
      of k, whatever month and year ends lie in between. */
  lemma StayCountsDays(admitted: Date, k: nat)
    requires ValidDate(admitted)
    ensures StayDays(admitted, Advance(admitted, k)) == k
  {
    DayNumberAdvance(admitted, k);
  }

  /** A stay within one month is the difference of the days of the month
      (2024-01-01 to 2024-01-05 is 4 days). */
  lemma StayWithinMonth(y: int, m: int, d1: int, d2: int)
    ensures StayDays(Date(y, m, d1), Date(y, m, d2)) == d2 - d1
  {
  }

  /** The loaded frame, which preprocessing updates in place. */
  class Frame {
    var rows: seq<Record>

    /** The frame as read from the CSV file; reading and date parsing are not
        part of this model. */
    constructor (loaded: seq<Record>)
      ensures rows == loaded
    {
      rows := loaded;
    }

    /** `data['stay_duration'] = ...`: adds the derived column to every row and
        changes nothing else. */
    method AddStayDuration()
      modifies this
      ensures |rows| == |old(rows)|
      ensures forall i :: 0 <= i < |rows| ==>
        rows[i] == old(rows)[i].(stayDuration := Some(StayDays(old(rows)[i].admitted, old(rows)[i].discharged)))
    {
      var before := rows;
      rows := seq(|before|, i requires 0 <= i < |before| =>
        before[i].(stayDuration := Some(StayDays(before[i].admitted, before[i].discharged))));
    }
  }
}
