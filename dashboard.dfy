/**
 * The script's pipeline from top to bottom, without its widgets and charts:
 * derive the stay column in place, read the default widget bounds, filter
 * with the user's selections, count the patients and the genders, and build
 * the two heatmap tallies. The script stops at the first exception, so a
 * run either yields every figure it computes or the error that stopped it.
 */
module Dashboard {
  import opened Wrappers
  import opened Records
  import opened Filtering
  import opened Aggregation

  /** The figures the dashboard computes from the data. */
  datatype Report = Report(
    patientCount: nat,
    genders: GenderTally,
    maleShare: real,
    femaleShare: real,
    admissionByInsurance: Pivot,
    bloodTypeByCondition: Pivot)

  /** One run of the script with the selections c. The patient count and the
      gender figures come from the filtered rows; both heatmap tallies come
      from all rows, whatever the selections. */
  method RunDashboard(frame: Frame, c: Criteria) returns (r: Result<Report, DashboardError>)
    modifies frame
    ensures |frame.rows| == |old(frame.rows)|
    ensures forall i :: 0 <= i < |frame.rows| ==>
      frame.rows[i] == old(frame.rows)[i].(stayDuration := Some(StayDays(old(frame.rows)[i].admitted, old(frame.rows)[i].discharged)))
    ensures old(frame.rows) == [] ==> r == Err(EmptyAgeColumn)
    ensures old(frame.rows) != [] ==>
      (r == Err(ZeroDivision) <==> forall x :: x in Filtered(frame.rows, c) ==> x.gender != Male && x.gender != Female)
    ensures old(frame.rows) != [] ==>
      (r.Ok? <==> exists x :: x in Filtered(frame.rows, c) && (x.gender == Male || x.gender == Female))
    ensures r.Ok? ==>
      && r.value.patientCount == |Filtered(frame.rows, c)|
      && r.value.genders == TallyGenders(Filtered(frame.rows, c))
      && Shares(r.value.genders) == Ok((r.value.maleShare, r.value.femaleShare))
      && r.value.maleShare + r.value.femaleShare == 1.0
      && r.value.admissionByInsurance == GroupCounts(frame.rows, AdmissionType, InsuranceProvider)
      && r.value.bloodTypeByCondition == GroupCounts(frame.rows, BloodType, MedicalCondition)
  {
    frame.AddStayDuration();
    var data := frame.rows;
    var defaults := DefaultCriteria(data);
    if defaults.Err? {
      return Err(defaults.error);
    }
    var filtered := ApplyFilters(data, c);
    var tally := TallyGenders(filtered);
    var shares := Shares(tally);
    SharesUndefinedIff(filtered);
    if shares.Err? {
      return Err(shares.error);
    }
    r := Ok(Report(
      |filtered|,
      tally,
      shares.value.0,
      shares.value.1,
      GroupCounts(data, AdmissionType, InsuranceProvider),
      GroupCounts(data, BloodType, MedicalCondition)));
  }
}
