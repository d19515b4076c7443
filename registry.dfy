/** `ReportGenerator.get_report`: the closed lookup from a report name to
    one of the two report kinds. */
module Registry {
  import opened Common
  import opened Strings

  datatype ReportKind = Payout | AvgRate

  /** The name under which each kind is registered. */
  function Name(k: ReportKind): string {
    match k
    case Payout => "payout"
    case AvgRate => "avg_rate"
  }

  /** The report registered under `reportType`, or an error naming the
      unknown type and listing the available ones. */
  function GetReport(reportType: string): (r: Result<ReportKind>)
    ensures r.Ok? <==> reportType == "payout" || reportType == "avg_rate"
    ensures r.Ok? ==> Name(r.value) == reportType
    ensures r.Err? ==> r.error.UnknownReport?
                       && Contains(r.error.message, reportType)
                       && Contains(r.error.message, "payout")
                       && Contains(r.error.message, "avg_rate")
  {
    if reportType == "payout" then Ok(Payout)
    else if reportType == "avg_rate" then Ok(AvgRate)
    else
      var prefix := "Unknown report type: ";
      var middle := ". Available reports: ";
      var message := prefix + reportType + middle + "payout" + ", " + "avg_rate";
      assert OccursAt(message, reportType, |prefix|);
      assert OccursAt(message, "payout", |prefix + reportType + middle|);
      assert OccursAt(message, "avg_rate", |message| - 8);
      Err(UnknownReport(message))
  }

  /** Every kind is found under its own name. */
  lemma GetReportName(k: ReportKind)
    ensures GetReport(Name(k)) == Ok(k)
  {
  }
}
