/**
 * The run of main (carbon_footprint.cpp): download, parse, refuse an empty
 * table, list the countries, analyze the selected one.
 */
module CarbonFootprint {
  import opened Options
  import opened EmissionTable
  import opened EmissionStats
  import opened CountryList

  /**
   * How a run ends: with an exit status, the country list it displayed and
   * the statistics it reported (`None` when nothing was reported); or
   * aborted by an `out_of_range` that nothing catches.
   */
  datatype RunOutcome =
    | Exited(status: int, countries: seq<string>, analysis: Option<Statistics>)
    | Aborted

  /**
   * main. `downloaded` is the outcome of downloadDataset; `file` is the
   * downloaded file as parseCSV reads it (`None` when it cannot be opened);
   * `selection` is the line read from standard input; `stod` is the number
   * conversion.
   */
  method Run(downloaded: bool, file: Option<seq<string>>, selection: string, stod: string -> Conversion)
    returns (outcome: RunOutcome)
    ensures outcome.Exited? ==>
      outcome.status == (if downloaded && ParseFile(file, stod).Parsed? && ParseFile(file, stod).data != map[] then 0 else 1)
    ensures !downloaded ==> outcome == Exited(1, [], None)
    ensures downloaded ==> (outcome.Aborted? <==> ParseFile(file, stod).Uncaught?)
    ensures downloaded && ParseFile(file, stod) == Parsed(map[]) ==> outcome == Exited(1, [], None)
    ensures downloaded && ParseFile(file, stod).Parsed? && ParseFile(file, stod).data != map[] ==>
      var data := ParseFile(file, stod).data;
      && outcome.Exited? && outcome.status == 0
      && StrictlySorted(outcome.countries)
      && (forall k :: k in outcome.countries <==> k in data)
      && (outcome.analysis.Some? <==> selection in data)
      && (outcome.analysis.Some? ==> Describes(data[selection], outcome.analysis.value))
  {
    if !downloaded {
      return Exited(1, [], None);
    }
    var parsed := ParseCsv(file, stod);
    if parsed.Uncaught? {
      return Aborted;
    }
    var data := parsed.data;
    if data == map[] {
      return Exited(1, [], None);
    }
    var countries := Countries(data);
    ParsedFileWellFormed(file, stod);
    var analysis := AnalyzeCountry(selection, data);
    outcome := Exited(0, countries, analysis);
  }

}
