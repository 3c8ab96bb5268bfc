/**
 * The table-building pass (carbon_footprint.cpp, parseCSV): every data line
 * whose country, year and value fields are non-empty and whose value
 * converts to a number appends one record to its country's sequence.
 */
module EmissionTable {
  import opened Options
  import opened LineFields

  /** One country-year measurement: the year label as read, and the emissions. */
  datatype EmissionData = EmissionData(year: string, emissions: real)

  /**
   * What `std::stod` does with a value string: it converts, or throws
   * `invalid_argument` (caught by parseCSV), or throws `out_of_range` (not caught).
   */
  datatype Conversion = Converted(value: real) | InvalidArgument | OutOfRange

  /** The country table: `std::map<std::string, std::vector<EmissionData>>`. */
  type Table = map<string, seq<EmissionData>>

  /** The result of parseCSV: the filled table, or an `out_of_range` that escaped it. */
  datatype ParseOutcome = Parsed(data: Table) | Uncaught

  /** `data[country].push_back(rec)`: `operator[]` creates an empty sequence for a new key. */
  function PushBack(data: Table, country: string, rec: EmissionData): (r: Table)
    ensures r.Keys == data.Keys + {country}
    ensures country in data ==> r[country] == data[country] + [rec]
    ensures country !in data ==> r[country] == [rec]
    ensures forall k :: k in data && k != country ==> r[k] == data[k]
  {
    data[country := (if country in data then data[country] else []) + [rec]]
  }

  /** What one data line does to the table. */
  datatype RowKind = Skipped | Accepted(country: string, rec: EmissionData) | Throws

  /** The accept/reject rule for one data line. */
  function Classify(line: string, stod: string -> Conversion): RowKind
  {
    var country, year, co2 := CountryField(line), YearField(line), ValueField(line);
    if country == "" || year == "" || co2 == "" then Skipped
    else match stod(co2)
      case InvalidArgument => Skipped
      case OutOfRange => Throws
      case Converted(x) => Accepted(country, EmissionData(year, x))
  }

  /** The outcome of processing the data lines `rows` in order, starting from an empty table. */
  function ParseRows(rows: seq<string>, stod: string -> Conversion): ParseOutcome
    decreases |rows|
  {
    if rows == [] then Parsed(map[])
    else
      match ParseRows(rows[..|rows| - 1], stod)
      case Uncaught => Uncaught
      case Parsed(data) =>
        match Classify(rows[|rows| - 1], stod)
        case Skipped => Parsed(data)
        case Throws => Uncaught
        case Accepted(country, rec) => Parsed(PushBack(data, country, rec))
  }

  /**
   * The outcome of parseCSV on a file: `None` is a file that cannot be
   * opened; otherwise the file's lines, of which the first is the header.
   */
  function ParseFile(file: Option<seq<string>>, stod: string -> Conversion): ParseOutcome
  {
    match file
    case None => Parsed(map[])
    case Some(lines) => if lines == [] then Parsed(map[]) else ParseRows(lines[1..], stod)
  }

  /** parseCSV: skips the header and processes the data lines one by one. */
  method ParseCsv(file: Option<seq<string>>, stod: string -> Conversion) returns (outcome: ParseOutcome)
    ensures outcome == ParseFile(file, stod)
  {
    var data: Table := map[];
    if file.None? {
      return Parsed(data);
    }
    var lines := file.value;
    if lines == [] {
      return Parsed(data);
    }
    var n := 1;
    while n < |lines|
      invariant 1 <= n <= |lines|
      invariant ParseRows(lines[1..n], stod) == Parsed(data)
    {
      assert lines[1..n + 1][..n - 1] == lines[1..n];
      var country, year, co2 := ExtractFields(lines[n]);
      if country != "" && year != "" && co2 != "" {
        match stod(co2)
        case InvalidArgument =>
        case OutOfRange =>
          UncaughtPersists(lines[1..], n, stod);
          assert lines[1..][..n] == lines[1..n + 1];
          return Uncaught;
        case Converted(x) =>
          data := PushBack(data, country, EmissionData(year, x));
      }
      n := n + 1;
    }
    assert lines[1..n] == lines[1..];
    outcome := Parsed(data);
  }

  /** Once a line has thrown, no later line brings the parse back. */
  lemma {:induction false} UncaughtPersists(rows: seq<string>, k: nat, stod: string -> Conversion)
    requires k <= |rows|
    requires ParseRows(rows[..k], stod) == Uncaught
    ensures ParseRows(rows, stod) == Uncaught
    decreases |rows| - k
  {
    if k < |rows| {
      assert rows[..k + 1][..k] == rows[..k];
      UncaughtPersists(rows, k + 1, stod);
    } else {
      assert rows[..k] == rows;
    }
  }

  /**
   * The table invariant: every key is a non-empty country name that maps
   * to a non-empty sequence, and every record has a non-empty year.
   */
  ghost predicate WellFormed(data: Table)
  {
    forall country :: country in data ==>
      country != "" && |data[country]| > 0 &&
      forall j :: 0 <= j < |data[country]| ==> data[country][j].year != ""
  }

  /** A key is only created together with a push_back, so parsing keeps the table well formed. */
  lemma {:induction false} ParsedWellFormed(rows: seq<string>, stod: string -> Conversion)
    requires ParseRows(rows, stod).Parsed?
    ensures WellFormed(ParseRows(rows, stod).data)
    decreases |rows|
  {
    if rows != [] {
      ParsedWellFormed(rows[..|rows| - 1], stod);
    }
  }

  /** The same for a whole file. */
  lemma ParsedFileWellFormed(file: Option<seq<string>>, stod: string -> Conversion)
    requires ParseFile(file, stod).Parsed?
    ensures WellFormed(ParseFile(file, stod).data)
  {
    if file.Some? && file.value != [] {
      ParsedWellFormed(file.value[1..], stod);
    }
  }

  /** The record one line contributes to `country`: one when it is accepted for that country, none otherwise. */
  function Contribution(line: string, country: string, stod: string -> Conversion): seq<EmissionData>
  {
    var here := Classify(line, stod);
    if here.Accepted? && here.country == country then [here.rec] else []
  }

  /** The records that the lines `rows` contribute to `country`, in line order. */
  function RecordsFor(rows: seq<string>, country: string, stod: string -> Conversion): seq<EmissionData>
  {
    if rows == [] then []
    else Contribution(rows[0], country, stod) + RecordsFor(rows[1..], country, stod)
  }

  /** RecordsFor read from the other end: the last line's record comes last. */
  lemma {:induction false} RecordsForSnoc(rows: seq<string>, line: string, country: string, stod: string -> Conversion)
    ensures RecordsFor(rows + [line], country, stod) ==
      RecordsFor(rows, country, stod) + Contribution(line, country, stod)
  {
    if rows == [] {
      assert [line][1..] == [];
    } else {
      assert (rows + [line])[1..] == rows[1..] + [line];
      RecordsForSnoc(rows[1..], line, country, stod);
    }
  }

  /**
   * The table holds exactly the accepted lines' records, each under its
   * own country and in line order: a key is present exactly when some line
   * was accepted for it.
   */
  lemma {:induction false} ParsedRecordsInLineOrder(rows: seq<string>, country: string, stod: string -> Conversion)
    requires ParseRows(rows, stod).Parsed?
    ensures country in ParseRows(rows, stod).data <==> RecordsFor(rows, country, stod) != []
    ensures country in ParseRows(rows, stod).data ==>
      ParseRows(rows, stod).data[country] == RecordsFor(rows, country, stod)
    decreases |rows|
  {
    if rows != [] {
      var init, last := rows[..|rows| - 1], rows[|rows| - 1];
      assert rows == init + [last];
      ParsedRecordsInLineOrder(init, country, stod);
      RecordsForSnoc(init, last, country, stod);
    }
  }

  /** The run ends with an uncaught `out_of_range` exactly when some data line throws. */
  lemma {:induction false} UncaughtIffSomeLineThrows(rows: seq<string>, stod: string -> Conversion)
    ensures ParseRows(rows, stod).Uncaught? <==>
      exists i :: 0 <= i < |rows| && Classify(rows[i], stod).Throws?
    decreases |rows|
  {
    if rows != [] {
      var init := rows[..|rows| - 1];
      UncaughtIffSomeLineThrows(init, stod);
      if ParseRows(rows, stod).Uncaught? && ParseRows(init, stod).Parsed? {
        assert Classify(rows[|rows| - 1], stod).Throws?;
      }
      if exists i :: 0 <= i < |rows| && Classify(rows[i], stod).Throws? {
        var i :| 0 <= i < |rows| && Classify(rows[i], stod).Throws?;
        if i < |rows| - 1 {
          assert init[i] == rows[i];
        }
      }
    }
  }

  /** A line that is skipped (an empty field, or a value that is not a number) leaves the table as it was. */
  lemma SkippedLineChangesNothing(rows: seq<string>, line: string, stod: string -> Conversion)
    requires Classify(line, stod).Skipped?
    ensures ParseRows(rows + [line], stod) == ParseRows(rows, stod)
  {
  }

  /** The header line is never read as data: its contents do not matter. */
  lemma HeaderIgnored(header: string, other: string, rows: seq<string>, stod: string -> Conversion)
    ensures ParseFile(Some([header] + rows), stod) == ParseFile(Some([other] + rows), stod)
    ensures ParseFile(Some([header] + rows), stod) == ParseRows(rows, stod)
  {
  }
}
