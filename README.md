# Carbon footprint monitoring tool — verified model of its core

The tool downloads the Our World in Data CO2 dataset as a CSV file, builds a
table from country name to that country's yearly emission records, lists the
countries, and for one country typed in by the user computes the average,
the standard deviation, and the highest and lowest emission together with
their years.

This project models the three parts of `carbon_footprint.cpp` that carry
logic, and proves what they do:

- **The table-building pass** (`parseCSV`), in `fields.dfy` and `table.dfy`.
  Each data line is read through an input string stream with six
  `getline(ss, target, ',')` calls. The stream is modelled by value (the
  unread rest, eofbit, failbit). `Getline` follows the standard's rules: a
  stream that is not good leaves the target untouched; otherwise the target
  is cleared and receives the characters up to the next comma.
  `ExtractFields` is proved to yield these fields:
  - the country: the first comma-separated piece;
  - the year: the third piece, or `""` when there are fewer than three;
  - the value: the sixth piece; the last piece when the line has four or
    five pieces; `""` when it has three or fewer.

  `ParseCsv` skips the header line and appends one record per accepted line
  to its country's sequence, as `data[country].push_back` does.
  `ParseFile` is its specification. Lemmas state what the table then holds:
  - exactly the accepted lines' records, in line order, under their own
    country;
  - every key maps to a non-empty sequence;
  - the run ends in an uncaught `out_of_range` exactly when some data line
    has a non-empty country, year and value and its value is out of range.
- **The statistics scan** (`analyzeCountry`), in `stats.dfy`. It does an
  exact key lookup. The scan keeps a running total and strict maximum and
  minimum updates starting from the sentinels -1 and 1e9. The average is the
  total divided by the count. The population variance is the mean squared
  deviation; the printed standard deviation is its square root. `Describes`
  states all of this outright, and `DescribesIsUnique` shows that it
  determines the result, including the earliest year on ties.
- **The run** (`main`), in `countries.dfy` and `run.dfy`. The exit status
  is 1 when the download fails or the table is empty, and 0 otherwise,
  whether or not the country is found. The country list is the table's key
  set, enumerated in `std::string` order without duplicates.

The number conversion `std::stod` is a parameter `stod: string -> Conversion`
with three outcomes: a converted value, `invalid_argument` (caught: the line
is skipped) or `out_of_range` (not caught: the run aborts). Emission values
are `real`.

## Model

| member | source | states |
|---|---|---|
| `LineFields.JoinPieces` | carbon_footprint.cpp:72-77 | splitting a line at every comma loses nothing: joining the pieces with commas gives the line back |
| `LineFields.PiecesJoin` | carbon_footprint.cpp:72-77 | splitting comma-free pieces joined with commas gives back exactly those pieces (no quote handling) |
| `LineFields.Getline` | carbon_footprint.cpp:72-77 | `getline(ss, target, ',')` on a good stream yields the next comma-separated piece and moves past it, and leaves the stream not good after the last piece; on a stream that is not good it leaves the target unchanged |
| `LineFields.GetlineYields` | carbon_footprint.cpp:72-77 | the n-th getline call on a line yields its n-th piece when it exists, and otherwise leaves the target as it was |
| `LineFields.ExtractFields` | carbon_footprint.cpp:69-77 | country is the 1st piece; year the 3rd (or ""); co2 the 6th, or the last piece when the line has 4 or 5, or "" when it has at most 3 |
| `EmissionTable.PushBack` | carbon_footprint.cpp:82 | push_back through `operator[]` adds the key if missing, appends the record at the end of that key's sequence, and leaves every other key and sequence unchanged |
| `EmissionTable.ParseCsv` | carbon_footprint.cpp:58-90 | the loop over the lines computes the specified table: an unopenable or empty file gives the empty table, the header is skipped, and an out-of-range value ends the pass uncaught |
| `EmissionTable.UncaughtPersists` | carbon_footprint.cpp:80-85 | once an `out_of_range` escapes, no later line changes the outcome |
| `EmissionTable.ParsedWellFormed` | carbon_footprint.cpp:79-82 | a key is created only together with a push_back: every key is non-empty and maps to a non-empty sequence, and every year is non-empty |
| `EmissionTable.ParsedFileWellFormed` | carbon_footprint.cpp:58-90 | the same invariant for the table parsed from a whole file |
| `EmissionTable.ParsedRecordsInLineOrder` | carbon_footprint.cpp:68-87 | a country is a key if and only if some line was accepted for it, and its sequence is exactly the accepted lines' records for it, one per line, in line order |
| `EmissionTable.UncaughtIffSomeLineThrows` | carbon_footprint.cpp:79-85 | the pass aborts if and only if some data line has non-empty fields and an out-of-range value |
| `EmissionTable.SkippedLineChangesNothing` | carbon_footprint.cpp:79-85 | a line with an empty country, year or value, or with a value that is not a number, leaves the table unchanged |
| `EmissionTable.HeaderIgnored` | carbon_footprint.cpp:65-66 | the first line never produces a record: its contents do not affect the table |
| `EmissionStats.SumSquaredDeviations` | carbon_footprint.cpp:152-155 | the second loop accumulates the sum of squared deviations from the average |
| `EmissionStats.AnalyzeRecords` | carbon_footprint.cpp:133-156 | average = sum / count; variance = sum of squared deviations / count; max/min are the first strictly largest/smallest record and its year, or the sentinel -1 / 1e9 with year "" when no value beats it |
| `EmissionStats.AnalyzeCountry` | carbon_footprint.cpp:125-132 | statistics are produced if and only if the string is exactly a key, and they are that key's statistics |
| `EmissionStats.DescribesIsUnique` | carbon_footprint.cpp:141-148 | the statistics are determined by the records: on ties the reported year is the earliest one |
| `EmissionStats.AverageBounds` | carbon_footprint.cpp:140-151 | the average lies between any lower and upper bound of the values |
| `EmissionStats.AverageBetweenExtremes` | carbon_footprint.cpp:133-151 | lowest <= average <= highest, sentinels included |
| `EmissionStats.VarianceNonNegative` | carbon_footprint.cpp:152-156 | the variance whose square root is taken is never negative |
| `CountryList.LessIrreflexive` | carbon_footprint.cpp:183 | no string is smaller than itself under `std::string`'s `<` |
| `CountryList.LessTransitive` | carbon_footprint.cpp:183 | `std::string`'s `<` is transitive |
| `CountryList.LessTotal` | carbon_footprint.cpp:183 | any two different strings are ordered by `<` one way or the other |
| `CountryList.NoDuplicates` | carbon_footprint.cpp:183-186 | the set's enumeration holds each country once |
| `CountryList.SortedUnique` | carbon_footprint.cpp:183-186 | a set's enumeration is determined by its elements: the displayed list does not depend on insertion order |
| `CountryList.Insert` | carbon_footprint.cpp:185 | `set::insert` keeps the enumeration strictly increasing and adds exactly the new element |
| `CountryList.Countries` | carbon_footprint.cpp:183-186 | the country list is strictly increasing and holds exactly the table's keys |
| `CarbonFootprint.Run` | carbon_footprint.cpp:167-198 | status 1 on download failure or empty table, 0 otherwise, found or not; abort on an uncaught `out_of_range`; on status 0 the list is the sorted key set and statistics appear exactly when the input is a key |

## Left out

- `WriteCallback` and `downloadDataset` (carbon_footprint.cpp:22-56): a libcurl transfer into a file. Only their boolean outcome is modelled, as the parameter `downloaded` of `Run`.
- Reading the files: the downloaded file is given to `ParseFile`/`ParseCsv` as its sequence of lines, or `None` when it cannot be opened. Splitting the file at line ends is not modelled.
- Console output, the banner, the prompt and `displayCountries` (carbon_footprint.cpp:92-98): pure output. `Run` returns the list that would be displayed. The user's input line is the parameter `selection`.
- `generateReport` and the printing in `analyzeCountry` (carbon_footprint.cpp:100-123, 136-139, 158-164): fixed-width stream formatting of doubles and a file write. `Run` returns the statistics that would be printed and written.
- EmissionStats.AnalyzeRecords: the square root (`std::sqrt`) is not modelled. The statistics carry the population variance, and the printed standard deviation is its square root. `std::pow(x, 2)` is modelled as `x * x`.
- EmissionStats.AnalyzeRecords: `double` arithmetic is modelled on `real`. Rounding, infinities and NaN are not modelled.
- EmissionStats.AnalyzeRecords: the division by a zero count is not modelled. It requires a non-empty sequence. `AnalyzeCountry` is only called on tables whose sequences are all non-empty, which `ParsedFileWellFormed` proves of every parsed table.
- EmissionStats.AnalyzeCountry: requires every sequence in the table to be non-empty. The source does not check this; `ParsedFileWellFormed` proves it of every table that parseCSV builds.
- The internals of `std::stod` (whitespace, trailing characters, hexadecimal, infinities, NaN): they are the parameter `stod`. Only its three outcomes are modelled.
- Aborting through `std::terminate` when `out_of_range` escapes is the outcome `Aborted`. The signal and status the process then ends with are not modelled.
- CountryList.Countries: takes the table's keys in an unspecified order, while `std::map` iteration is in key order. `SortedUnique` shows that the resulting list is the same.
- `std::set` is modelled by the sequence it enumerates, not as a balanced tree. Strings compare by character code, as `std::char_traits<char>` compares bytes as unsigned.
