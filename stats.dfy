/**
 * The statistics scan of one country's records (carbon_footprint.cpp,
 * analyzeCountry): a running total, a strict maximum and a strict minimum
 * scan that remember the year, started from the sentinels -1 and 1e9, the
 * average, and the population variance.
 */
module EmissionStats {
  import opened Options
  import opened EmissionTable

  /** The starting value of max_emission. */
  const MAX_SENTINEL: real := -1.0
  /** The starting value of min_emission (1e9). */
  const MIN_SENTINEL: real := 1000000000.0

  /**
   * What analyzeCountry computes for one country. `variance` is the
   * population variance, whose square root is the printed standard deviation.
   */
  datatype Statistics = Statistics(
    average: real,
    variance: real,
    maxEmission: real,
    maxYear: string,
    minEmission: real,
    minYear: string)

  /** The sum of the emission values. */
  function Sum(es: seq<EmissionData>): real
  {
    if es == [] then 0.0 else Sum(es[..|es| - 1]) + es[|es| - 1].emissions
  }

  /** The sum of the squared deviations of the emission values from `mean`. */
  function SquaredDeviations(es: seq<EmissionData>, mean: real): real
  {
    if es == [] then 0.0
    else
      var d := es[|es| - 1].emissions - mean;
      SquaredDeviations(es[..|es| - 1], mean) + d * d
  }

  /** Index `k` holds the largest value, and no earlier index holds it. */
  ghost predicate IsFirstMax(es: seq<EmissionData>, k: int)
  {
    && 0 <= k < |es|
    && (forall j :: 0 <= j < |es| ==> es[j].emissions <= es[k].emissions)
    && (forall j :: 0 <= j < k ==> es[j].emissions < es[k].emissions)
  }

  /** Index `k` holds the smallest value, and no earlier index holds it. */
  ghost predicate IsFirstMin(es: seq<EmissionData>, k: int)
  {
    && 0 <= k < |es|
    && (forall j :: 0 <= j < |es| ==> es[k].emissions <= es[j].emissions)
    && (forall j :: 0 <= j < k ==> es[k].emissions < es[j].emissions)
  }

  /**
   * What the maximum scan leaves behind: the first largest record when
   * some value exceeds the sentinel -1, and otherwise the sentinel with an
   * empty year.
   */
  ghost predicate MaxReported(es: seq<EmissionData>, value: real, year: string)
  {
    if exists i :: 0 <= i < |es| && es[i].emissions > MAX_SENTINEL then
      exists k :: IsFirstMax(es, k) && value == es[k].emissions && year == es[k].year
    else
      value == MAX_SENTINEL && year == ""
  }

  /**
   * What the minimum scan leaves behind: the first smallest record when
   * some value is below the sentinel 1e9, and otherwise the sentinel with
   * an empty year.
   */
  ghost predicate MinReported(es: seq<EmissionData>, value: real, year: string)
  {
    if exists i :: 0 <= i < |es| && es[i].emissions < MIN_SENTINEL then
      exists k :: IsFirstMin(es, k) && value == es[k].emissions && year == es[k].year
    else
      value == MIN_SENTINEL && year == ""
  }

  /** `st` is the statistics of the record sequence `es`, which is not empty. */
  ghost predicate Describes(es: seq<EmissionData>, st: Statistics)
  {
    && |es| > 0
    && st.average == Sum(es) / (|es| as real)
    && st.variance == SquaredDeviations(es, st.average) / (|es| as real)
    && MaxReported(es, st.maxEmission, st.maxYear)
    && MinReported(es, st.minEmission, st.minYear)
  }

  /**
   * The state of the maximum scan after the first `n` records: `at` is the
   * index of the record that last replaced the maximum, or -1 while the
   * sentinel is still in place.
   */
  ghost predicate MaxScan(es: seq<EmissionData>, n: int, at: int, value: real, year: string)
  {
    && 0 <= n <= |es|
    && -1 <= at < n
    && (at == -1 ==> value == MAX_SENTINEL && year == "" && forall j :: 0 <= j < n ==> es[j].emissions <= MAX_SENTINEL)
    && (at >= 0 ==>
          && value == es[at].emissions && year == es[at].year && value > MAX_SENTINEL
          && (forall j :: 0 <= j < n ==> es[j].emissions <= value)
          && (forall j :: 0 <= j < at ==> es[j].emissions < value))
  }

  /** The same for the minimum scan. */
  ghost predicate MinScan(es: seq<EmissionData>, n: int, at: int, value: real, year: string)
  {
    && 0 <= n <= |es|
    && -1 <= at < n
    && (at == -1 ==> value == MIN_SENTINEL && year == "" && forall j :: 0 <= j < n ==> es[j].emissions >= MIN_SENTINEL)
    && (at >= 0 ==>
          && value == es[at].emissions && year == es[at].year && value < MIN_SENTINEL
          && (forall j :: 0 <= j < n ==> value <= es[j].emissions)
          && (forall j :: 0 <= j < at ==> value < es[j].emissions))
  }

  /** A finished maximum scan reports what MaxReported describes. */
  lemma MaxScanDone(es: seq<EmissionData>, at: int, value: real, year: string)
    requires MaxScan(es, |es|, at, value, year)
    ensures MaxReported(es, value, year)
  {
  }

  /** A finished minimum scan reports what MinReported describes. */
  lemma MinScanDone(es: seq<EmissionData>, at: int, value: real, year: string)
    requires MinScan(es, |es|, at, value, year)
    ensures MinReported(es, value, year)
  {
  }

  /** Unfolds SquaredDeviations by its last record. */
  lemma SquaredDeviationsSnoc(es: seq<EmissionData>, mean: real)
    requires |es| > 0
    ensures SquaredDeviations(es, mean) ==
      SquaredDeviations(es[..|es| - 1], mean) + (es[|es| - 1].emissions - mean) * (es[|es| - 1].emissions - mean)
  {
  }

  /** The second loop of analyzeCountry: accumulates the squared deviations from `mean`. */
  method SumSquaredDeviations(es: seq<EmissionData>, mean: real) returns (variance: real)
    ensures variance == SquaredDeviations(es, mean)
  {
    variance := 0.0;
    var i := 0;
    while i < |es|
      invariant 0 <= i <= |es|
      invariant variance == SquaredDeviations(es[..i], mean)
    {
      var d := es[i].emissions - mean;
      SquaredDeviationsSnoc(es[..i + 1], mean);
      assert es[..i + 1][..i] == es[..i];
      variance := variance + d * d;
      i := i + 1;
    }
    assert es[..i] == es;
  }

  /** The two loops of analyzeCountry over one country's records. */
  method AnalyzeRecords(es: seq<EmissionData>) returns (st: Statistics)
    requires |es| > 0
    ensures Describes(es, st)
  {
    var total, maxEmission, minEmission := 0.0, MAX_SENTINEL, MIN_SENTINEL;
    var maxYear, minYear := "", "";
    ghost var maxAt, minAt := -1, -1;
    var i := 0;
    while i < |es|
      invariant 0 <= i <= |es|
      invariant total == Sum(es[..i])
      invariant MaxScan(es, i, maxAt, maxEmission, maxYear)
      invariant MinScan(es, i, minAt, minEmission, minYear)
    {
      assert es[..i + 1][..i] == es[..i];
      total := total + es[i].emissions;
      if es[i].emissions > maxEmission {
        maxEmission, maxYear := es[i].emissions, es[i].year;
        maxAt := i;
      }
      if es[i].emissions < minEmission {
        minEmission, minYear := es[i].emissions, es[i].year;
        minAt := i;
      }
      i := i + 1;
    }
    assert es[..i] == es;
    MaxScanDone(es, maxAt, maxEmission, maxYear);
    MinScanDone(es, minAt, minEmission, minYear);
    var average := total / (|es| as real);
    var variance := SumSquaredDeviations(es, average);
    st := Statistics(average, variance / (|es| as real), maxEmission, maxYear, minEmission, minYear);
  }

  /**
   * analyzeCountry: an exact lookup of `country` in the table, then the
   * statistics of its records; `None` when the key is missing.
   */
  method AnalyzeCountry(country: string, data: Table) returns (result: Option<Statistics>)
    requires forall k :: k in data ==> |data[k]| > 0
    ensures result.Some? <==> country in data
    ensures result.Some? ==> Describes(data[country], result.value)
  {
    if country !in data {
      return None;
    }
    var st := AnalyzeRecords(data[country]);
    result := Some(st);
  }

  /**
   * The statistics are determined by the records: in particular, on ties
   * the year reported for the maximum and for the minimum is the earliest one.
   */
  lemma DescribesIsUnique(es: seq<EmissionData>, s1: Statistics, s2: Statistics)
    ensures Describes(es, s1) && Describes(es, s2) ==> s1 == s2
  {
  }

  /** A sum of values between `lo` and `hi` lies between `n * lo` and `n * hi`. */
  lemma {:induction false} SumBounds(es: seq<EmissionData>, lo: real, hi: real)
    requires forall j :: 0 <= j < |es| ==> lo <= es[j].emissions <= hi
    ensures (|es| as real) * lo <= Sum(es) <= (|es| as real) * hi
  {
    if es != [] {
      var init := es[..|es| - 1];
      assert forall j :: 0 <= j < |init| ==> init[j] == es[j];
      SumBounds(init, lo, hi);
      assert (|es| as real) * lo == (|init| as real) * lo + lo;
      assert (|es| as real) * hi == (|init| as real) * hi + hi;
    }
  }

  /** The average lies between any lower and upper bound of the values. */
  lemma AverageBounds(es: seq<EmissionData>, lo: real, hi: real)
    requires |es| > 0
    requires forall j :: 0 <= j < |es| ==> lo <= es[j].emissions <= hi
    ensures lo <= Sum(es) / (|es| as real) <= hi
  {
    SumBounds(es, lo, hi);
    var n := |es| as real;
    assert Sum(es) / n * n == Sum(es);
  }

  /**
   * The reported lowest value, the average and the reported highest value
   * are in order, sentinels included: when no value beats -1 every value is
   * at most -1, and when none is below 1e9 every value is at least 1e9.
   */
  lemma AverageBetweenExtremes(es: seq<EmissionData>, st: Statistics)
    requires Describes(es, st)
    ensures st.minEmission <= st.average <= st.maxEmission
  {
    if exists i :: 0 <= i < |es| && es[i].emissions > MAX_SENTINEL {
      var kMax :| IsFirstMax(es, kMax) && st.maxEmission == es[kMax].emissions;
    }
    if exists i :: 0 <= i < |es| && es[i].emissions < MIN_SENTINEL {
      var kMin :| IsFirstMin(es, kMin) && st.minEmission == es[kMin].emissions;
    }
    AverageBounds(es, st.minEmission, st.maxEmission);
  }

  /** A sum of squares is never negative. */
  lemma {:induction false} SquaredDeviationsNonNegative(es: seq<EmissionData>, mean: real)
    ensures SquaredDeviations(es, mean) >= 0.0
  {
    if es != [] {
      SquaredDeviationsNonNegative(es[..|es| - 1], mean);
      var d := es[|es| - 1].emissions - mean;
      assert d * d >= 0.0;
    }
  }

  /** The population variance is never negative, so its square root exists. */
  lemma VarianceNonNegative(es: seq<EmissionData>, st: Statistics)
    requires Describes(es, st)
    ensures st.variance >= 0.0
  {
    SquaredDeviationsNonNegative(es, st.average);
  }

  // What a caller can conclude from AnalyzeRecords' contract alone.

  /** Three records: average 20, population variance 200/3, highest 30 and lowest 10. */
  method ThreeRecordsExample()
  {
    var es := [EmissionData("1990", 10.0), EmissionData("1991", 20.0), EmissionData("1992", 30.0)];
    var st := AnalyzeRecords(es);
    assert es[..1][..0] == [] && es[..2][..1] == es[..1] && es[..3] == es;
    assert Sum(es[..1]) == 10.0;
    assert Sum(es[..2]) == 30.0;
    assert st.average == 20.0;
    assert SquaredDeviations(es[..1], 20.0) == 100.0;
    assert SquaredDeviations(es[..2], 20.0) == 100.0;
    assert st.variance == 200.0 / 3.0;
    assert IsFirstMax(es, 2) && IsFirstMin(es, 0);
    assert es[2].emissions > MAX_SENTINEL && es[0].emissions < MIN_SENTINEL;
    assert st.maxEmission == 30.0 && st.maxYear == "1992";
    assert st.minEmission == 10.0 && st.minYear == "1990";
  }

  /** A tie keeps the earlier year. */
  method TieExample()
  {
    var tie := [EmissionData("2000", 5.0), EmissionData("2001", 5.0)];
    var st := AnalyzeRecords(tie);
    assert tie[0].emissions > MAX_SENTINEL && tie[0].emissions < MIN_SENTINEL;
    assert st.maxYear == "2000" && st.minYear == "2000";
  }

  /** A single record is its own average, maximum and minimum, with no spread. */
  method SingleRecordExample()
  {
    var one := [EmissionData("1999", 42.0)];
    var st := AnalyzeRecords(one);
    assert one[..0] == [];
    assert st.average == 42.0 && st.variance == 0.0;
    assert one[0].emissions > MAX_SENTINEL && one[0].emissions < MIN_SENTINEL;
    assert st.maxEmission == 42.0 && st.maxYear == "1999" && st.minEmission == 42.0 && st.minYear == "1999";
  }

  /** Values at or below -1 never replace the maximum's sentinel; values at or above 1e9 never replace the minimum's. */
  method SentinelExample()
  {
    var negative := [EmissionData("2010", -3.0)];
    var st := AnalyzeRecords(negative);
    assert st.maxEmission == MAX_SENTINEL && st.maxYear == "";
    assert negative[0].emissions < MIN_SENTINEL;
    assert st.minEmission == -3.0 && st.minYear == "2010";
    var huge := [EmissionData("2011", 2000000000.0)];
    st := AnalyzeRecords(huge);
    assert st.minEmission == MIN_SENTINEL && st.minYear == "";
  }
}
