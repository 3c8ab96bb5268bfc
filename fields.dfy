/**
 * Field extraction of one CSV data line (carbon_footprint.cpp, parseCSV).
 *
 * The line is wrapped in an input string stream and read with successive
 * `getline(ss, target, ',')` calls. The stream is modelled by value: the
 * unread rest of the line and the two state bits that `getline` consults.
 * The point of the model is the rule that a `getline` on a stream that is
 * no longer good leaves its target string as it was.
 */
module LineFields {

  /** An input string stream over one line. */
  datatype LineStream = LineStream(rest: string, eof: bool, fail: bool)
  {
    /** Neither eofbit nor failbit is set: the sentry of the next read succeeds. */
    predicate Good() { !eof && !fail }
  }

  /** A fresh stream over `line`, as `std::istringstream ss(line)` creates it. */
  function Open(line: string): LineStream
  {
    LineStream(line, false, false)
  }

  /** The index of the first ',' in `s`, or `|s|` when there is none. */
  function FirstComma(s: string): (i: nat)
    ensures i <= |s|
    ensures i < |s| ==> s[i] == ','
  {
    if s == [] || s[0] == ',' then 0 else 1 + FirstComma(s[1..])
  }

  /** The comma-separated pieces of `s`; there is no quote handling. */
  function Pieces(s: string): (ps: seq<string>)
    ensures |ps| >= 1
    decreases |s|
  {
    var i := FirstComma(s);
    if i == |s| then [s] else [s[..i]] + Pieces(s[i + 1..])
  }

  /** The pieces joined back together with ',' between them. */
  function Join(ps: seq<string>): string
    requires |ps| >= 1
  {
    if |ps| == 1 then ps[0] else ps[0] + "," + Join(ps[1..])
  }

  /** Splitting loses nothing: joining the pieces gives the line back. */
  lemma {:induction false} JoinPieces(s: string)
    ensures Join(Pieces(s)) == s
    decreases |s|
  {
    var i := FirstComma(s);
    if i < |s| {
      var head, tail := s[..i], s[i + 1..];
      var rest := Pieces(tail);
      var ps := [head] + rest;
      assert Pieces(s) == ps;
      assert ps[0] == head && ps[1..] == rest;
      JoinPieces(tail);
      assert Join(ps) == head + "," + tail;
      assert s == head + "," + tail;
    }
  }

  /** Splitting a join of comma-free pieces gives exactly those pieces. */
  lemma {:induction false} PiecesJoin(ps: seq<string>)
    requires |ps| >= 1
    requires forall k :: 0 <= k < |ps| ==> ',' !in ps[k]
    ensures Pieces(Join(ps)) == ps
  {
    if |ps| == 1 {
      assert FirstComma(ps[0]) == |ps[0]|;
    } else {
      var s := Join(ps);
      var tail := Join(ps[1..]);
      assert s == ps[0] + ("," + tail);
      assert FirstComma(s) == |ps[0]| by {
        FirstCommaAfterPrefix(ps[0], "," + tail);
      }
      assert s[..|ps[0]|] == ps[0];
      assert s[|ps[0]| + 1..] == tail;
      PiecesJoin(ps[1..]);
    }
  }

  /** A comma-free prefix is skipped by FirstComma. */
  lemma {:induction false} FirstCommaAfterPrefix(p: string, t: string)
    requires ',' !in p
    requires |t| >= 1 && t[0] == ','
    ensures FirstComma(p + t) == |p|
  {
    if p != [] {
      assert (p + t)[1..] == p[1..] + t;
      FirstCommaAfterPrefix(p[1..], t);
    }
  }

  /**
   * `std::getline(st, target, ',')`: returns the new stream and the new target.
   * When the stream is not good the sentry fails, failbit is set and the
   * target is left untouched. Otherwise the target is cleared and receives
   * the characters up to the next ',' (which is consumed); reaching the end
   * of the line sets eofbit, and failbit as well when nothing was extracted.
   */
  function Getline(st: LineStream, target: string): (r: (LineStream, string))
    ensures !st.Good() ==> !r.0.Good() && r.1 == target
    ensures st.Good() ==> r.1 == Pieces(st.rest)[0]
    ensures st.Good() && |Pieces(st.rest)| > 1 ==> r.0.Good() && Pieces(r.0.rest) == Pieces(st.rest)[1..]
    ensures st.Good() && |Pieces(st.rest)| == 1 ==> !r.0.Good()
  {
    if !st.Good() then (st.(fail := true), target)
    else
      var i := FirstComma(st.rest);
      if i < |st.rest| then (LineStream(st.rest[i + 1..], false, false), st.rest[..i])
      else (LineStream([], true, st.rest == []), st.rest)
  }

  /** The pieces that the coming `getline` calls on `st` will still deliver. */
  ghost predicate Yields(st: LineStream, ps: seq<string>)
  {
    if st.Good() then Pieces(st.rest) == ps else ps == []
  }

  /** `ps` without its first `n` elements, or empty when it has fewer. */
  function Drop(ps: seq<string>, n: nat): seq<string>
  {
    if n <= |ps| then ps[n..] else []
  }

  /** One getline consumes one piece and delivers it, or delivers nothing once the pieces ran out. */
  lemma GetlineYields(st: LineStream, target: string, ps: seq<string>, n: nat)
    requires Yields(st, Drop(ps, n))
    ensures Yields(Getline(st, target).0, Drop(ps, n + 1))
    ensures Getline(st, target).1 == if n < |ps| then ps[n] else target
  {
  }

  /** The country: the first piece. */
  function CountryField(line: string): string
  {
    Pieces(line)[0]
  }

  /** The year: the third piece, or "" when the line has fewer than three. */
  function YearField(line: string): string
  {
    var ps := Pieces(line);
    if |ps| >= 3 then ps[2] else ""
  }

  /**
   * The emission value: the sixth piece; the last piece when the line has
   * four or five (the failing getline calls keep the last one read); ""
   * when it has three or fewer.
   */
  function ValueField(line: string): string
  {
    var ps := Pieces(line);
    if |ps| >= 6 then ps[5] else if |ps| >= 4 then ps[|ps| - 1] else ""
  }

  /** What `co2` holds after `k` of its three getline calls, the fourth piece being the first it can read. */
  function ValueAfter(ps: seq<string>, k: nat): string
  {
    if k == 0 then ""
    else if 3 + k <= |ps| then ps[2 + k]
    else if |ps| > 3 then ps[|ps| - 1]
    else ""
  }

  /**
   * Reads country, code, year and then three times co2, as parseCSV does
   * for each data line.
   */
  method ExtractFields(line: string) returns (country: string, year: string, co2: string)
    ensures country == CountryField(line)
    ensures year == YearField(line)
    ensures co2 == ValueField(line)
  {
    ghost var ps := Pieces(line);
    var code: string;
    country, code, year, co2 := "", "", "", "";
    var ss := Open(line);
    assert Yields(ss, Drop(ps, 0));
    GetlineYields(ss, country, ps, 0);
    var r := Getline(ss, country);
    ss, country := r.0, r.1;
    GetlineYields(ss, code, ps, 1);
    r := Getline(ss, code);
    ss, code := r.0, r.1;
    GetlineYields(ss, year, ps, 2);
    r := Getline(ss, year);
    ss, year := r.0, r.1;
    var i := 0;
    while i < 3
      invariant 0 <= i <= 3
      invariant Yields(ss, Drop(ps, 3 + i))
      invariant co2 == ValueAfter(ps, i)
    {
      GetlineYields(ss, co2, ps, 3 + i);
      ValueAfterStep(ps, i);
      r := Getline(ss, co2);
      ss, co2 := r.0, r.1;
      i := i + 1;
    }
  }

  /** One more getline into co2 either reads the next piece or keeps the value. */
  lemma ValueAfterStep(ps: seq<string>, i: nat)
    ensures ValueAfter(ps, i + 1) == if 3 + i < |ps| then ps[3 + i] else ValueAfter(ps, i)
  {
  }

  /** Four pieces: the value is the last one. */
  method FourPiecesExample()
  {
    var pieces := ["Chad", "TCD", "1990", "0.2"];
    PiecesJoin(pieces);
    var line := Join(pieces);
    // line is "Chad,TCD,1990,0.2"
    assert Pieces(line) == pieces;
    var country, year, co2 := ExtractFields(line);
    assert country == "Chad" && year == "1990" && co2 == "0.2";
  }

  /** Three pieces: no value at all. */
  method ThreePiecesExample()
  {
    var pieces := ["Chad", "TCD", "1990"];
    PiecesJoin(pieces);
    var line := Join(pieces);
    // line is "Chad,TCD,1990"
    assert Pieces(line) == pieces;
    var country, year, co2 := ExtractFields(line);
    assert country == "Chad" && year == "1990" && co2 == "";
  }

  /** Seven pieces: the value is the sixth, whatever follows it. */
  method SevenPiecesExample()
  {
    var pieces := ["Peru", "PER", "2001", "26", "0.1", "29.5", "3.2"];
    PiecesJoin(pieces);
    var line := Join(pieces);
    // line is "Peru,PER,2001,26,0.1,29.5,3.2"
    assert Pieces(line) == pieces;
    var country, year, co2 := ExtractFields(line);
    assert country == "Peru" && year == "2001" && co2 == "29.5";
  }
}
