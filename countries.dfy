/**
 * The country list of main (carbon_footprint.cpp): a `std::set<std::string>`
 * filled with the table's keys. The set is modelled by the sequence it
 * enumerates, which is strictly increasing under `std::string`'s
 * `operator<`: lexicographic comparison by character code.
 */
module CountryList {
  import opened EmissionTable

  /** `a < b` for two strings: a proper prefix is smaller, otherwise the first differing character decides. */
  predicate Less(a: string, b: string)
  {
    if a == [] then b != []
    else if b == [] then false
    else a[0] < b[0] || (a[0] == b[0] && Less(a[1..], b[1..]))
  }

  /** No string is smaller than itself. */
  lemma {:induction false} LessIrreflexive(a: string)
    ensures !Less(a, a)
  {
    if a != [] {
      LessIrreflexive(a[1..]);
    }
  }

  /** The order is transitive. */
  lemma {:induction false} LessTransitive(a: string, b: string, c: string)
    requires Less(a, b) && Less(b, c)
    ensures Less(a, c)
  {
    if a != [] && b != [] && c != [] && a[0] == b[0] && b[0] == c[0] {
      LessTransitive(a[1..], b[1..], c[1..]);
    }
  }

  /** Any two different strings are ordered one way or the other. */
  lemma {:induction false} LessTotal(a: string, b: string)
    ensures a == b || Less(a, b) || Less(b, a)
  {
    if a != [] && b != [] && a[0] == b[0] {
      LessTotal(a[1..], b[1..]);
      if a[1..] == b[1..] {
        assert a == [a[0]] + a[1..] && b == [b[0]] + b[1..];
      }
    }
  }

  /** The enumeration order of a `std::set<std::string>`: increasing, so without duplicates. */
  predicate StrictlySorted(s: seq<string>)
  {
    forall i, j :: 0 <= i < j < |s| ==> Less(s[i], s[j])
  }

  /** A strictly sorted sequence holds each string at most once. */
  lemma NoDuplicates(s: seq<string>)
    requires StrictlySorted(s)
    ensures forall i, j :: 0 <= i < |s| && 0 <= j < |s| && i != j ==> s[i] != s[j]
  {
    forall i, j | 0 <= i < |s| && 0 <= j < |s| && i != j
      ensures s[i] != s[j]
    {
      LessIrreflexive(s[i]);
    }
  }

  /** Two sequences with the same elements are both empty or both non-empty. */
  lemma SameElementsBothEmpty(s: seq<string>, t: seq<string>)
    requires forall x :: x in s <==> x in t
    ensures s == [] <==> t == []
  {
    if s != [] {
      assert s[0] in t;
    }
    if t != [] {
      assert t[0] in s;
    }
  }

  /** Two strictly sorted sequences with the same elements are the same sequence. */
  lemma {:induction false} SortedUnique(s: seq<string>, t: seq<string>)
    requires StrictlySorted(s) && StrictlySorted(t)
    requires forall x :: x in s <==> x in t
    ensures s == t
  {
    SameElementsBothEmpty(s, t);
    if s != [] {
      // the first element of each is the least element of both
      if s[0] != t[0] {
        assert s[0] in t;
        assert t[0] in s;
        var i :| 0 <= i < |t| && t[i] == s[0];
        var j :| 0 <= j < |s| && s[j] == t[0];
        assert i > 0 && j > 0;
        assert Less(t[0], s[0]) && Less(s[0], t[0]);
        LessTransitive(s[0], t[0], s[0]);
        LessIrreflexive(s[0]);
        assert false;
      }
      forall x
        ensures x in s[1..] <==> x in t[1..]
      {
        if x in s[1..] {
          var k :| 1 <= k < |s| && s[k] == x;
          LessIrreflexive(x);
          assert x != t[0] && x in t;
          var m :| 0 <= m < |t| && t[m] == x;
          assert t[1..][m - 1] == x;
        }
        if x in t[1..] {
          var k :| 1 <= k < |t| && t[k] == x;
          LessIrreflexive(x);
          assert x != s[0] && x in s;
          var m :| 0 <= m < |s| && s[m] == x;
          assert s[1..][m - 1] == x;
        }
      }
      SortedUnique(s[1..], t[1..]);
    }
  }

  /** `countries.insert(x)`: adds `x` at its place unless it is already there. */
  method Insert(s: seq<string>, x: string) returns (r: seq<string>)
    requires StrictlySorted(s)
    ensures StrictlySorted(r)
    ensures forall y :: y in r <==> y in s || y == x
  {
    var i := 0;
    while i < |s| && Less(s[i], x)
      invariant 0 <= i <= |s|
      invariant forall k :: 0 <= k < i ==> Less(s[k], x)
    {
      i := i + 1;
    }
    if i < |s| && s[i] == x {
      return s;
    }
    if i < |s| {
      LessTotal(s[i], x);
      forall k | i < k < |s|
        ensures Less(x, s[k])
      {
        LessTransitive(x, s[i], s[k]);
      }
    }
    r := s[..i] + [x] + s[i..];
    assert forall k :: 0 <= k < |r| ==> r[k] == (if k < i then s[k] else if k == i then x else s[k - 1]);
  }

  /** The loop of main that inserts every key of the table into the country set. */
  method Countries(data: Table) returns (countries: seq<string>)
    ensures StrictlySorted(countries)
    ensures forall k :: k in countries <==> k in data
  {
    countries := [];
    var rest := data.Keys;
    while rest != {}
      invariant rest <= data.Keys
      invariant StrictlySorted(countries)
      invariant forall k :: k in countries <==> k in data && k !in rest
      decreases rest
    {
      var k :| k in rest;
      countries := Insert(countries, k);
      rest := rest - {k};
    }
  }
}
