/** The per-country window of the dashboard callback: keep the rows of the
    chosen country, sort them by date and take the positional slice from the
    first to the last selected index, both inclusive, with the bound rules of
    a positional slice (negative bounds count from the end, bounds past
    either end are clamped). An unknown country yields an empty window. */
module Selection {
  import opened Table

  /** The rows of one country, in table order: every row of that country
      is kept exactly as often as the table has it, and no other row. */
  function OfCountry(t: seq<CountryDay>, c: string): (r: seq<CountryDay>)
    ensures |r| <= |t|
    ensures forall x :: x in r <==> x in t && x.country == c
    ensures forall x {:trigger multiset(r)[x]} :: multiset(r)[x] == (if x.country == c then multiset(t)[x] else 0)
  {
    if t == [] then []
    else
      assert t == [t[0]] + t[1..];
      (if t[0].country == c then [t[0]] else []) + OfCountry(t[1..], c)
  }

  predicate SortedByDate(s: seq<CountryDay>) {
    forall i, j :: 0 <= i < j < |s| ==> s[i].date <= s[j].date
  }

  predicate StrictlyByDate(s: seq<CountryDay>) {
    forall i, j :: 0 <= i < j < |s| ==> s[i].date < s[j].date
  }

  predicate DistinctDates(s: seq<CountryDay>) {
    forall i, j :: 0 <= i < j < |s| ==> s[i].date != s[j].date
  }

  /** Inserts a row into a date-sorted sequence after the rows of earlier dates. */
  function Insert(x: CountryDay, s: seq<CountryDay>): (r: seq<CountryDay>)
    requires SortedByDate(s)
    ensures SortedByDate(r)
    ensures multiset(r) == multiset(s) + multiset{x}
    ensures forall y :: y in r <==> y == x || y in s
  {
    if s == [] then [x]
    else if x.date <= s[0].date then [x] + s
    else
      var rest := Insert(x, s[1..]);
      assert forall y :: y in rest ==> s[0].date <= y.date;
      assert s == [s[0]] + s[1..];
      [s[0]] + rest
  }

  /** The rows sorted by ascending date. */
  function SortByDate(s: seq<CountryDay>): (r: seq<CountryDay>)
    ensures SortedByDate(r)
    ensures multiset(r) == multiset(s)
    ensures |r| == |s|
    ensures forall y :: y in r <==> y in s
  {
    if s == [] then []
    else
      assert s == [s[0]] + s[1..];
      Insert(s[0], SortByDate(s[1..]))
  }

  /** Sorting a sequence whose dates are distinct orders it strictly by date. */
  lemma {:induction false} SortStrict(s: seq<CountryDay>)
    requires DistinctDates(s)
    ensures StrictlyByDate(SortByDate(s))
  {
    if s != [] {
      var rest := s[1..];
      assert DistinctDates(rest);
      SortStrict(rest);
      forall y | y in SortByDate(rest) ensures y.date != s[0].date {
        var j :| 0 <= j < |rest| && rest[j] == y;
        assert s[j + 1] == y;
      }
      InsertStrict(s[0], SortByDate(rest));
    }
  }

  lemma {:induction false} InsertStrict(x: CountryDay, s: seq<CountryDay>)
    requires StrictlyByDate(s)
    requires forall y :: y in s ==> y.date != x.date
    ensures StrictlyByDate(Insert(x, s))
  {
    if s != [] && x.date > s[0].date {
      assert s[0] in s;
      InsertStrict(x, s[1..]);
      var rest := Insert(x, s[1..]);
      forall y | y in rest ensures s[0].date < y.date {
        if y != x {
          var j :| 0 <= j < |s[1..]| && s[1..][j] == y;
          assert s[j + 1] == y;
        }
      }
    } else if s != [] {
      assert s[0] in s;
    }
  }

  /** Two strictly date-ordered sequences with the same rows are equal: the
      sorted order does not depend on how the sort breaks ties. */
  lemma {:induction false} StrictOrderUnique(s: seq<CountryDay>, t: seq<CountryDay>)
    requires StrictlyByDate(s) && StrictlyByDate(t)
    requires multiset(s) == multiset(t)
    ensures s == t
    decreases |s|
  {
    if s != [] {
      assert |t| == |s| by {
        assert |multiset(s)| == |multiset(t)|;
      }
      StrictHeadsEqual(s, t);
      MultisetOfTail(s);
      MultisetOfTail(t);
      StrictTail(s);
      StrictTail(t);
      StrictOrderUnique(s[1..], t[1..]);
      assert s == [s[0]] + s[1..];
      assert t == [t[0]] + t[1..];
    }
  }

  /** Two non-empty strictly date-ordered sequences with the same rows start
      with the same row: the row of the earliest date. */
  lemma StrictHeadsEqual(s: seq<CountryDay>, t: seq<CountryDay>)
    requires StrictlyByDate(s) && StrictlyByDate(t) && s != [] && t != []
    requires multiset(s) == multiset(t)
    ensures s[0] == t[0]
  {
    assert s[0] in multiset(t);
    assert t[0] in multiset(s);
    var j :| 0 <= j < |t| && t[j] == s[0];
    var i :| 0 <= i < |s| && s[i] == t[0];
    assert s[0].date <= s[i].date;
    assert t[0].date <= t[j].date;
  }

  lemma MultisetOfTail(s: seq<CountryDay>)
    requires s != []
    ensures multiset(s[1..]) == multiset(s) - multiset{s[0]}
  {
    assert s == [s[0]] + s[1..];
  }

  lemma {:induction false} StrictTail(s: seq<CountryDay>)
    requires StrictlyByDate(s) && s != []
    ensures StrictlyByDate(s[1..])
  {
    forall i, j | 0 <= i < j < |s| - 1 ensures s[1..][i].date < s[1..][j].date {
      assert s[1..][i] == s[i + 1] && s[1..][j] == s[j + 1];
    }
  }

  /** A slice bound normalised as a positional slice does: a negative bound
      counts from the end, and the result is clamped to [0, n]. */
  function SliceBound(b: int, n: nat): (r: nat)
    ensures r <= n
    ensures 0 <= b ==> r == Min(b, n)
    ensures b < 0 ==> r == Max(b + n, 0)
  {
    if b < 0 then (if b + n < 0 then 0 else b + n)
    else if b > n then n
    else b
  }

  /** The positional slice s[start:stop]. */
  function Slice<T>(s: seq<T>, start: int, stop: int): (r: seq<T>)
    ensures |r| == Max(0, SliceBound(stop, |s|) - SliceBound(start, |s|))
    ensures forall k :: 0 <= k < |r| ==> r[k] == s[SliceBound(start, |s|) + k]
  {
    var lo := SliceBound(start, |s|);
    var hi := SliceBound(stop, |s|);
    if lo < hi then s[lo..hi] else []
  }

  /** The country's rows sorted by date. */
  function Series(t: seq<CountryDay>, country: string): seq<CountryDay> {
    SortByDate(OfCountry(t, country))
  }

  /** The rows of the country whose sorted positions lie in [first, last]. */
  function Window(t: seq<CountryDay>, country: string, first: int, last: int): (r: seq<CountryDay>)
    ensures forall x :: x in r ==> x in t && x.country == country
    ensures SortedByDate(r)
    ensures |r| <= |OfCountry(t, country)|
  {
    var s := Series(t, country);
    var r := Slice(s, first, last + 1);
    assert forall k :: 0 <= k < |r| ==> r[k] in s;
    r
  }

  /** For non-negative bounds the window holds max(0, min(last + 1, n) - first)
      rows, n being the number of rows of the country. */
  lemma {:induction false} WindowLength(t: seq<CountryDay>, country: string, first: int, last: int)
    requires 0 <= first && 0 <= last + 1
    ensures |Window(t, country, first, last)| == Max(0, Min(last + 1, |OfCountry(t, country)|) - first)
  {
    var s := Series(t, country);
    assert |s| == |OfCountry(t, country)|;
    SliceLength(s, first, last + 1);
    assert Window(t, country, first, last) == Slice(s, first, last + 1);
  }

  /** A slice with non-negative bounds holds max(0, min(stop, n) - start) elements. */
  lemma {:induction false} SliceLength<T>(s: seq<T>, start: int, stop: int)
    requires 0 <= start && 0 <= stop
    ensures |Slice(s, start, stop)| == Max(0, Min(stop, |s|) - start)
  {
    assert SliceBound(start, |s|) == Min(start, |s|);
  }

  /** A window within the series holds last - first + 1 consecutive rows of
      the sorted series, starting at position first. */
  lemma {:induction false} WindowInRange(t: seq<CountryDay>, country: string, first: int, last: int)
    requires 0 <= first <= last < |OfCountry(t, country)|
    ensures |Window(t, country, first, last)| == last - first + 1
    ensures forall k :: 0 <= k <= last - first ==> Window(t, country, first, last)[k] == Series(t, country)[first + k]
  {
    var s := Series(t, country);
    assert |s| == |OfCountry(t, country)|;
    assert SliceBound(first, |s|) == first;
    assert SliceBound(last + 1, |s|) == last + 1;
    assert Window(t, country, first, last) == Slice(s, first, last + 1);
  }

  /** Keys unique per (country, date) give a window in strictly ascending
      date order. */
  lemma {:induction false} WindowStrict(t: seq<CountryDay>, country: string, first: int, last: int)
    requires UniqueKeys(t)
    ensures StrictlyByDate(Window(t, country, first, last))
  {
    var c := OfCountry(t, country);
    OfCountryDistinctDates(t, country);
    SortStrict(c);
  }

  /** The window does not depend on the order of the per-country table: two
      tables with the same rows and unique keys give the same window. */
  lemma {:induction false} WindowIndependentOfOrder(t: seq<CountryDay>, u: seq<CountryDay>, country: string,
                                                    first: int, last: int)
    requires UniqueKeys(t) && UniqueKeys(u)
    requires multiset(t) == multiset(u)
    ensures Window(t, country, first, last) == Window(u, country, first, last)
  {
    var ct, cu := OfCountry(t, country), OfCountry(u, country);
    assert multiset(ct) == multiset(cu) by {
      forall x ensures multiset(ct)[x] == multiset(cu)[x] {
      }
    }
    OfCountryDistinctDates(t, country);
    OfCountryDistinctDates(u, country);
    SortStrict(ct);
    SortStrict(cu);
    StrictOrderUnique(SortByDate(ct), SortByDate(cu));
    assert Series(t, country) == Series(u, country);
  }

  /** In a table with unique keys, one country's rows have distinct dates. */
  lemma {:induction false} OfCountryDistinctDates(t: seq<CountryDay>, country: string)
    requires UniqueKeys(t)
    ensures DistinctDates(OfCountry(t, country))
  {
    if t != [] {
      var rest := t[1..];
      assert UniqueKeys(rest);
      OfCountryDistinctDates(rest, country);
      if t[0].country == country {
        var tail := OfCountry(rest, country);
        forall x | x in tail ensures x.date != t[0].date {
          var k :| 0 <= k < |rest| && rest[k] == x;
          assert t[k + 1] == x;
        }
        PrependDistinct(t[0], tail);
      }
    }
  }

  /** A row whose date none of a sequence's rows has keeps the dates distinct. */
  lemma {:induction false} PrependDistinct(x: CountryDay, s: seq<CountryDay>)
    requires DistinctDates(s)
    requires forall y :: y in s ==> y.date != x.date
    ensures DistinctDates([x] + s)
  {
    var r := [x] + s;
    forall i, j | 0 <= i < j < |r| ensures r[i].date != r[j].date {
      assert r[j] == s[j - 1] && s[j - 1] in s;
      if i > 0 {
        assert r[i] == s[i - 1];
      }
    }
  }
}
