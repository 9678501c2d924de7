/** Daily figures from cumulative counts. Within the selected window each
    metric's daily value is its difference from the previous row; the first
    row, which has no previous row, keeps its own cumulative value. Nothing
    is clamped, so a cumulative count that falls gives a negative day. */
module Deltas {
  import opened Table

  /** The sum of a sequence. */
  function Sum(s: seq<int>): int {
    if s == [] then 0 else Sum(s[..|s| - 1]) + s[|s| - 1]
  }

  /** Daily values from cumulative ones: differences of consecutive values,
      the first value standing for itself. */
  function Diff(cum: seq<int>): (d: seq<int>)
    ensures |d| == |cum|
    ensures |cum| > 0 ==> d[0] == cum[0]
    ensures forall i {:trigger d[i]} :: 0 < i < |cum| ==> d[i] == cum[i] - cum[i - 1]
  {
    seq(|cum|, i requires 0 <= i < |cum| => if i == 0 then cum[0] else cum[i] - cum[i - 1])
  }

  /** Running totals: position i holds the sum of the first i + 1 values. */
  function Running(d: seq<int>): (c: seq<int>)
    ensures |c| == |d|
  {
    seq(|d|, i requires 0 <= i < |d| => Sum(d[..i + 1]))
  }

  /** The sum of a prefix one longer is the shorter sum plus the new value. */
  lemma SumPrefixStep(s: seq<int>, i: nat)
    requires i < |s|
    ensures Sum(s[..i + 1]) == Sum(s[..i]) + s[i]
  {
    assert s[..i + 1][..i] == s[..i];
  }

  /** The daily values of a window add up, up to any row, to that row's
      cumulative value. */
  lemma {:induction false} DiffPrefixSum(cum: seq<int>, i: nat)
    requires i < |cum|
    ensures Sum(Diff(cum)[..i + 1]) == cum[i]
  {
    var d := Diff(cum);
    SumPrefixStep(d, i);
    if i == 0 {
      assert d[..0] == [];
    } else {
      DiffPrefixSum(cum, i - 1);
    }
  }

  /** Running totals undo daily differences. */
  lemma RunningOfDiff(cum: seq<int>)
    ensures Running(Diff(cum)) == cum
  {
    forall i | 0 <= i < |cum| ensures Running(Diff(cum))[i] == cum[i] {
      DiffPrefixSum(cum, i);
    }
  }

  /** Daily differences undo running totals. */
  lemma DiffOfRunning(d: seq<int>)
    ensures Diff(Running(d)) == d
  {
    var c := Running(d);
    forall i | 0 <= i < |d| ensures Diff(c)[i] == d[i] {
      SumPrefixStep(d, i);
      if i == 0 {
        assert d[..0] == [];
        assert c[0] == Sum(d[..1]);
      } else {
        assert c[i] == Sum(d[..i + 1]);
        assert c[i - 1] == Sum(d[..i]);
      }
    }
  }

  /** A window that starts after the first row of the series agrees with the
      series' own daily values except on its first row, which is inflated by
      the cumulative value of the row before the window. */
  lemma {:induction false} DiffOfLaterWindow(cum: seq<int>, a: nat)
    requires 0 < a < |cum|
    ensures Diff(cum[a..])[0] == Diff(cum)[a] + cum[a - 1]
    ensures forall k :: 0 < k < |cum| - a ==> Diff(cum[a..])[k] == Diff(cum)[a + k]
  {
    var w := cum[a..];
    var dw := Diff(w);
    var dc := Diff(cum);
    assert dw[0] == w[0] == cum[a];
    forall k | 0 < k < |cum| - a ensures dw[k] == dc[a + k] {
      assert w[k] == cum[a + k] && w[k - 1] == cum[a + k - 1];
    }
  }

  /** Four days of cumulative confirmed cases 10, 15, 13, 20 give the daily
      values 10, 5, -2, 7: the fall is kept as a negative day. */
  lemma FallingCountKept()
    ensures Diff([10, 15, 13, 20]) == [10, 5, -2, 7]
  {
  }

  /** One metric's cumulative column of a table. */
  function MetricColumn(rows: seq<CountryDay>, m: Metric): (c: seq<int>)
    ensures |c| == |rows|
    ensures forall i {:trigger c[i]} :: 0 <= i < |rows| ==> c[i] == Get(rows[i].counts, m)
  {
    seq(|rows|, i requires 0 <= i < |rows| => Get(rows[i].counts, m))
  }

  /** A window row with its three daily values added. */
  datatype DailyRow = DailyRow(day: CountryDay, daily: Counts)

  /** One metric's daily column. */
  function DailyColumn(rows: seq<DailyRow>, m: Metric): (c: seq<int>)
    ensures |c| == |rows|
    ensures forall i {:trigger c[i]} :: 0 <= i < |rows| ==> c[i] == Get(rows[i].daily, m)
  {
    seq(|rows|, i requires 0 <= i < |rows| => Get(rows[i].daily, m))
  }

  /** Window rows paired with given daily columns. */
  function Assemble(w: seq<CountryDay>, c: seq<int>, d: seq<int>, v: seq<int>): (r: seq<DailyRow>)
    requires |c| == |w| && |d| == |w| && |v| == |w|
    ensures |r| == |w|
    ensures forall i {:trigger r[i]} :: 0 <= i < |w| ==> r[i] == DailyRow(w[i], Counts(c[i], d[i], v[i]))
  {
    if w == [] then []
    else [DailyRow(w[0], Counts(c[0], d[0], v[0]))] + Assemble(w[1..], c[1..], d[1..], v[1..])
  }

  lemma AssembleColumns(w: seq<CountryDay>, c: seq<int>, d: seq<int>, v: seq<int>)
    requires |c| == |w| && |d| == |w| && |v| == |w|
    ensures DailyColumn(Assemble(w, c, d, v), Confirmed) == c
    ensures DailyColumn(Assemble(w, c, d, v), Deaths) == d
    ensures DailyColumn(Assemble(w, c, d, v), Recovered) == v
  {
  }

  lemma DerivedColumns(w: seq<CountryDay>)
    ensures forall m :: DailyColumn(Assemble(w, Diff(MetricColumn(w, Confirmed)), Diff(MetricColumn(w, Deaths)),
                                              Diff(MetricColumn(w, Recovered))), m)
                        == Diff(MetricColumn(w, m))
  {
    var c := Diff(MetricColumn(w, Confirmed));
    var d := Diff(MetricColumn(w, Deaths));
    var v := Diff(MetricColumn(w, Recovered));
    AssembleColumns(w, c, d, v);
    forall m ensures DailyColumn(Assemble(w, c, d, v), m) == Diff(MetricColumn(w, m)) {
      match m
      case Confirmed =>
      case Deaths =>
      case Recovered =>
    }
  }

  /** The window with daily confirmed, deaths and recovered columns added,
      each computed from its own cumulative column. */
  function Derive(w: seq<CountryDay>): (r: seq<DailyRow>)
    ensures |r| == |w|
    ensures forall i {:trigger r[i]} :: 0 <= i < |w| ==> r[i].day == w[i]
    ensures forall m :: DailyColumn(r, m) == Diff(MetricColumn(w, m))
  {
    var c := Diff(MetricColumn(w, Confirmed));
    var d := Diff(MetricColumn(w, Deaths));
    var v := Diff(MetricColumn(w, Recovered));
    DerivedColumns(w);
    Assemble(w, c, d, v)
  }

  /** For every metric, the daily values of the window sum, up to any row,
      to that row's cumulative count. */
  lemma DeriveReconstructs(w: seq<CountryDay>, m: Metric, i: nat)
    requires i < |w|
    ensures Sum(DailyColumn(Derive(w), m)[..i + 1]) == Get(w[i].counts, m)
  {
    DiffPrefixSum(MetricColumn(w, m), i);
  }

  /** The reconstruction for every metric and every row at once. */
  lemma DeriveReconstructsAll(w: seq<CountryDay>)
    ensures forall m, i :: 0 <= i < |w| ==> Sum(DailyColumn(Derive(w), m)[..i + 1]) == Get(w[i].counts, m)
  {
    forall m, i | 0 <= i < |w| ensures Sum(DailyColumn(Derive(w), m)[..i + 1]) == Get(w[i].counts, m) {
      DeriveReconstructs(w, m, i);
    }
  }

  /** A metric's daily column depends on that metric's cumulative column
      only: the other two metrics do not affect it. */
  lemma MetricsIndependent(w1: seq<CountryDay>, w2: seq<CountryDay>, m: Metric)
    requires MetricColumn(w1, m) == MetricColumn(w2, m)
    ensures DailyColumn(Derive(w1), m) == DailyColumn(Derive(w2), m)
  {
  }
}
