/** The group-by-sum that collapses the provinces of a country into one row
    per (country, date), summing each count column separately. Identity
    columns other than the key are not part of the result. */
module Aggregate {
  import opened Table

  /** A merged row seen as a per-country row: province, latitude and
      longitude are dropped. */
  function Project(r: JoinedRow): CountryDay {
    CountryDay(r.loc.country, r.date, r.counts)
  }

  function ProjectAll(rows: seq<JoinedRow>): (r: seq<CountryDay>)
    ensures |r| == |rows|
    ensures forall i :: 0 <= i < |rows| ==> r[i] == Project(rows[i])
  {
    seq(|rows|, i requires 0 <= i < |rows| => Project(rows[i]))
  }

  /** The sum of metric m over the rows whose key is k. */
  function Total(rows: seq<CountryDay>, k: GroupKey, m: Metric): int {
    if rows == [] then 0
    else
      var t := Total(rows[..|rows| - 1], k, m);
      if GroupOf(rows[|rows| - 1]) == k then t + Get(rows[|rows| - 1].counts, m) else t
  }

  /** The sum of metric m over all rows. */
  function SumAll(rows: seq<CountryDay>, m: Metric): int {
    if rows == [] then 0 else SumAll(rows[..|rows| - 1], m) + Get(rows[|rows| - 1].counts, m)
  }

  predicate Distinct(ks: seq<GroupKey>) {
    forall i, j :: 0 <= i < j < |ks| ==> ks[i] != ks[j]
  }

  /** The keys of a table, each once, in order of first occurrence. */
  function KeysInOrder(rows: seq<CountryDay>): (ks: seq<GroupKey>)
    ensures Distinct(ks)
    ensures forall k :: k in ks <==> k in KeySet(rows)
  {
    if rows == [] then []
    else
      var prefix := rows[..|rows| - 1];
      var ks := KeysInOrder(prefix);
      assert rows == prefix + [rows[|rows| - 1]];
      if GroupOf(rows[|rows| - 1]) in ks then ks else ks + [GroupOf(rows[|rows| - 1])]
  }

  /** The row of key k: the key and the three column sums. */
  function GroupRow(rows: seq<CountryDay>, k: GroupKey): CountryDay {
    CountryDay(k.country, k.date,
               Counts(Total(rows, k, Confirmed), Total(rows, k, Deaths), Total(rows, k, Recovered)))
  }

  /** One row per (country, date) key, carrying the key's column sums. */
  function GroupSum(rows: seq<CountryDay>): (r: seq<CountryDay>)
    ensures UniqueKeys(r)
    ensures KeySet(r) == KeySet(rows)
    ensures |r| == |KeySet(rows)|
    ensures forall i, m :: 0 <= i < |r| ==> Get(r[i].counts, m) == Total(rows, GroupOf(r[i]), m)
  {
    var ks := KeysInOrder(rows);
    var r := seq(|ks|, i requires 0 <= i < |ks| => GroupRow(rows, ks[i]));
    assert forall i :: 0 <= i < |r| ==> GroupOf(r[i]) == ks[i];
    assert KeySet(r) == set k | k in ks by {
      forall k | k in KeySet(r) ensures k in ks {
        var x :| x in r && GroupOf(x) == k;
      }
      forall k | k in ks ensures k in KeySet(r) {
        var i :| 0 <= i < |ks| && ks[i] == k;
        assert r[i] in r;
      }
    }
    DistinctCardinality(ks);
    r
  }

  /** A sequence of distinct keys has as many elements as its set. */
  lemma {:induction false} DistinctCardinality(ks: seq<GroupKey>)
    requires Distinct(ks)
    ensures |set k | k in ks| == |ks|
  {
    if ks != [] {
      var p := ks[..|ks| - 1];
      DistinctCardinality(p);
      assert (set k | k in ks) == (set k | k in p) + {ks[|ks| - 1]};
      assert ks[|ks| - 1] !in p;
    }
  }

  /** The per-country table built from the merged table. */
  function PerCountry(joined: seq<JoinedRow>): (r: seq<CountryDay>)
    ensures UniqueKeys(r)
    ensures forall k :: k in KeySet(r) <==> exists x :: x in joined && GroupOf(Project(x)) == k
    ensures forall i, m :: 0 <= i < |r| ==> Get(r[i].counts, m) == Total(ProjectAll(joined), GroupOf(r[i]), m)
  {
    var p := ProjectAll(joined);
    assert forall x :: x in joined ==> Project(x) in p by {
      forall x | x in joined ensures Project(x) in p {
        var i :| 0 <= i < |joined| && joined[i] == x;
        assert p[i] == Project(x);
      }
    }
    GroupSum(p)
  }

  /** A key that no row has sums to zero. */
  lemma {:induction false} TotalOfAbsentKey(rows: seq<CountryDay>, k: GroupKey, m: Metric)
    requires k !in KeySet(rows)
    ensures Total(rows, k, m) == 0
  {
    if rows != [] {
      var p := rows[..|rows| - 1];
      assert KeySet(p) <= KeySet(rows) by {
        forall g | g in KeySet(p) ensures g in KeySet(rows) {
          var x :| x in p && GroupOf(x) == g;
          assert x in rows;
        }
      }
      assert rows[|rows| - 1] in rows;
      TotalOfAbsentKey(p, k, m);
    }
  }

  /** The totals of a list of keys, added up. */
  function TotalsOver(rows: seq<CountryDay>, ks: seq<GroupKey>, m: Metric): int {
    if ks == [] then 0 else TotalsOver(rows, ks[..|ks| - 1], m) + Total(rows, ks[|ks| - 1], m)
  }

  /** A table's last row adds its count to the totals of a list of distinct
      keys exactly when its key is among them. */
  lemma {:induction false} TotalsOverLastRow(rows: seq<CountryDay>, ks: seq<GroupKey>, m: Metric)
    requires rows != [] && Distinct(ks)
    ensures TotalsOver(rows, ks, m)
            == TotalsOver(rows[..|rows| - 1], ks, m)
               + (if GroupOf(rows[|rows| - 1]) in ks then Get(rows[|rows| - 1].counts, m) else 0)
  {
    if ks != [] {
      var g := GroupOf(rows[|rows| - 1]);
      var p := ks[..|ks| - 1];
      var k := ks[|ks| - 1];
      assert Distinct(p);
      TotalsOverLastRow(rows, p, m);
      if g == k {
        assert g !in p by {
          forall j | 0 <= j < |p| ensures p[j] != k {
            assert ks[j] == p[j];
          }
        }
      } else {
        assert g in ks <==> g in p by {
          assert ks == p + [k];
        }
      }
    }
  }

  /** The totals of the keys in order add up to the whole table. */
  lemma {:induction false} TotalsMatchKeys(rows: seq<CountryDay>, m: Metric)
    ensures TotalsOver(rows, KeysInOrder(rows), m) == SumAll(rows, m)
  {
    if rows != [] {
      var p := rows[..|rows| - 1];
      var x := rows[|rows| - 1];
      var ks := KeysInOrder(p);
      TotalsMatchKeys(p, m);
      TotalsOverLastRow(rows, ks, m);
      if GroupOf(x) !in ks {
        var ks' := ks + [GroupOf(x)];
        assert ks'[..|ks'| - 1] == ks;
        TotalOfAbsentKey(p, GroupOf(x), m);
      }
    }
  }

  lemma {:induction false} SumOfGroups(rows: seq<CountryDay>, ks: seq<GroupKey>, r: seq<CountryDay>, m: Metric)
    requires |r| == |ks|
    requires forall i :: 0 <= i < |r| ==> Get(r[i].counts, m) == Total(rows, ks[i], m)
    ensures SumAll(r, m) == TotalsOver(rows, ks, m)
  {
    if r != [] {
      SumOfGroups(rows, ks[..|ks| - 1], r[..|r| - 1], m);
    }
  }

  /** Grouping conserves every column total: the grouped table adds up to
      the same confirmed, deaths and recovered sums as its input. */
  lemma GroupSumConserves(rows: seq<CountryDay>, m: Metric)
    ensures SumAll(GroupSum(rows), m) == SumAll(rows, m)
  {
    var ks := KeysInOrder(rows);
    var r := GroupSum(rows);
    TotalsMatchKeys(rows, m);
    SumOfGroups(rows, ks, r, m);
  }

  /** With unique keys, the last row's key is absent from the rows before it. */
  lemma {:induction false} LastKeyIsNew(rows: seq<CountryDay>)
    requires UniqueKeys(rows) && rows != []
    ensures GroupOf(rows[|rows| - 1]) !in KeySet(rows[..|rows| - 1])
  {
    var p := rows[..|rows| - 1];
    forall x | x in p ensures GroupOf(x) != GroupOf(rows[|rows| - 1]) {
      var j :| 0 <= j < |p| && p[j] == x;
      assert rows[j] == x;
    }
  }

  /** With unique keys, each key's total is the count of the one row that has it. */
  lemma {:induction false} TotalOfUniqueKey(rows: seq<CountryDay>, i: nat, m: Metric)
    requires UniqueKeys(rows) && i < |rows|
    ensures Total(rows, GroupOf(rows[i]), m) == Get(rows[i].counts, m)
  {
    var p := rows[..|rows| - 1];
    if i == |rows| - 1 {
      LastKeyIsNew(rows);
      TotalOfAbsentKey(p, GroupOf(rows[i]), m);
    } else {
      assert p[i] == rows[i];
      TotalOfUniqueKey(p, i, m);
      assert GroupOf(rows[|rows| - 1]) != GroupOf(rows[i]);
    }
  }

  /** With unique keys, the keys in order are the rows' keys. */
  lemma {:induction false} KeysOfUniqueRows(rows: seq<CountryDay>)
    requires UniqueKeys(rows)
    ensures |KeysInOrder(rows)| == |rows|
    ensures forall i :: 0 <= i < |rows| ==> KeysInOrder(rows)[i] == GroupOf(rows[i])
  {
    if rows != [] {
      KeysOfUniqueRows(rows[..|rows| - 1]);
      LastKeyIsNew(rows);
    }
  }

  /** Grouping a table whose keys are already unique returns it unchanged. */
  lemma GroupSumOfUnique(rows: seq<CountryDay>)
    requires UniqueKeys(rows)
    ensures GroupSum(rows) == rows
  {
    KeysOfUniqueRows(rows);
    var r := GroupSum(rows);
    forall i | 0 <= i < |rows| ensures r[i] == rows[i] {
      TotalOfUniqueKey(rows, i, Confirmed);
      TotalOfUniqueKey(rows, i, Deaths);
      TotalOfUniqueKey(rows, i, Recovered);
    }
  }

  /** Grouping is idempotent. */
  lemma GroupSumIdempotent(rows: seq<CountryDay>)
    ensures GroupSum(GroupSum(rows)) == GroupSum(rows)
  {
    GroupSumOfUnique(GroupSum(rows));
  }
}
