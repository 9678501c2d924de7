/** The two inner merges that align the confirmed, deaths and recovered long
    tables on (country, province, date). A data frame inner merge pairs every
    left row with every right row of the same key, in left-row order, and
    drops left rows whose key has no partner. */
module Join {
  import opened Table

  /** The rows of a table whose key is k, in table order. */
  function Matches<R(!new)>(rows: seq<R>, key: R -> JoinKey, k: JoinKey): (r: seq<R>)
    ensures |r| <= |rows|
    ensures forall x :: x in r <==> x in rows && key(x) == k
  {
    if rows == [] then []
    else (if key(rows[0]) == k then [rows[0]] else []) + Matches(rows[1..], key, k)
  }

  /** One left row combined with each of its partners, in partner order. */
  function PairWith<L, R, O>(l: L, partners: seq<R>, combine: (L, R) -> O): (r: seq<O>)
    ensures |r| == |partners|
    ensures forall i :: 0 <= i < |r| ==> r[i] == combine(l, partners[i])
  {
    seq(|partners|, i requires 0 <= i < |partners| => combine(l, partners[i]))
  }

  /** Inner merge: every left row paired with every right row of the same key. */
  function InnerMerge<L, R(!new), O>(left: seq<L>, right: seq<R>, lkey: L -> JoinKey, rkey: R -> JoinKey,
                               combine: (L, R) -> O): seq<O>
  {
    if left == [] then []
    else PairWith(left[0], Matches(right, rkey, lkey(left[0])), combine)
         + InnerMerge(left[1..], right, lkey, rkey, combine)
  }

  /** An output row of the inner merge is exactly a combination of a left row
      and a right row with equal keys. */
  lemma {:induction false} InnerMergeMembership<L(!new), R(!new), O>(left: seq<L>, right: seq<R>, lkey: L -> JoinKey,
                                                        rkey: R -> JoinKey, combine: (L, R) -> O, o: O)
    ensures o in InnerMerge(left, right, lkey, rkey, combine)
            <==> exists l, r :: l in left && r in right && rkey(r) == lkey(l) && o == combine(l, r)
    decreases |left|
  {
    if left != [] {
      var l0 := left[0];
      var ms := Matches(right, rkey, lkey(l0));
      var head := PairWith(l0, ms, combine);
      InnerMergeMembership(left[1..], right, lkey, rkey, combine, o);
      if o in head {
        var i :| 0 <= i < |head| && head[i] == o;
        assert ms[i] in ms;
        assert l0 in left;
      }
      if exists l, r :: l in left && r in right && rkey(r) == lkey(l) && o == combine(l, r) {
        var l, r :| l in left && r in right && rkey(r) == lkey(l) && o == combine(l, r);
        if l == l0 {
          var i :| 0 <= i < |ms| && ms[i] == r;
          assert head[i] == o;
        } else {
          assert l in left[1..];
        }
      }
    }
  }

  /** No two rows of a table share a key. */
  predicate KeysUnique<R>(rows: seq<R>, key: R -> JoinKey) {
    forall i, j :: 0 <= i < j < |rows| ==> key(rows[i]) != key(rows[j])
  }

  /** In a table with unique keys, a key matches at most one row. */
  lemma {:induction false} MatchesAtMostOne<R(!new)>(rows: seq<R>, key: R -> JoinKey, k: JoinKey)
    requires KeysUnique(rows, key)
    ensures |Matches(rows, key, k)| <= 1
  {
    if rows != [] {
      var rest := rows[1..];
      assert KeysUnique(rest, key);
      MatchesAtMostOne(rest, key, k);
      if key(rows[0]) == k {
        forall x | x in rest ensures key(x) != k {
          var j :| 0 <= j < |rest| && rest[j] == x;
          assert rows[j + 1] == x;
        }
        NoMatches(rest, key, k);
      }
    }
  }

  /** A key that no row has matches nothing. */
  lemma {:induction false} NoMatches<R(!new)>(rows: seq<R>, key: R -> JoinKey, k: JoinKey)
    requires forall x :: x in rows ==> key(x) != k
    ensures Matches(rows, key, k) == []
  {
    if rows != [] {
      assert rows[0] in rows;
      NoMatches(rows[1..], key, k);
    }
  }

  /** Against a right table with unique keys, an inner merge yields at most
      one row per left row. */
  lemma {:induction false} InnerMergeAtMostLeft<L, R(!new), O>(left: seq<L>, right: seq<R>, lkey: L -> JoinKey,
                                                              rkey: R -> JoinKey, combine: (L, R) -> O)
    requires KeysUnique(right, rkey)
    ensures |InnerMerge(left, right, lkey, rkey, combine)| <= |left|
  {
    if left != [] {
      MatchesAtMostOne(right, rkey, lkey(left[0]));
      InnerMergeAtMostLeft(left[1..], right, lkey, rkey, combine);
    }
  }

  /** How many partners the left rows have in total. */
  function PartnerCount<L, R(!new)>(left: seq<L>, right: seq<R>, lkey: L -> JoinKey, rkey: R -> JoinKey): nat {
    if left == [] then 0 else |Matches(right, rkey, lkey(left[0]))| + PartnerCount(left[1..], right, lkey, rkey)
  }

  /** The inner merge emits one row per (left row, partner) pair: nothing is
      dropped or deduplicated beyond the rows without a partner. */
  lemma {:induction false} InnerMergeLength<L, R(!new), O>(left: seq<L>, right: seq<R>, lkey: L -> JoinKey,
                                                          rkey: R -> JoinKey, combine: (L, R) -> O)
    ensures |InnerMerge(left, right, lkey, rkey, combine)| == PartnerCount(left, right, lkey, rkey)
  {
    if left != [] {
      InnerMergeLength(left[1..], right, lkey, rkey, combine);
    }
  }

  /** Merging a concatenation of left tables is concatenating their merges. */
  lemma {:induction false} InnerMergeAppend<L, R(!new), O>(a: seq<L>, b: seq<L>, right: seq<R>, lkey: L -> JoinKey,
                                                          rkey: R -> JoinKey, combine: (L, R) -> O)
    ensures InnerMerge(a + b, right, lkey, rkey, combine)
            == InnerMerge(a, right, lkey, rkey, combine) + InnerMerge(b, right, lkey, rkey, combine)
  {
    if a == [] {
      assert a + b == b;
    } else {
      assert (a + b)[0] == a[0];
      assert (a + b)[1..] == a[1..] + b;
      InnerMergeAppend(a[1..], b, right, lkey, rkey, combine);
    }
  }

  /** In a table with unique keys, a key matches one row when some row has
      it and none otherwise. */
  lemma {:induction false} MatchCount<R(!new)>(rows: seq<R>, key: R -> JoinKey, k: JoinKey)
    requires KeysUnique(rows, key)
    ensures |Matches(rows, key, k)| == (if exists x :: x in rows && key(x) == k then 1 else 0)
  {
    MatchesAtMostOne(rows, key, k);
    if exists x :: x in rows && key(x) == k {
      var x :| x in rows && key(x) == k;
      assert x in Matches(rows, key, k);
    } else {
      NoMatches(rows, key, k);
    }
  }

  /** Result of the first merge: confirmed and deaths counts of one key. */
  datatype Partial = Partial(loc: Location, date: Day, confirmed: int, deaths: int)

  function PartialKey(p: Partial): JoinKey {
    JoinKey(p.loc.country, p.loc.province, p.date)
  }

  /** The first merge keeps the confirmed row's columns and adds the deaths count. */
  function WithDeaths(c: LongRow, d: LongRow): Partial {
    Partial(c.loc, c.date, c.value, d.value)
  }

  /** The second merge adds the recovered count. */
  function WithRecovered(p: Partial, v: LongRow): JoinedRow {
    JoinedRow(p.loc, p.date, Counts(p.confirmed, p.deaths, v.value))
  }

  /** The row produced from a confirmed, a deaths and a recovered row. */
  function Combine(c: LongRow, d: LongRow, v: LongRow): JoinedRow {
    JoinedRow(c.loc, c.date, Counts(c.value, d.value, v.value))
  }

  function JoinedKey(r: JoinedRow): JoinKey {
    JoinKey(r.loc.country, r.loc.province, r.date)
  }

  /** Confirmed merged with deaths, then with recovered, on (country, province, date). */
  function JoinAll(confirmed: seq<LongRow>, deaths: seq<LongRow>, recovered: seq<LongRow>): seq<JoinedRow> {
    InnerMerge(InnerMerge(confirmed, deaths, KeyOf, KeyOf, WithDeaths), recovered, PartialKey, KeyOf, WithRecovered)
  }

  /** The join is inner: a row is in the result exactly when it combines a
      confirmed, a deaths and a recovered row that share one key. */
  lemma JoinMembership(confirmed: seq<LongRow>, deaths: seq<LongRow>, recovered: seq<LongRow>, x: JoinedRow)
    ensures x in JoinAll(confirmed, deaths, recovered)
            <==> exists c, d, v :: c in confirmed && d in deaths && v in recovered
                                  && KeyOf(d) == KeyOf(c) && KeyOf(v) == KeyOf(c) && x == Combine(c, d, v)
  {
    var ps := InnerMerge(confirmed, deaths, KeyOf, KeyOf, WithDeaths);
    InnerMergeMembership(ps, recovered, PartialKey, KeyOf, WithRecovered, x);
    if x in JoinAll(confirmed, deaths, recovered) {
      var p, v :| p in ps && v in recovered && KeyOf(v) == PartialKey(p) && x == WithRecovered(p, v);
      InnerMergeMembership(confirmed, deaths, KeyOf, KeyOf, WithDeaths, p);
      var c, d :| c in confirmed && d in deaths && KeyOf(d) == KeyOf(c) && p == WithDeaths(c, d);
      assert x == Combine(c, d, v);
    }
    if exists c, d, v :: c in confirmed && d in deaths && v in recovered
                         && KeyOf(d) == KeyOf(c) && KeyOf(v) == KeyOf(c) && x == Combine(c, d, v) {
      var c, d, v :| c in confirmed && d in deaths && v in recovered
                     && KeyOf(d) == KeyOf(c) && KeyOf(v) == KeyOf(c) && x == Combine(c, d, v);
      InnerMergeMembership(confirmed, deaths, KeyOf, KeyOf, WithDeaths, WithDeaths(c, d));
      assert WithDeaths(c, d) in ps;
      assert x == WithRecovered(WithDeaths(c, d), v);
    }
  }

  /** With one row per key in the deaths and the recovered tables, the join
      never duplicates a confirmed row: it has at most as many rows. */
  lemma JoinAtMostConfirmed(confirmed: seq<LongRow>, deaths: seq<LongRow>, recovered: seq<LongRow>)
    requires KeysUnique(deaths, KeyOf) && KeysUnique(recovered, KeyOf)
    ensures |JoinAll(confirmed, deaths, recovered)| <= |confirmed|
  {
    var ps := InnerMerge(confirmed, deaths, KeyOf, KeyOf, WithDeaths);
    InnerMergeAtMostLeft(confirmed, deaths, KeyOf, KeyOf, WithDeaths);
    InnerMergeAtMostLeft(ps, recovered, PartialKey, KeyOf, WithRecovered);
  }

  /** A table has a row of key k. */
  predicate HasKey(rows: seq<LongRow>, k: JoinKey) {
    exists x :: x in rows && KeyOf(x) == k
  }

  /** The number of confirmed rows whose key occurs in both the deaths and
      the recovered table. */
  function JoinableCount(confirmed: seq<LongRow>, deaths: seq<LongRow>, recovered: seq<LongRow>): nat {
    if confirmed == [] then 0
    else
      (if HasKey(deaths, KeyOf(confirmed[0])) && HasKey(recovered, KeyOf(confirmed[0])) then 1 else 0)
      + JoinableCount(confirmed[1..], deaths, recovered)
  }

  /** With one row per key in the deaths and the recovered tables, the join
      has exactly one row per confirmed row whose key both tables have. */
  lemma {:induction false} JoinCount(confirmed: seq<LongRow>, deaths: seq<LongRow>, recovered: seq<LongRow>)
    requires KeysUnique(deaths, KeyOf) && KeysUnique(recovered, KeyOf)
    ensures |JoinAll(confirmed, deaths, recovered)| == JoinableCount(confirmed, deaths, recovered)
  {
    if confirmed != [] {
      var c := confirmed[0];
      var ms := Matches(deaths, KeyOf, KeyOf(c));
      var head := PairWith(c, ms, WithDeaths);
      var rest := InnerMerge(confirmed[1..], deaths, KeyOf, KeyOf, WithDeaths);
      assert InnerMerge(confirmed, deaths, KeyOf, KeyOf, WithDeaths) == head + rest;
      InnerMergeAppend(head, rest, recovered, PartialKey, KeyOf, WithRecovered);
      JoinCount(confirmed[1..], deaths, recovered);
      MatchCount(deaths, KeyOf, KeyOf(c));
      MatchCount(recovered, KeyOf, KeyOf(c));
      var front := InnerMerge(head, recovered, PartialKey, KeyOf, WithRecovered);
      if |ms| == 0 {
        assert head == [];
        assert !HasKey(deaths, KeyOf(c));
      } else {
        assert ms[0] in ms;
        assert head == [WithDeaths(c, ms[0])];
        assert PartialKey(head[0]) == KeyOf(c);
        assert head[1..] == [];
        assert |front| == |Matches(recovered, KeyOf, KeyOf(c))|;
        assert HasKey(deaths, KeyOf(c));
      }
    }
  }

  /** A confirmed key missing from the deaths or the recovered table yields
      no joined row: the row is dropped, not filled. */
  lemma UnmatchedKeyDropped(confirmed: seq<LongRow>, deaths: seq<LongRow>, recovered: seq<LongRow>, k: JoinKey)
    requires (forall d :: d in deaths ==> KeyOf(d) != k) || (forall v :: v in recovered ==> KeyOf(v) != k)
    ensures forall x :: x in JoinAll(confirmed, deaths, recovered) ==> JoinedKey(x) != k
  {
    forall x | x in JoinAll(confirmed, deaths, recovered)
      ensures JoinedKey(x) != k
    {
      JoinMembership(confirmed, deaths, recovered, x);
    }
  }

  /** Every joined row's key occurs in all three tables, and the row carries
      the identity columns of a confirmed row of that key. */
  lemma JoinedKeyInAllTables(confirmed: seq<LongRow>, deaths: seq<LongRow>, recovered: seq<LongRow>, x: JoinedRow)
    requires x in JoinAll(confirmed, deaths, recovered)
    ensures exists c :: c in confirmed && KeyOf(c) == JoinedKey(x) && c.loc == x.loc && c.value == x.counts.confirmed
    ensures exists d :: d in deaths && KeyOf(d) == JoinedKey(x) && d.value == x.counts.deaths
    ensures exists v :: v in recovered && KeyOf(v) == JoinedKey(x) && v.value == x.counts.recovered
  {
    JoinMembership(confirmed, deaths, recovered, x);
  }
}
