/** The wide-to-long melt: each wide row becomes one long row per date
    column, keeping the row's identity columns. A data frame melt emits the
    first date column for every row, then the second, and so on, so the long
    row for date column j of source row i sits at index j * rows + i. */
module Reshape {
  import opened Table

  /** The long row produced for date column j of source row i. */
  function Cell(t: WideTable, j: nat, i: nat): LongRow
    requires t.Rectangular() && j < |t.dates| && i < |t.rows|
  {
    LongRow(t.rows[i].loc, t.dates[j], t.rows[i].cells[j])
  }

  /** The long rows of date column j, one per source row in row order. */
  function DateColumn(t: WideTable, j: nat): (r: seq<LongRow>)
    requires t.Rectangular() && j < |t.dates|
    ensures |r| == |t.rows|
    ensures forall i :: 0 <= i < |t.rows| ==> r[i] == Cell(t, j, i)
  {
    seq(|t.rows|, i requires 0 <= i < |t.rows| => Cell(t, j, i))
  }

  /** Position k of s exists and holds x. */
  predicate At<T(==)>(s: seq<T>, k: nat, x: T) {
    k < |s| && s[k] == x
  }

  /** Where block j starts when every block holds n rows: j * n, counted
      block by block so that the proofs about it stay linear. */
  function Offset(j: nat, n: nat): nat {
    if j == 0 then 0 else Offset(j - 1, n) + n
  }

  lemma {:induction false} OffsetIsProduct(j: nat, n: nat)
    ensures Offset(j, n) == j * n
  {
    if j > 0 {
      OffsetIsProduct(j - 1, n);
    }
  }

  /** The first m date columns melted, column after column. */
  function MeltColumns(t: WideTable, m: nat): (r: seq<LongRow>)
    requires t.Rectangular() && m <= |t.dates|
    ensures |r| == Offset(m, |t.rows|)
  {
    if m == 0 then [] else MeltColumns(t, m - 1) + DateColumn(t, m - 1)
  }

  /** In the first m melted columns, the cell of column j and row i sits at
      offset i of block j. */
  lemma {:induction false} MeltColumnsCells(t: WideTable, m: nat)
    requires t.Rectangular() && m <= |t.dates|
    ensures forall j: nat, i: nat {:trigger Cell(t, j, i)} ::
              j < m && i < |t.rows| ==> At(MeltColumns(t, m), Offset(j, |t.rows|) + i, Cell(t, j, i))
  {
    if m > 0 {
      MeltColumnsCells(t, m - 1);
      AppendColumn(t, m, MeltColumns(t, m - 1), DateColumn(t, m - 1));
    }
  }

  /** Appending column m - 1 to the first m - 1 melted columns puts the
      cell of every column j < m and row i at block j, offset i. */
  lemma {:induction false} AppendColumn(t: WideTable, m: nat, prev: seq<LongRow>, col: seq<LongRow>)
    requires t.Rectangular() && 0 < m <= |t.dates|
    requires |prev| == Offset(m - 1, |t.rows|)
    requires forall j: nat, i: nat {:trigger Cell(t, j, i)} ::
               j < m - 1 && i < |t.rows| ==>
                 At(prev, Offset(j, |t.rows|) + i, Cell(t, j, i))
    requires |col| == |t.rows|
    requires forall i :: 0 <= i < |t.rows| ==> col[i] == Cell(t, m - 1, i)
    ensures |prev + col| == Offset(m, |t.rows|)
    ensures forall j: nat, i: nat {:trigger Cell(t, j, i)} ::
              j < m && i < |t.rows| ==>
                At(prev + col, Offset(j, |t.rows|) + i, Cell(t, j, i))
  {
    var r := prev + col;
    forall j: nat, i: nat | j < m && i < |t.rows|
      ensures At(r, Offset(j, |t.rows|) + i, Cell(t, j, i))
    {
      if j < m - 1 {
        assert At(prev, Offset(j, |t.rows|) + i, Cell(t, j, i));
        assert r[Offset(j, |t.rows|) + i] == prev[Offset(j, |t.rows|) + i];
      } else {
        assert r[Offset(j, |t.rows|) + i] == col[i];
      }
    }
  }

  /** The melted table: one long row per (source row, date column). */
  function Melt(t: WideTable): (r: seq<LongRow>)
    requires t.Rectangular()
    ensures |r| == |t.dates| * |t.rows|
    ensures forall j: nat, i: nat {:trigger Cell(t, j, i)} ::
              j < |t.dates| && i < |t.rows| ==>
                At(r, j * |t.rows| + i, Cell(t, j, i))
  {
    var r := MeltColumns(t, |t.dates|);
    MeltColumnsCells(t, |t.dates|);
    OffsetIsProduct(|t.dates|, |t.rows|);
    assert forall j: nat :: j < |t.dates| ==> Offset(j, |t.rows|) == j * |t.rows| by {
      forall j: nat | j < |t.dates| ensures Offset(j, |t.rows|) == j * |t.rows| {
        OffsetIsProduct(j, |t.rows|);
      }
    }
    r
  }

  /** Every long row of the first m columns comes from exactly one cell. */
  lemma {:induction false} MeltColumnsRowIsCell(t: WideTable, m: nat, k: nat)
    requires t.Rectangular() && m <= |t.dates|
    requires k < |MeltColumns(t, m)|
    ensures exists j: nat, i: nat :: j < m && i < |t.rows| && k == Offset(j, |t.rows|) + i
                                  && MeltColumns(t, m)[k] == Cell(t, j, i)
    decreases m
  {
    var n := |t.rows|;
    if k < Offset(m - 1, n) {
      MeltColumnsRowIsCell(t, m - 1, k);
      var j: nat, i: nat :| j < m - 1 && i < n && k == Offset(j, n) + i
                           && MeltColumns(t, m - 1)[k] == Cell(t, j, i);
      assert MeltColumns(t, m)[k] == Cell(t, j, i);
    } else {
      var i: nat := k - Offset(m - 1, n);
      assert MeltColumns(t, m)[k] == DateColumn(t, m - 1)[i];
    }
  }

  /** Each long row keeps the identity columns of one source row and holds
      that row's count for exactly one date column. */
  lemma MeltRowIsCell(t: WideTable, k: nat)
    requires t.Rectangular() && k < |Melt(t)|
    ensures exists j: nat, i: nat :: j < |t.dates| && i < |t.rows| && k == j * |t.rows| + i
                                  && Melt(t)[k] == Cell(t, j, i)
  {
    MeltColumnsRowIsCell(t, |t.dates|, k);
    var j: nat, i: nat :| j < |t.dates| && i < |t.rows| && k == Offset(j, |t.rows|) + i
                         && MeltColumns(t, |t.dates|)[k] == Cell(t, j, i);
    OffsetIsProduct(j, |t.rows|);
  }
}
