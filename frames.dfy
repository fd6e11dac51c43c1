/** The part of a pandas DataFrame the processor relies on: labelled rows and columns
    over a rectangular table of cells of an abstract type `V`. */
module Frames {
  import opened Sequences

  /** `m` has `rows` rows of `cols` cells each. */
  predicate IsMatrix<V>(m: seq<seq<V>>, rows: int, cols: int) {
    |m| == rows && forall i :: 0 <= i < |m| ==> |m[i]| == cols
  }

  /** A DataFrame: the row index (gene symbols), the column labels (samples) and the
      cells row by row. */
  datatype Frame<V> = Frame(index: seq<string>, columns: seq<string>, values: seq<seq<V>>) {

    /** Every frame pandas builds: one row per index label, one cell per column label. */
    predicate Valid() {
      IsMatrix(values, |index|, |columns|)
    }

    /** pandas' `DataFrame.empty`: true as soon as EITHER axis has length zero, that is
        when the frame has no cell; a well-formed empty frame holds no cell values. */
    predicate IsEmpty()
      ensures IsEmpty() <==> |index| * |columns| == 0
      ensures Valid() && IsEmpty() ==> forall i :: 0 <= i < |values| ==> values[i] == []
    {
      |index| == 0 || |columns| == 0
    }
  }

  /** `pd.DataFrame()`. */
  function EmptyFrame<V>(): (f: Frame<V>)
    ensures f.Valid() && f.IsEmpty()
  {
    Frame([], [], [])
  }

  /** The mask `index.isin(genes)`. */
  function Requested(genes: seq<string>): string -> bool {
    g => g in genes
  }

  /** `df.loc[df.index.isin(genes)]` on the two parallel lists of a frame. */
  function KeepRows<V>(index: seq<string>, values: seq<seq<V>>, genes: seq<string>)
    : (kept: (seq<string>, seq<seq<V>>))
    requires |index| == |values|
    ensures var pos := Positions(index, Requested(genes));
      kept.0 == Pick(index, pos) && kept.1 == Pick(values, pos)
    decreases |index|
  {
    if index == [] then ([], [])
    else
      var n := |index| - 1;
      var (ix, vs) := KeepRows(index[..n], values[..n], genes);
      var pre := Positions(index[..n], Requested(genes));
      assert Pick(index[..n], pre) == Pick(index, pre);
      assert Pick(values[..n], pre) == Pick(values, pre);
      if index[n] in genes then
        assert Pick(index, pre + [n]) == Pick(index, pre) + [index[n]];
        assert Pick(values, pre + [n]) == Pick(values, pre) + [values[n]];
        (ix + [index[n]], vs + [values[n]])
      else
        (ix, vs)
  }

  /** `get_expression_data` on one dataset: an empty frame gives `pd.DataFrame()`;
      otherwise the rows whose label is requested, in the frame's own order, with all
      of its columns. */
  function SelectRows<V>(df: Frame<V>, genes: seq<string>): (sub: Frame<V>)
    requires df.Valid()
    ensures sub.Valid()
    ensures df.IsEmpty() ==> sub == EmptyFrame()
    ensures !df.IsEmpty() ==>
      var pos := Positions(df.index, Requested(genes));
      sub.columns == df.columns && sub.index == Pick(df.index, pos)
      && sub.values == Pick(df.values, pos)
  {
    if df.IsEmpty() then EmptyFrame()
    else
      var (index, values) := KeepRows(df.index, df.values, genes);
      Frame(index, df.columns, values)
  }

  /** Every selected row carries a requested label, and in a non-empty dataset every row
      whose label is requested is selected, with its own cells. */
  lemma SelectRowsExact<V>(df: Frame<V>, genes: seq<string>)
    requires df.Valid()
    ensures var sub := SelectRows(df, genes);
      (forall k :: 0 <= k < |sub.index| ==> sub.index[k] in genes)
      && (!df.IsEmpty() ==>
            forall i :: 0 <= i < |df.index| && df.index[i] in genes ==>
              exists k :: 0 <= k < |sub.index| && sub.index[k] == df.index[i]
                          && sub.values[k] == df.values[i])
  {
    var pos := Positions(df.index, Requested(genes));
    var sub := SelectRows(df, genes);
    PositionsSpec(df.index, Requested(genes));
    forall k | 0 <= k < |sub.index| ensures sub.index[k] in genes {
      assert Requested(genes)(df.index[pos[k]]);
    }
    forall i | 0 <= i < |df.index| && df.index[i] in genes && !df.IsEmpty()
      ensures exists k :: 0 <= k < |sub.index| && sub.index[k] == df.index[i]
                          && sub.values[k] == df.values[i]
    {
      assert Requested(genes)(df.index[i]);
      var k :| 0 <= k < |pos| && pos[k] == i;
      assert sub.index[k] == df.index[i] && sub.values[k] == df.values[i];
    }
  }

  /** The selection depends on which symbols are requested, not on their order or
      repetitions: rows come out in the dataset's order. */
  lemma SelectRowsIgnoresRequestOrder<V>(df: Frame<V>, genes: seq<string>, others: seq<string>)
    requires df.Valid()
    requires forall g :: g in genes <==> g in others
    ensures SelectRows(df, genes) == SelectRows(df, others)
  {
    PositionsCongruent(df.index, Requested(genes), Requested(others));
  }

  /** `m.T` for a matrix with `cols` columns. */
  function Transpose<V>(m: seq<seq<V>>, cols: nat): (t: seq<seq<V>>)
    requires IsMatrix(m, |m|, cols)
    ensures IsMatrix(t, cols, |m|)
    ensures forall j, i :: 0 <= j < cols && 0 <= i < |m| ==> t[j][i] == m[i][j]
  {
    seq(cols, j requires 0 <= j < cols => seq(|m|, i requires 0 <= i < |m| => m[i][j]))
  }

  /** Transposing twice gives back the matrix. */
  lemma TransposeTwice<V>(m: seq<seq<V>>, cols: nat)
    requires IsMatrix(m, |m|, cols)
    ensures Transpose(Transpose(m, cols), |m|) == m
  {
    var t := Transpose(Transpose(m, cols), |m|);
    forall i | 0 <= i < |m| ensures t[i] == m[i] {
    }
  }

  /** `m[np.ix_(rowOrder, colOrder)]`: the sub-matrix of the chosen rows and columns,
      in the chosen order. */
  function Reorder<V>(m: seq<seq<V>>, cols: nat, rowOrder: seq<int>, colOrder: seq<int>)
    : (r: seq<seq<V>>)
    requires IsMatrix(m, |m|, cols) && InRange(rowOrder, |m|) && InRange(colOrder, cols)
    ensures IsMatrix(r, |rowOrder|, |colOrder|)
    ensures forall i, j :: 0 <= i < |rowOrder| && 0 <= j < |colOrder| ==>
      r[i][j] == m[rowOrder[i]][colOrder[j]]
  {
    seq(|rowOrder|, i requires 0 <= i < |rowOrder| => Pick(m[rowOrder[i]], colOrder))
  }

  /** Reordering by two permutations is undone by reordering with their inverses. */
  lemma ReorderInverse<V>(m: seq<seq<V>>, cols: nat, rowOrder: seq<int>, colOrder: seq<int>)
    requires IsMatrix(m, |m|, cols)
    requires IsPermutation(rowOrder, |m|) && IsPermutation(colOrder, cols)
    ensures Reorder(Reorder(m, cols, rowOrder, colOrder), cols, Inverse(rowOrder), Inverse(colOrder)) == m
  {
    var r := Reorder(m, cols, rowOrder, colOrder);
    var ri, ci := Inverse(rowOrder), Inverse(colOrder);
    var back := Reorder(r, cols, ri, ci);
    forall i | 0 <= i < |m| ensures back[i] == m[i] {
      forall j | 0 <= j < cols ensures back[i][j] == m[i][j] {
        assert back[i][j] == r[ri[i]][ci[j]] == m[rowOrder[ri[i]]][colOrder[ci[j]]];
      }
    }
  }
}
