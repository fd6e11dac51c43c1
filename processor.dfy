/** `GeneExpressionProcessor`: gene-symbol validation against the loaded datasets, row
    selection, and the assembly of a clustered heat-map result. The z-score scaler and the
    hierarchical clustering are library numerics, passed in as opaque functions. */
module GeneExpression {
  import opened PyStrings
  import opened Sequences
  import opened Frames

  datatype Option<T> = None | Some(value: T)

  // ---------------------------------------------------------------------------
  // Gene validation

  /** The symbols a request can be matched against: the row labels of every dataset that
      is not empty. */
  function AvailableGenes<V>(brainspan: Frame<V>, gtex: Frame<V>): (available: set<string>)
    ensures forall g :: g in available <==>
      (!brainspan.IsEmpty() && g in brainspan.index) || (!gtex.IsEmpty() && g in gtex.index)
    ensures brainspan.IsEmpty() && gtex.IsEmpty() ==> available == {}
  {
    (if brainspan.IsEmpty() then {} else set g | g in brainspan.index)
    + (if gtex.IsEmpty() then {} else set g | g in gtex.index)
  }

  /** The mask "the canonical form of this request is available". */
  function Known(available: set<string>): string -> bool {
    g => Canonical(g) in available
  }

  /** The mask "the canonical form of this request is not available". */
  function Unknown(available: set<string>): string -> bool {
    g => Canonical(g) !in available
  }

  /** `(valid_genes, invalid_genes)` after the loop has seen every request in `genes`:
      an available request goes to the first list upper-cased and stripped, any other to the
      second list stripped only. */
  function Partition(available: set<string>, genes: seq<string>)
    : (p: (seq<string>, seq<string>))
    ensures |p.0| + |p.1| == |genes|
    decreases |genes|
  {
    if genes == [] then ([], [])
    else
      var pre := Partition(available, genes[..|genes| - 1]);
      var g := genes[|genes| - 1];
      if Canonical(g) in available then (pre.0 + [Canonical(g)], pre.1)
      else (pre.0, pre.1 + [Strip(g)])
  }

  /** `valid` lists the canonical forms of the requests at positions `vp`, and `invalid`
      the stripped forms of those at positions `ip`, in that order. */
  predicate LaidOut(genes: seq<string>, vp: seq<int>, ip: seq<int>, valid: seq<string>, invalid: seq<string>)
    requires InRange(vp, |genes|) && InRange(ip, |genes|)
  {
    |valid| == |vp| && (forall k :: 0 <= k < |vp| ==> valid[k] == Canonical(genes[vp[k]]))
    && |invalid| == |ip| && (forall k :: 0 <= k < |ip| ==> invalid[k] == Strip(genes[ip[k]]))
  }

  /** Appending the next accepted request keeps the layout. */
  lemma LaidOutAccept(genes: seq<string>, vp: seq<int>, ip: seq<int>, valid: seq<string>, invalid: seq<string>, n: int)
    requires 0 <= n < |genes| && InRange(vp, |genes|) && InRange(ip, |genes|)
    requires LaidOut(genes, vp, ip, valid, invalid)
    ensures InRange(vp + [n], |genes|)
    ensures LaidOut(genes, vp + [n], ip, valid + [Canonical(genes[n])], invalid)
  {
    assert InRange(vp + [n], |genes|) by {
      forall k | 0 <= k < |vp| + 1 ensures 0 <= (vp + [n])[k] < |genes| {
        if k < |vp| {
          assert (vp + [n])[k] == vp[k];
        }
      }
    }
  }

  /** Appending the next rejected request keeps the layout. */
  lemma LaidOutReject(genes: seq<string>, vp: seq<int>, ip: seq<int>, valid: seq<string>, invalid: seq<string>, n: int)
    requires 0 <= n < |genes| && InRange(vp, |genes|) && InRange(ip, |genes|)
    requires LaidOut(genes, vp, ip, valid, invalid)
    ensures InRange(ip + [n], |genes|)
    ensures LaidOut(genes, vp, ip + [n], valid, invalid + [Strip(genes[n])])
  {
    assert InRange(ip + [n], |genes|) by {
      forall k | 0 <= k < |ip| + 1 ensures 0 <= (ip + [n])[k] < |genes| {
        if k < |ip| {
          assert (ip + [n])[k] == ip[k];
        }
      }
    }
  }

  /** The exact outcome of validation, in input order: `valid` holds the canonical forms
      of the requests the `Known` mask selects and `invalid` the stripped forms of those the
      `Unknown` mask selects, each in the order the requests came (`PositionsSpec` gives
      that these positions increase and cover precisely the requests of each kind). */
  lemma {:induction false} PartitionByPositions(available: set<string>, genes: seq<string>)
    ensures var p := Partition(available, genes);
      LaidOut(genes, Positions(genes, Known(available)), Positions(genes, Unknown(available)), p.0, p.1)
    decreases |genes|
  {
    if genes != [] {
      var n := |genes| - 1;
      var pre, g := Partition(available, genes[..n]), genes[n];
      var vp, ip := Positions(genes[..n], Known(available)), Positions(genes[..n], Unknown(available));
      assert LaidOut(genes, vp, ip, pre.0, pre.1) by {
        PartitionByPositions(available, genes[..n]);
        assert LaidOut(genes[..n], vp, ip, pre.0, pre.1);
        assert forall k :: 0 <= k < |vp| ==> genes[..n][vp[k]] == genes[vp[k]];
        assert forall k :: 0 <= k < |ip| ==> genes[..n][ip[k]] == genes[ip[k]];
      }
      if Canonical(g) in available {
        assert Positions(genes, Known(available)) == vp + [n] by { assert Known(available)(g); }
        assert Positions(genes, Unknown(available)) == ip by { assert !Unknown(available)(g); }
        assert Partition(available, genes) == (pre.0 + [Canonical(g)], pre.1);
        LaidOutAccept(genes, vp, ip, pre.0, pre.1, n);
      } else {
        assert Positions(genes, Known(available)) == vp by { assert !Known(available)(g); }
        assert Positions(genes, Unknown(available)) == ip + [n] by { assert Unknown(available)(g); }
        assert Partition(available, genes) == (pre.0, pre.1 + [Strip(g)]);
        LaidOutReject(genes, vp, ip, pre.0, pre.1, n);
      }
    }
  }

  /** Every entry of `valid` is available and trimmed; every entry of `invalid` is trimmed
      and is not available once upper-cased. */
  predicate Sound(available: set<string>, valid: seq<string>, invalid: seq<string>) {
    (forall k :: 0 <= k < |valid| ==> valid[k] in available && Trimmed(valid[k]))
    && (forall k :: 0 <= k < |invalid| ==> Upper(invalid[k]) !in available && Trimmed(invalid[k]))
  }

  /** Validation only accepts available symbols and only rejects unavailable ones. */
  lemma {:induction false} PartitionSound(available: set<string>, genes: seq<string>)
    ensures var p := Partition(available, genes);
      Sound(available, p.0, p.1)
    decreases |genes|
  {
    if genes != [] {
      var n := |genes| - 1;
      var pre, g := Partition(available, genes[..n]), genes[n];
      PartitionSound(available, genes[..n]);
      assert Sound(available, pre.0, pre.1);
      CanonicalTrimmed(g);
      if Canonical(g) in available {
        assert Partition(available, genes) == (pre.0 + [Canonical(g)], pre.1);
        assert Sound(available, pre.0 + [Canonical(g)], pre.1);
      } else {
        assert Partition(available, genes) == (pre.0, pre.1 + [Strip(g)]);
        assert Sound(available, pre.0, pre.1 + [Strip(g)]);
      }
    }
  }

  /** With nothing available, every request is invalid and reported stripped. */
  lemma {:induction false} NothingAvailable(genes: seq<string>)
    ensures Partition({}, genes).0 == []
    ensures |Partition({}, genes).1| == |genes|
    ensures forall k :: 0 <= k < |genes| ==> Partition({}, genes).1[k] == Strip(genes[k])
    decreases |genes|
  {
    if genes != [] {
      NothingAvailable(genes[..|genes| - 1]);
    }
  }

  /** When both datasets are empty (a missing file, or a table without rows or without
      columns), no request is valid. */
  lemma NoDataNoValidGene<V>(brainspan: Frame<V>, gtex: Frame<V>, genes: seq<string>)
    requires brainspan.IsEmpty() && gtex.IsEmpty()
    ensures var p := Partition(AvailableGenes(brainspan, gtex), genes);
      p.0 == [] && |p.1| == |genes| && forall k :: 0 <= k < |genes| ==> p.1[k] == Strip(genes[k])
  {
    NothingAvailable(genes);
  }

  /** Validating the valid list again accepts all of it unchanged. */
  lemma {:induction false} RevalidationKeepsValid(available: set<string>, genes: seq<string>)
    ensures var valid := Partition(available, genes).0;
      Partition(available, valid) == (valid, [])
    decreases |genes|
  {
    if genes != [] {
      var n := |genes| - 1;
      var pre, g := Partition(available, genes[..n]).0, genes[n];
      assert Partition(available, pre) == (pre, []) by {
        RevalidationKeepsValid(available, genes[..n]);
      }
      if Canonical(g) in available {
        var c := Canonical(g);
        assert Partition(available, genes).0 == pre + [c];
        assert Canonical(c) == c by {
          CanonicalIdempotent(g);
        }
        assert (pre + [c])[..|pre|] == pre;
        assert Partition(available, pre + [c]) == (pre + [c], []);
      } else {
        assert Partition(available, genes).0 == pre;
      }
    }
  }

  // ---------------------------------------------------------------------------
  // Clustering

  /** One row of a scipy linkage matrix: the two clusters merged, their distance and the
      number of original items under the new cluster. */
  datatype MergeStep = MergeStep(left: int, right: int, distance: real, size: int)

  /** The dendrogram record handed to the front end. */
  datatype Dendrogram = Dendrogram(linkage: seq<MergeStep>, labels: seq<string>, order: seq<int>)

  /** The dictionary `cluster_data` returns. */
  datatype ClusterResult<V> = ClusterResult(
    data: seq<seq<V>>,
    genes: seq<string>,
    samples: seq<string>,
    rowDendrogram: Option<Dendrogram>,
    colDendrogram: Option<Dendrogram>)

  /** The library numerics: `normalize` is the per-gene z-score with NaN replaced by zero,
      `linkage` is scipy's average-linkage clustering of the rows of a matrix, and `leaves`
      is the leaf order scipy's `dendrogram` derives from a linkage. */
  datatype Numerics<!V> = Numerics(
    normalize: seq<seq<V>> -> seq<seq<V>>,
    linkage: seq<seq<V>> -> seq<MergeStep>,
    leaves: seq<MergeStep> -> seq<int>)

  /** What the library is trusted to deliver on the frames `cluster_data` normalises: a
      matrix of the input's shape, and leaf orders that are permutations of the rows and,
      when there are at least two, of the columns. */
  predicate LibraryFits<V>(lib: Numerics<V>, df: Frame<V>) {
    var m, n := |df.index|, |df.columns|;
    var z := lib.normalize(df.values);
    m >= 2 && n >= 1 ==>
      IsMatrix(z, m, n)
      && IsPermutation(lib.leaves(lib.linkage(z)), m)
      && (n >= 2 ==> IsPermutation(lib.leaves(lib.linkage(Transpose(z, n))), n))
  }

  /** Row clustering of a frame with at least two rows (backend/app.py:116-119): the
      average linkage of the normalised rows and the dendrogram's leaf order, which
      visits every row once. */
  function RowClustering<V>(lib: Numerics<V>, df: Frame<V>): (c: (seq<MergeStep>, seq<int>))
    requires LibraryFits(lib, df) && |df.index| >= 2 && |df.columns| >= 1
    ensures IsPermutation(c.1, |df.index|)
  {
    var linkage := lib.linkage(lib.normalize(df.values));
    (linkage, lib.leaves(linkage))
  }

  /** Column clustering of the same frame: with more than one column, the linkage of
      `z.T` and its leaf order; with one, no linkage and `list(range(1))`. Either way the
      order visits every column once. */
  function ColumnClustering<V>(lib: Numerics<V>, df: Frame<V>): (c: (Option<seq<MergeStep>>, seq<int>))
    requires LibraryFits(lib, df) && |df.index| >= 2 && |df.columns| >= 1
    ensures IsPermutation(c.1, |df.columns|)
    ensures |df.columns| == 1 ==> c.0.None? && c.1 == [0]
  {
    var z, n := lib.normalize(df.values), |df.columns|;
    if n > 1 then
      var linkage := lib.linkage(Transpose(z, n));
      (Some(linkage), lib.leaves(linkage))
    else
      assert Range(n) == [0];
      (None, Range(n))
  }

  /** `_prepare_dendrogram_data`: no linkage gives no record; otherwise the linkage, the
      labels and the order are packaged unchanged. */
  function PrepareDendrogramData(linkage: Option<seq<MergeStep>>, labels: seq<string>, order: seq<int>)
    : (d: Option<Dendrogram>)
    ensures d.None? <==> linkage.None?
    ensures d.Some? ==> d.value.linkage == linkage.value && d.value.labels == labels && d.value.order == order
  {
    match linkage
    case None => None
    case Some(l) => Some(Dendrogram(l, labels, order))
  }

  /** `cluster_data`. An empty frame, or one with fewer than two rows, comes back as it
      is with no dendrograms. Otherwise the normalised matrix is permuted by the row and
      column leaf orders, the labels move with it, and each axis with at least two items
      carries its dendrogram record (original labels plus the order used). */
  function ClusterData<V>(df: Frame<V>, lib: Numerics<V>): (r: ClusterResult<V>)
    requires df.Valid() && LibraryFits(lib, df)
    ensures df.IsEmpty() ==> r.data == [] && r.genes == [] && r.samples == []
    ensures !df.IsEmpty() && |df.index| < 2 ==>
      r.data == df.values && r.genes == df.index && r.samples == df.columns
    ensures df.IsEmpty() || |df.index| < 2 ==> r.rowDendrogram.None? && r.colDendrogram.None?
    ensures !df.IsEmpty() && |df.index| >= 2 ==>
      var m, n := |df.index|, |df.columns|;
      var z, ro, co := lib.normalize(df.values), RowClustering(lib, df).1, ColumnClustering(lib, df).1;
      IsMatrix(r.data, m, n) && |r.genes| == m && |r.samples| == n
      && (forall i, j :: 0 <= i < m && 0 <= j < n ==> r.data[i][j] == z[ro[i]][co[j]])
      && (forall i :: 0 <= i < m ==> r.genes[i] == df.index[ro[i]])
      && (forall j :: 0 <= j < n ==> r.samples[j] == df.columns[co[j]])
      && r.rowDendrogram == Some(Dendrogram(lib.linkage(z), df.index, ro))
      && (r.colDendrogram.Some? <==> n >= 2)
      && (n >= 2 ==> r.colDendrogram.value == Dendrogram(lib.linkage(Transpose(z, n)), df.columns, co))
  {
    if df.IsEmpty() || |df.index| < 2 then
      ClusterResult(
        if df.IsEmpty() then [] else df.values,
        if df.IsEmpty() then [] else df.index,
        if df.IsEmpty() then [] else df.columns,
        None, None)
    else
      var z := lib.normalize(df.values);
      var n := |df.columns|;  // the width of z
      var (rowLinkage, rowOrder) := RowClustering(lib, df);
      var (colLinkage, colOrder) := ColumnClustering(lib, df);
      ClusterResult(
        Reorder(z, n, rowOrder, colOrder),
        Pick(df.index, rowOrder),
        Pick(df.columns, colOrder),
        PrepareDendrogramData(Some(rowLinkage), df.index, rowOrder),
        if colLinkage.Some? then PrepareDendrogramData(colLinkage, df.columns, colOrder) else None)
  }

  /** The clustered labels are rearrangements of the frame's labels: no gene or sample is
      lost or repeated. */
  lemma ClusterLabelsArePermutations<V>(df: Frame<V>, lib: Numerics<V>)
    requires df.Valid() && LibraryFits(lib, df) && !df.IsEmpty() && |df.index| >= 2
    ensures var r := ClusterData(df, lib);
      multiset(r.genes) == multiset(df.index) && multiset(r.samples) == multiset(df.columns)
  {
    var r := ClusterData(df, lib);
    var ro, co := RowClustering(lib, df).1, ColumnClustering(lib, df).1;
    assert r.genes == Pick(df.index, ro);
    assert r.samples == Pick(df.columns, co);
    PickPermutationMultiset(df.index, ro);
    PickPermutationMultiset(df.columns, co);
  }

  /** The clustered matrix is the normalised matrix rearranged: permuting it back by the
      inverse leaf orders recovers the normalised matrix exactly. */
  lemma ClusterDataUndo<V>(df: Frame<V>, lib: Numerics<V>)
    requires df.Valid() && LibraryFits(lib, df) && !df.IsEmpty() && |df.index| >= 2
    ensures var r := ClusterData(df, lib);
      var ro, co := RowClustering(lib, df).1, ColumnClustering(lib, df).1;
      Reorder(r.data, |df.columns|, Inverse(ro), Inverse(co)) == lib.normalize(df.values)
  {
    var z, n := lib.normalize(df.values), |df.columns|;
    var ro, co := RowClustering(lib, df).1, ColumnClustering(lib, df).1;
    var r := ClusterData(df, lib);
    assert r.data == Reorder(z, n, ro, co);
    ReorderInverse(z, n, ro, co);
  }

  /** Each dendrogram record lines up with the result: its labels read in its order are
      exactly the reordered labels of that axis. */
  lemma DendrogramsAlign<V>(df: Frame<V>, lib: Numerics<V>)
    requires df.Valid() && LibraryFits(lib, df)
    ensures var r := ClusterData(df, lib);
      (r.rowDendrogram.Some? ==>
         var d := r.rowDendrogram.value;
         InRange(d.order, |d.labels|) && Pick(d.labels, d.order) == r.genes)
      && (r.colDendrogram.Some? ==>
         var d := r.colDendrogram.value;
         InRange(d.order, |d.labels|) && Pick(d.labels, d.order) == r.samples)
  {
  }

  /** Every gene of a clustered selection was requested: selecting rows and clustering them
      never brings in a gene that was not asked for. */
  lemma ClusteredGenesWereRequested<V>(df: Frame<V>, genes: seq<string>, lib: Numerics<V>)
    requires df.Valid() && LibraryFits(lib, SelectRows(df, genes))
    ensures var r := ClusterData(SelectRows(df, genes), lib);
      forall i :: 0 <= i < |r.genes| ==> r.genes[i] in genes
  {
    var sub := SelectRows(df, genes);
    SelectRowsExact(df, genes);
    var r := ClusterData(sub, lib);
    if !sub.IsEmpty() && |sub.index| >= 2 {
      var ro := RowClustering(lib, sub).1;
      forall i | 0 <= i < |r.genes| ensures r.genes[i] in genes {
        assert r.genes[i] == sub.index[ro[i]];
      }
    }
  }

  /** The processor over the two loaded datasets (BrainSpan and GTEx). */
  class Processor<V> {
    const brainspan: Frame<V>
    const gtex: Frame<V>

    ghost predicate Valid() {
      brainspan.Valid() && gtex.Valid()
    }

    /** The processor after loading. A missing file gives `EmptyFrame()` for that dataset;
        an error while reading either file gives `EmptyFrame()` for both. */
    constructor (brainspan: Frame<V>, gtex: Frame<V>)
      requires brainspan.Valid() && gtex.Valid()
      ensures Valid() && this.brainspan == brainspan && this.gtex == gtex
    {
      this.brainspan := brainspan;
      this.gtex := gtex;
    }

    /** The available-gene set as `validate_genes` builds it: start empty and add the
        index of each dataset that is not empty. */
    method CollectAvailableGenes() returns (available: set<string>)
      ensures available == AvailableGenes(brainspan, gtex)
      ensures forall g :: g in available <==>
        (!brainspan.IsEmpty() && g in brainspan.index) || (!gtex.IsEmpty() && g in gtex.index)
    {
      available := {};
      if !brainspan.IsEmpty() {
        available := available + set g | g in brainspan.index;
      }
      if !gtex.IsEmpty() {
        available := available + set g | g in gtex.index;
      }
    }

    /** `validate_genes`: one pass over the request list, appending each request to the
        valid or the invalid list. */
    method ValidateGenes(geneList: seq<string>) returns (valid: seq<string>, invalid: seq<string>)
      ensures (valid, invalid) == Partition(AvailableGenes(brainspan, gtex), geneList)
    {
      valid, invalid := [], [];
      var available := CollectAvailableGenes();
      for i := 0 to |geneList|
        invariant (valid, invalid) == Partition(available, geneList[..i])
      {
        assert geneList[..i + 1][..i] == geneList[..i];
        var geneUpper := Upper(Strip(geneList[i]));
        if geneUpper in available {
          valid := valid + [geneUpper];
        } else {
          invalid := invalid + [Strip(geneList[i])];
        }
      }
      assert geneList[..|geneList|] == geneList;
    }

    /** `get_expression_data`: per dataset, the requested rows with every column. */
    function GetExpressionData(geneList: seq<string>): (subsets: (Frame<V>, Frame<V>))
      requires Valid()
      ensures subsets.0.Valid() && subsets.1.Valid()
      ensures forall k :: 0 <= k < |subsets.0.index| ==> subsets.0.index[k] in geneList
      ensures forall k :: 0 <= k < |subsets.1.index| ==> subsets.1.index[k] in geneList
      ensures !brainspan.IsEmpty() ==> subsets.0.columns == brainspan.columns
      ensures !gtex.IsEmpty() ==> subsets.1.columns == gtex.columns
      ensures brainspan.IsEmpty() ==> subsets.0 == EmptyFrame()
      ensures gtex.IsEmpty() ==> subsets.1 == EmptyFrame()
      ensures !brainspan.IsEmpty() ==>
        var pos := Positions(brainspan.index, Requested(geneList));
        subsets.0.index == Pick(brainspan.index, pos) && subsets.0.values == Pick(brainspan.values, pos)
      ensures !gtex.IsEmpty() ==>
        var pos := Positions(gtex.index, Requested(geneList));
        subsets.1.index == Pick(gtex.index, pos) && subsets.1.values == Pick(gtex.values, pos)
      ensures !brainspan.IsEmpty() ==>
        forall i :: 0 <= i < |brainspan.index| && brainspan.index[i] in geneList ==>
          exists k :: 0 <= k < |subsets.0.index| && subsets.0.index[k] == brainspan.index[i]
                      && subsets.0.values[k] == brainspan.values[i]
      ensures !gtex.IsEmpty() ==>
        forall i :: 0 <= i < |gtex.index| && gtex.index[i] in geneList ==>
          exists k :: 0 <= k < |subsets.1.index| && subsets.1.index[k] == gtex.index[i]
                      && subsets.1.values[k] == gtex.values[i]
    {
      SelectRowsExact(brainspan, geneList);
      SelectRowsExact(gtex, geneList);
      (SelectRows(brainspan, geneList), SelectRows(gtex, geneList))
    }
  }
}
