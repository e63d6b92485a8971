/** The prolongation P of the multigrid-reduction solver, built from a C/F
    marker and an operator W whose rows belong to the F-points: every
    point with a non-negative marker gets an identity row, and the k-th
    F-point (negative marker) takes row k of W, negated in
    hypre_MGRBuildPFromWpHost and as it is in hypre_ExtendWtoPHost. */
module Interp {
  import opened Csr
  import opened Markers

  /** How the rows of one block of P are stacked: the marker `cf`, the
      column given to each identity entry, the block `w` of W (with nW
      rows), and three switches: whether points with a non-negative marker
      get an identity entry, whether F-points copy their W row, and whether
      the copied values are negated. */
  datatype Stack = Stack(cf: seq<int>, coarseCol: seq<int>, w: Matrix, nW: nat,
                         identity: bool, copy: bool, negate: bool)

  predicate WellFormed(s: Stack)
  {
    Valid(s.w, s.nW) && |s.coarseCol| == |s.cf| && CountTrue(Negative(s.cf)) <= s.nW
  }

  /** Row i of the stacked block. */
  function RowOf(s: Stack, i: int): seq<Entry>
    requires WellFormed(s) && 0 <= i < |s.cf|
  {
    if s.cf[i] >= 0 then (if s.identity then [Entry(s.coarseCol[i], 1.0)] else [])
    else if !s.copy then []
    else
      RankBelowCount(Negative(s.cf), i);
      var e := Row(s.w, s.nW, Rank(Negative(s.cf), i));
      if s.negate then NegateEntries(e) else e
  }

  function RowsOf(s: Stack): seq<seq<Entry>>
    requires WellFormed(s)
  {
    seq(|s.cf|, i requires 0 <= i < |s.cf| => RowOf(s, i))
  }

  /** The entries of the first k rows, in order (what the row loop has
      written after k iterations). */
  function EntriesUpTo(s: Stack, k: nat): seq<Entry>
    requires WellFormed(s) && k <= |s.cf|
  {
    if k == 0 then [] else EntriesUpTo(s, k - 1) + RowOf(s, k - 1)
  }

  /** The row pointers of the first k rows. */
  function StartsUpTo(s: Stack, k: nat): seq<int>
    requires WellFormed(s) && k <= |s.cf|
  {
    if k == 0 then [] else StartsUpTo(s, k - 1) + [|EntriesUpTo(s, k - 1)|]
  }

  /** What the row loop has written after k rows is the CSR layout of the
      first k stacked rows. */
  lemma UpToLayout(s: Stack, k: nat)
    requires WellFormed(s) && k <= |s.cf|
    ensures EntriesUpTo(s, k) == Flatten(RowsOf(s)[..k])
    ensures StartsUpTo(s, k) + [|EntriesUpTo(s, k)|] == Starts(RowsOf(s)[..k])
  {
    EntriesLayout(s, k);
    StartsLayout(s, k);
  }

  lemma {:induction false} EntriesLayout(s: Stack, k: nat)
    requires WellFormed(s) && k <= |s.cf|
    ensures EntriesUpTo(s, k) == Flatten(RowsOf(s)[..k])
  {
    var rows := RowsOf(s);
    if k == 0 {
      assert rows[..0] == [];
    } else {
      EntriesLayout(s, k - 1);
      FlattenStep(rows, k - 1);
    }
  }

  lemma {:induction false} StartsLayout(s: Stack, k: nat)
    requires WellFormed(s) && k <= |s.cf|
    ensures StartsUpTo(s, k) + [|EntriesUpTo(s, k)|] == Starts(RowsOf(s)[..k])
  {
    var rows := RowsOf(s);
    EntriesLayout(s, k);
    if k == 0 {
      assert rows[..0] == [];
    } else {
      StartsLayout(s, k - 1);
      assert rows[..k][..k - 1] == rows[..k - 1];
    }
  }

  /** The number of entries of row i: one identity entry, the length of
      the W row the point copies, or none. */
  function RowLen(s: Stack, i: int): int
    requires WellFormed(s) && 0 <= i < |s.cf|
  {
    if s.cf[i] >= 0 then (if s.identity then 1 else 0)
    else if !s.copy then 0
    else
      RankBelowCount(Negative(s.cf), i);
      s.w.rowPtr[Rank(Negative(s.cf), i) + 1] - s.w.rowPtr[Rank(Negative(s.cf), i)]
  }

  /** The number of entries of the first k rows. */
  function FillUpTo(s: Stack, k: nat): int
    requires WellFormed(s) && k <= |s.cf|
  {
    if k == 0 then 0 else FillUpTo(s, k - 1) + RowLen(s, k - 1)
  }

  /** The first k rows hold one identity entry per point with a
      non-negative marker (when identities are stacked) plus the W entries
      of the F-points among them (when rows are copied). */
  lemma FillCount(s: Stack, k: nat)
    requires WellFormed(s) && k <= |s.cf|
    ensures |EntriesUpTo(s, k)|
         == (if s.identity then Rank(NonNegative(s.cf), k) else 0)
          + (if s.copy then s.w.rowPtr[Rank(Negative(s.cf), k)] else 0)
  {
    EntriesLength(s, k);
    FillSum(s, k);
  }

  /** FillUpTo counts the entries the first k rows hold. */
  lemma {:induction false} EntriesLength(s: Stack, k: nat)
    requires WellFormed(s) && k <= |s.cf|
    ensures |EntriesUpTo(s, k)| == FillUpTo(s, k)
  {
    if k > 0 {
      EntriesLength(s, k - 1);
      RowLength(s, k - 1);
    }
  }

  lemma RowLength(s: Stack, i: nat)
    requires WellFormed(s) && i < |s.cf|
    ensures |RowOf(s, i)| == RowLen(s, i)
  {
    if s.cf[i] < 0 && s.copy {
      RankBelowCount(Negative(s.cf), i);
      RowBounds(s.w, s.nW, Rank(Negative(s.cf), i));
    }
  }

  /** The sum of the row lengths, in closed form. */
  lemma {:induction false} FillSum(s: Stack, k: nat)
    requires WellFormed(s) && k <= |s.cf|
    ensures FillUpTo(s, k)
         == (if s.identity then Rank(NonNegative(s.cf), k) else 0)
          + (if s.copy then s.w.rowPtr[Rank(Negative(s.cf), k)] else 0)
  {
    if k > 0 {
      FillSum(s, k - 1);
    }
  }

  /** The identity entries of all points with a non-negative marker (when
      identities are stacked) plus the W entries of all F-points (when rows
      are copied). */
  function FillLimit(s: Stack): int
    requires WellFormed(s)
  {
    (if s.identity then CountTrue(NonNegative(s.cf)) else 0)
      + (if s.copy then s.w.rowPtr[CountTrue(Negative(s.cf))] else 0)
  }

  /** The first k rows never hold more than FillLimit entries. */
  lemma FillBound(s: Stack, k: nat)
    requires WellFormed(s) && k <= |s.cf|
    ensures |EntriesUpTo(s, k)| <= FillLimit(s)
  {
    FillCount(s, k);
    RowPtrMono(s.w, s.nW, Rank(Negative(s.cf), k), CountTrue(Negative(s.cf)));
  }

  /** The identity rows number the points with a non-negative marker
      consecutively when the identity column is the rank among them: the
      c-th such point holds the single entry (c, 1.0), so every coarse
      column 0 .. #C-1 is hit exactly once. */
  lemma StackedCoarseIdentity(s: Stack)
    requires WellFormed(s) && s.identity && s.coarseCol == Ranks(NonNegative(s.cf))
    ensures forall c :: 0 <= c < CountTrue(NonNegative(s.cf)) ==>
      var i := Indices(NonNegative(s.cf))[c];
      0 <= i < |s.cf| && s.cf[i] >= 0 && RowsOf(s)[i] == [Entry(c, 1.0)]
    ensures forall i :: 0 <= i < |s.cf| && s.cf[i] >= 0 ==>
      RowsOf(s)[i] == [Entry(Rank(NonNegative(s.cf), i), 1.0)] &&
      Rank(NonNegative(s.cf), i) < CountTrue(NonNegative(s.cf))
  {
    IndicesSpec(NonNegative(s.cf));
    forall c | 0 <= c < CountTrue(NonNegative(s.cf))
      ensures var i := Indices(NonNegative(s.cf))[c];
        0 <= i < |s.cf| && s.cf[i] >= 0 && RowsOf(s)[i] == [Entry(c, 1.0)]
    {
      RankOfIndex(NonNegative(s.cf), c);
    }
    forall i | 0 <= i < |s.cf| && s.cf[i] >= 0
      ensures Rank(NonNegative(s.cf), i) < CountTrue(NonNegative(s.cf))
    {
      RankBelowCount(NonNegative(s.cf), i);
    }
  }

  /** The F-points take the W rows in order: the k-th point with a
      negative marker carries row k of W, negated when asked. */
  lemma StackedFineRows(s: Stack)
    requires WellFormed(s) && s.copy
    ensures forall k :: 0 <= k < CountTrue(Negative(s.cf)) ==>
      var i := Indices(Negative(s.cf))[k];
      0 <= i < |s.cf| && s.cf[i] < 0 && k < s.nW &&
      RowsOf(s)[i] == (if s.negate then NegateEntries(Row(s.w, s.nW, k)) else Row(s.w, s.nW, k))
  {
    IndicesSpec(Negative(s.cf));
    forall k | 0 <= k < CountTrue(Negative(s.cf))
      ensures var i := Indices(Negative(s.cf))[k];
        0 <= i < |s.cf| && s.cf[i] < 0 && k < s.nW &&
        RowsOf(s)[i] == (if s.negate then NegateEntries(Row(s.w, s.nW, k)) else Row(s.w, s.nW, k))
    {
      RankOfIndex(Negative(s.cf), k);
    }
  }

  /** The destination buffers hold the entries of the first k stacked rows
      at their front and the original contents `baseCols`/`baseVals`
      behind them. */
  predicate Laid(s: Stack, k: nat, cols: seq<int>, vals: seq<real>, baseCols: seq<int>, baseVals: seq<real>)
    requires WellFormed(s) && k <= |s.cf|
  {
    var e := EntriesUpTo(s, k);
    && |cols| == |baseCols| && |vals| == |baseVals| && |e| <= |cols| && |e| <= |vals|
    && cols == ColsOf(e) + baseCols[|e|..]
    && vals == ValsOf(e) + baseVals[|e|..]
  }

  /** One row of the stacked block written at position `at` of the
      destination buffers, after the rows before it: the identity entry
      (column `col`, the counter the caller keeps), the W row `rowW` (with
      negated values when asked), or nothing. */
  method PlaceRow(s: Stack, i: nat, col: int, rowW: nat, dj: array<int>, dd: array<real>, at: nat)
    returns (next: nat)
    requires WellFormed(s) && i < |s.cf|
    requires col == s.coarseCol[i] && rowW == Rank(Negative(s.cf), i)
    requires at + |RowOf(s, i)| <= dj.Length && at + |RowOf(s, i)| <= dd.Length
    modifies dj, dd
    ensures next == at + |RowOf(s, i)|
    ensures dj[..] == Splice(old(dj[..]), at, ColsOf(RowOf(s, i)))
    ensures dd[..] == Splice(old(dd[..]), at, ValsOf(RowOf(s, i)))
  {
    ghost var row := RowOf(s, i);
    ghost var oldCols, oldVals := dj[..], dd[..];
    if s.cf[i] >= 0 {
      if s.identity {
        assert ColsOf(row) == [col] && ValsOf(row) == [1.0];
        dj[at] := col;
        dd[at] := 1.0;
        next := at + 1;
        assert dj[..] == Splice(oldCols, at, ColsOf(row));
        assert dd[..] == Splice(oldVals, at, ValsOf(row));
      } else {
        assert ColsOf(row) == [] && ValsOf(row) == [];
        next := at;
        assert dj[..] == Splice(oldCols, at, ColsOf(row));
        assert dd[..] == Splice(oldVals, at, ValsOf(row));
      }
    } else if s.copy {
      RankBelowCount(Negative(s.cf), i);
      var lo, hi := s.w.rowPtr[rowW], s.w.rowPtr[rowW + 1];
      RowSlices(s.w, s.nW, rowW, s.negate);
      next := AppendEntries(s.w, lo, hi, s.negate, dj, dd, at);
    } else {
      assert ColsOf(row) == [] && ValsOf(row) == [];
      next := at;
      assert dj[..] == Splice(oldCols, at, ColsOf(row));
      assert dd[..] == Splice(oldVals, at, ValsOf(row));
    }
  }

  /** Writing row i behind the first i rows lays out the first i + 1 rows. */
  lemma LaidStep(s: Stack, i: nat, cols: seq<int>, vals: seq<real>, baseCols: seq<int>, baseVals: seq<real>)
    requires WellFormed(s) && i < |s.cf|
    requires Laid(s, i, cols, vals, baseCols, baseVals)
    requires |EntriesUpTo(s, i + 1)| <= |cols| && |EntriesUpTo(s, i + 1)| <= |vals|
    ensures |EntriesUpTo(s, i + 1)| == |EntriesUpTo(s, i)| + |RowOf(s, i)|
    ensures var at := |EntriesUpTo(s, i)|;
      Laid(s, i + 1, Splice(cols, at, ColsOf(RowOf(s, i))), Splice(vals, at, ValsOf(RowOf(s, i))), baseCols, baseVals)
  {
    var e, r := EntriesUpTo(s, i), RowOf(s, i);
    ColsValsOfConcat(e, r);
    SpliceAfter(ColsOf(e), baseCols, ColsOf(r));
    SpliceAfter(ValsOf(e), baseVals, ValsOf(r));
  }

  /** After k passes of a row loop: the buffers are laid out for the
      first k rows, `at` counts their entries and the row pointer holds
      their starts. */
  predicate DiagWritten(s: Stack, k: nat, ptr: seq<int>, cols: seq<int>, vals: seq<real>,
                        baseCols: seq<int>, baseVals: seq<real>, at: int)
    requires WellFormed(s) && k <= |s.cf|
  {
    && |ptr| == |s.cf| + 1 && at == |EntriesUpTo(s, k)|
    && Laid(s, k, cols, vals, baseCols, baseVals)
    && ptr[..k] == StartsUpTo(s, k)
  }

  /** The off-diagonal counterpart: zero-filled buffers of `size` entries,
      the row pointer written one position ahead (the running count), and
      its last position still the buffer size until the last pass. */
  predicate OffdWritten(s: Stack, k: nat, ptr: seq<int>, cols: seq<int>, vals: seq<real>,
                        baseCols: seq<int>, baseVals: seq<real>, size: nat, at: int)
    requires WellFormed(s) && k <= |s.cf|
  {
    && |ptr| == |s.cf| + 1 && at == |EntriesUpTo(s, k)|
    && Laid(s, k, cols, vals, baseCols, baseVals)
    && (|s.cf| > 0 ==> ptr[..k + 1] == StartsUpTo(s, k) + [at])
    && (k < |s.cf| ==> ptr[|s.cf|] == size)
    && (|s.cf| == 0 ==> ptr[0] == size)
  }

  /** The diagonal half of one pass of the row loop: row i's start is
      recorded in the row pointer and its entries are written behind the
      first i rows. */
  method DiagRow(s: Stack, i: nat, col: int, rowW: nat, ptr: array<int>, dj: array<int>, dd: array<real>,
                 at: nat, ghost baseCols: seq<int>, ghost baseVals: seq<real>) returns (next: nat)
    requires WellFormed(s) && i < |s.cf| && ptr != dj
    requires col == s.coarseCol[i] && rowW == Rank(Negative(s.cf), i)
    requires DiagWritten(s, i, ptr[..], dj[..], dd[..], baseCols, baseVals, at)
    requires |EntriesUpTo(s, i + 1)| <= dj.Length && |EntriesUpTo(s, i + 1)| <= dd.Length
    modifies ptr, dj, dd
    ensures DiagWritten(s, i + 1, ptr[..], dj[..], dd[..], baseCols, baseVals, next)
    ensures ptr[|s.cf|] == old(ptr[|s.cf|])
  {
    LaidStep(s, i, dj[..], dd[..], baseCols, baseVals);
    ptr[i] := at;
    next := PlaceRow(s, i, col, rowW, dj, dd, at);
  }

  /** The off-diagonal half of one pass of the row loop of
      hypre_MGRBuildPFromWpHost: an F-row records its start, its entries
      are written, and the next row pointer is set to the running count. */
  method OffdRow(s: Stack, i: nat, col: int, rowW: nat, ptr: array<int>, dj: array<int>, dd: array<real>,
                 at: nat, ghost baseCols: seq<int>, ghost baseVals: seq<real>, ghost size: nat) returns (next: nat)
    requires WellFormed(s) && i < |s.cf| && ptr != dj
    requires col == s.coarseCol[i] && rowW == Rank(Negative(s.cf), i)
    requires OffdWritten(s, i, ptr[..], dj[..], dd[..], baseCols, baseVals, size, at)
    requires |EntriesUpTo(s, i + 1)| <= dj.Length && |EntriesUpTo(s, i + 1)| <= dd.Length
    modifies ptr, dj, dd
    ensures OffdWritten(s, i + 1, ptr[..], dj[..], dd[..], baseCols, baseVals, size, next)
  {
    LaidStep(s, i, dj[..], dd[..], baseCols, baseVals);
    if s.cf[i] < 0 {
      ptr[i] := at;
    }
    next := PlaceRow(s, i, col, rowW, dj, dd, at);
    ptr[i + 1] := next;
  }

  /** Row i of the diagonal block written into buffers that hold all the
      stacked rows. */
  method DiagPass(s: Stack, i: nat, col: int, rowW: nat, ptr: array<int>, dj: array<int>, dd: array<real>,
                  at: nat, ghost baseCols: seq<int>, ghost baseVals: seq<real>) returns (next: nat)
    requires WellFormed(s) && i < |s.cf| && ptr != dj
    requires col == s.coarseCol[i] && rowW == Rank(Negative(s.cf), i)
    requires DiagWritten(s, i, ptr[..], dj[..], dd[..], baseCols, baseVals, at)
    requires |EntriesUpTo(s, |s.cf|)| <= dj.Length && |EntriesUpTo(s, |s.cf|)| <= dd.Length
    modifies ptr, dj, dd
    ensures DiagWritten(s, i + 1, ptr[..], dj[..], dd[..], baseCols, baseVals, next)
    ensures ptr[|s.cf|] == old(ptr[|s.cf|])
  {
    EntriesGrow(s, i + 1, |s.cf|);
    next := DiagRow(s, i, col, rowW, ptr, dj, dd, at, baseCols, baseVals);
  }

  /** Row i of the off-diagonal block written into buffers that hold all
      the stacked rows. */
  method OffdPass(s: Stack, i: nat, col: int, rowW: nat, ptr: array<int>, dj: array<int>, dd: array<real>,
                  at: nat, ghost baseCols: seq<int>, ghost baseVals: seq<real>, ghost size: nat) returns (next: nat)
    requires WellFormed(s) && i < |s.cf| && ptr != dj
    requires col == s.coarseCol[i] && rowW == Rank(Negative(s.cf), i)
    requires OffdWritten(s, i, ptr[..], dj[..], dd[..], baseCols, baseVals, size, at)
    requires |EntriesUpTo(s, |s.cf|)| <= dj.Length && |EntriesUpTo(s, |s.cf|)| <= dd.Length
    modifies ptr, dj, dd
    ensures OffdWritten(s, i + 1, ptr[..], dj[..], dd[..], baseCols, baseVals, size, next)
  {
    EntriesGrow(s, i + 1, |s.cf|);
    next := OffdRow(s, i, col, rowW, ptr, dj, dd, at, baseCols, baseVals, size);
  }

  /** The diagonal block of P from Wp: identities numbered by the rank
      among non-negative markers, F rows the negated Wp_diag rows. */
  function DiagStack(cf: seq<int>, wpDiag: Matrix, nWp: nat): Stack
  {
    Stack(cf, Ranks(NonNegative(cf)), wpDiag, nWp, true, true, true)
  }

  /** The off-diagonal block of P from Wp: no identities; F rows the
      negated Wp_offd rows, copied only when there are several processes. */
  function OffdStack(cf: seq<int>, wpOffd: Matrix, nWp: nat, multi: bool): Stack
  {
    Stack(cf, Ranks(NonNegative(cf)), wpOffd, nWp, false, multi, true)
  }

  /** The buffers of P as hypre_MGRBuildPFromWpHost allocates them:
      zero-filled, with the last row pointer of each block set to the size
      of its column and value buffers. */
  method AllocP(n: nat, size: nat, osize: nat)
    returns (pdi: array<int>, pdj: array<int>, pdd: array<real>, poi: array<int>, poj: array<int>, pod: array<real>)
    ensures fresh(pdi) && fresh(pdj) && fresh(pdd) && fresh(poi) && fresh(poj) && fresh(pod)
    ensures pdi != pdj && pdi != poi && pdi != poj && pdj != poi && pdj != poj && poi != poj && pdd != pod
    ensures pdi.Length == n + 1 && poi.Length == n + 1
    ensures pdi[..n] == Zeros(n) && pdi[n] == size && poi[..n] == Zeros(n) && poi[n] == osize
    ensures pdj[..] == Zeros(size) && pdd[..] == RealZeros(size)
    ensures poj[..] == Zeros(osize) && pod[..] == RealZeros(osize)
  {
    pdi := new int[n + 1](_ => 0);
    pdj := new int[size](_ => 0);
    pdd := new real[size](_ => 0.0);
    pdi[n] := size;
    poi := new int[n + 1](_ => 0);
    poj := new int[osize](_ => 0);
    pod := new real[osize](_ => 0.0);
    poi[n] := osize;
  }

  /** hypre_MGRBuildPFromWpHost on one process's rows.  Wp has one row per
      F-point in its first rows; the caller guarantees that the entries
      written fit the allocated nnz(Wp_diag) + numCols(Wp_diag). */
  method BuildPFromWp(cf: seq<int>, wpDiag: Matrix, wpOffd: Matrix, nWp: nat, wpDiagCols: nat, numProcs: int)
    returns (pDiag: Matrix, pOffd: Matrix)
    requires Valid(wpDiag, nWp) && Valid(wpOffd, nWp)
    requires CountTrue(Negative(cf)) <= nWp
    requires CountTrue(NonNegative(cf)) + wpDiag.rowPtr[CountTrue(Negative(cf))] <= |wpDiag.colIdx| + wpDiagCols
    ensures var rows := RowsOf(DiagStack(cf, wpDiag, nWp));
      |Flatten(rows)| <= |wpDiag.colIdx| + wpDiagCols && pDiag == Padded(rows, |wpDiag.colIdx| + wpDiagCols)
    ensures var rows := RowsOf(OffdStack(cf, wpOffd, nWp, numProcs > 1));
      |Flatten(rows)| <= |wpOffd.colIdx| && pOffd == Filled(rows, |wpOffd.colIdx|)
  {
    RowPtrMono(wpOffd, nWp, CountTrue(Negative(cf)), nWp);
    pDiag, pOffd := BuildBlocks(DiagStack(cf, wpDiag, nWp), OffdStack(cf, wpOffd, nWp, numProcs > 1),
                                |wpDiag.colIdx| + wpDiagCols, |wpOffd.colIdx|);
  }

  /** The allocation and the row loop of hypre_MGRBuildPFromWpHost for
      the two stacked blocks, the diagonal one padded to `size` entries
      and the off-diagonal one filled to `osize` entries. */
  method BuildBlocks(ds: Stack, os: Stack, size: nat, osize: nat) returns (pDiag: Matrix, pOffd: Matrix)
    requires WellFormed(ds) && WellFormed(os) && os.cf == ds.cf
    requires ds.coarseCol == Ranks(NonNegative(ds.cf)) && os.coarseCol == ds.coarseCol
    requires FillLimit(ds) <= size && FillLimit(os) <= osize
    ensures |Flatten(RowsOf(ds))| <= size && pDiag == Padded(RowsOf(ds), size)
    ensures |Flatten(RowsOf(os))| <= osize && pOffd == Filled(RowsOf(os), osize)
  {
    var n := |ds.cf|;
    FillBound(ds, n);
    FillBound(os, n);
    var pdi, pdj, pdd, poi, poj, pod := AllocP(n, size, osize);
    DiagStart(ds, pdi[..], pdj[..], pdd[..]);
    OffdStart(os, poi[..], poj[..], pod[..], osize);
    var jj, jjo := RowLoop(ds, os, size, osize, pdi, pdj, pdd, poi, poj, pod, pdj[..], pdd[..], poj[..], pod[..]);
    DiagLaidOut(ds, pdi[..], pdj[..], pdd[..], size);
    OffdLaidOut(os, poi[..], poj[..], pod[..], osize);
    pDiag := Matrix(pdi[..], pdj[..], pdd[..]);
    pOffd := Matrix(poi[..], poj[..], pod[..]);
  }

  /** Before the first pass nothing is written: the buffers are their own
      base. */
  lemma DiagStart(s: Stack, ptr: seq<int>, cols: seq<int>, vals: seq<real>)
    requires WellFormed(s) && |ptr| == |s.cf| + 1
    ensures DiagWritten(s, 0, ptr, cols, vals, cols, vals, 0)
  {
    assert EntriesUpTo(s, 0) == [] && StartsUpTo(s, 0) == [];
  }

  lemma OffdStart(s: Stack, ptr: seq<int>, cols: seq<int>, vals: seq<real>, size: nat)
    requires WellFormed(s) && |ptr| == |s.cf| + 1
    requires (|s.cf| > 0 ==> ptr[0] == 0) && ptr[|s.cf|] == size
    ensures OffdWritten(s, 0, ptr, cols, vals, cols, vals, size, 0)
  {
    assert EntriesUpTo(s, 0) == [] && StartsUpTo(s, 0) == [];
  }

  /** The row loop of hypre_MGRBuildPFromWpHost: pass i writes row i of
      both blocks.  `coarse` and `rowWp` count the points seen so far with
      a non-negative and a negative marker. */
  method RowLoop(ds: Stack, os: Stack, size: nat, osize: nat,
                 pdi: array<int>, pdj: array<int>, pdd: array<real>, poi: array<int>, poj: array<int>, pod: array<real>,
                 ghost dCols: seq<int>, ghost dVals: seq<real>, ghost oCols: seq<int>, ghost oVals: seq<real>)
    returns (jj: nat, jjo: nat)
    requires WellFormed(ds) && WellFormed(os) && os.cf == ds.cf
    requires ds.coarseCol == Ranks(NonNegative(ds.cf)) && os.coarseCol == ds.coarseCol
    requires |EntriesUpTo(ds, |ds.cf|)| <= size && |EntriesUpTo(os, |ds.cf|)| <= osize
    requires pdi != pdj && pdi != poi && pdi != poj && pdj != poi && pdj != poj && poi != poj && pdd != pod
    requires pdj.Length == size && pdd.Length == size && poj.Length == osize && pod.Length == osize
    requires DiagWritten(ds, 0, pdi[..], pdj[..], pdd[..], dCols, dVals, 0) && pdi[|ds.cf|] == size
    requires OffdWritten(os, 0, poi[..], poj[..], pod[..], oCols, oVals, osize, 0)
    modifies pdi, pdj, pdd, poi, poj, pod
    ensures DiagWritten(ds, |ds.cf|, pdi[..], pdj[..], pdd[..], dCols, dVals, jj) && pdi[|ds.cf|] == size
    ensures OffdWritten(os, |ds.cf|, poi[..], poj[..], pod[..], oCols, oVals, osize, jjo)
  {
    var n := |ds.cf|;
    jj, jjo := 0, 0;
    var rowWp, coarse := 0, 0;
    var i := 0;
    while i < n
      invariant 0 <= i <= n
      invariant coarse == Rank(NonNegative(ds.cf), i) && rowWp == Rank(Negative(ds.cf), i)
      invariant DiagWritten(ds, i, pdi[..], pdj[..], pdd[..], dCols, dVals, jj) && pdi[n] == size
      invariant OffdWritten(os, i, poi[..], poj[..], pod[..], oCols, oVals, osize, jjo)
    {
      jj := DiagPass(ds, i, coarse, rowWp, pdi, pdj, pdd, jj, dCols, dVals);
      jjo := OffdPass(os, i, coarse, rowWp, poi, poj, pod, jjo, oCols, oVals, osize);
      coarse, rowWp := CountPoint(ds.cf, i, coarse, rowWp);
      i := i + 1;
    }
  }

  /** The counters of the row loop of hypre_MGRBuildPFromWpHost after
      point i: a point with a non-negative marker advances the coarse
      count, any other point the Wp row count. */
  method CountPoint(cf: seq<int>, i: nat, coarse: int, rowWp: int) returns (coarse': int, rowWp': int)
    requires i < |cf| && coarse == Rank(NonNegative(cf), i) && rowWp == Rank(Negative(cf), i)
    ensures coarse' == Rank(NonNegative(cf), i + 1) && rowWp' == Rank(Negative(cf), i + 1)
  {
    coarse', rowWp' := coarse, rowWp;
    if cf[i] >= 0 {
      coarse' := coarse + 1;
    } else {
      rowWp' := rowWp + 1;
    }
  }

  /** The entries written never shrink from one pass to the next. */
  lemma {:induction false} EntriesGrow(s: Stack, k: nat, k': nat)
    requires WellFormed(s) && k <= k' <= |s.cf|
    ensures |EntriesUpTo(s, k)| <= |EntriesUpTo(s, k')|
    decreases k' - k
  {
    if k < k' {
      EntriesGrow(s, k, k' - 1);
    }
  }

  /** Once every row is written, the diagonal buffers and row pointer are
      the padded layout of the stacked rows. */
  lemma DiagLaidOut(s: Stack, ptr: seq<int>, cols: seq<int>, vals: seq<real>, size: nat)
    requires WellFormed(s)
    requires DiagWritten(s, |s.cf|, ptr, cols, vals, Zeros(size), RealZeros(size), |EntriesUpTo(s, |s.cf|)|)
    requires ptr[|s.cf|] == size
    ensures |Flatten(RowsOf(s))| <= size
    ensures Matrix(ptr, cols, vals) == Padded(RowsOf(s), size)
  {
    var n, rows := |s.cf|, RowsOf(s);
    UpToLayout(s, n);
    assert rows[..n] == rows;
    ZerosSlice(size, |EntriesUpTo(s, n)|);
    assert ptr == ptr[..n] + [size];
    assert Starts(rows)[..n] == StartsUpTo(s, n);
  }

  /** Once every row is written, the off-diagonal buffers hold the stacked
      rows with zero fill, and the row pointer is their layout (or just
      the buffer size when there are no rows). */
  lemma OffdLaidOut(s: Stack, ptr: seq<int>, cols: seq<int>, vals: seq<real>, size: nat)
    requires WellFormed(s)
    requires OffdWritten(s, |s.cf|, ptr, cols, vals, Zeros(size), RealZeros(size), size, |EntriesUpTo(s, |s.cf|)|)
    ensures |Flatten(RowsOf(s))| <= size
    ensures Matrix(ptr, cols, vals) == Filled(RowsOf(s), size)
  {
    var n, rows := |s.cf|, RowsOf(s);
    UpToLayout(s, n);
    assert rows[..n] == rows;
    ZerosSlice(size, |EntriesUpTo(s, n)|);
    assert ptr[..n + 1] == ptr;
    if n == 0 {
      assert ptr == [size];
    }
  }

  /** When Wp has exactly one row per F-point and one column per point
      with a non-negative marker, the allocation is exact: P's diagonal
      block is a valid CSR matrix whose rows are the stacked rows. */
  lemma PFromWpExact(cf: seq<int>, wpDiag: Matrix, nWp: nat, wpDiagCols: nat)
    requires Valid(wpDiag, nWp)
    requires CountTrue(Negative(cf)) == nWp && CountTrue(NonNegative(cf)) == wpDiagCols
    ensures var rows := RowsOf(DiagStack(cf, wpDiag, nWp));
      && |Flatten(rows)| == |wpDiag.colIdx| + wpDiagCols
      && Padded(rows, |wpDiag.colIdx| + wpDiagCols) == Encode(rows)
      && Valid(Encode(rows), |cf|) && Rows(Encode(rows), |cf|) == rows
  {
    var s := DiagStack(cf, wpDiag, nWp);
    FillTotal(s);
    PaddedExact(RowsOf(s), |wpDiag.colIdx| + wpDiagCols);
    EncodeRows(RowsOf(s));
  }

  /** All stacked rows together hold one identity entry per point with a
      non-negative marker (when identities are stacked) plus the W entries
      of all F-points (when rows are copied). */
  lemma FillTotal(s: Stack)
    requires WellFormed(s)
    ensures |Flatten(RowsOf(s))| == FillLimit(s)
  {
    var n := |s.cf|;
    FillCount(s, n);
    UpToLayout(s, n);
    assert RowsOf(s)[..n] == RowsOf(s);
  }

  /** The coarse numbering of hypre_ExtendWtoPHost: points with a positive
      marker are numbered consecutively from 0, all others get -1. */
  function ExtendNumbering(cf: seq<int>): seq<int>
  {
    seq(|cf|, i requires 0 <= i < |cf| => if cf[i] > 0 then Rank(Positive(cf), i) else -1)
  }

  /** The diagonal block of P in hypre_ExtendWtoPHost: identities in the
      column ExtendNumbering gives, F rows the W_diag rows as they are. */
  function ExtendStack(cf: seq<int>, wDiag: Matrix, nW: nat): Stack
  {
    Stack(cf, ExtendNumbering(cf), wDiag, nW, true, true, false)
  }

  /** hypre_ExtendWtoPHost: fills the caller's P_diag_i/j/data and P_offd_i
      from W (its diagonal block and off-diagonal row pointer), the rows of
      W belonging to the F-points in order.  P_offd_i[0] is written only
      when row 0 is an F-point. */
  method ExtendWtoP(cf: seq<int>, wDiag: Matrix, nW: nat, wOffdRowPtr: seq<int>,
                    pdi: array<int>, pdj: array<int>, pdd: array<real>, poi: array<int>)
    requires Valid(wDiag, nW) && |wOffdRowPtr| == nW + 1
    requires CountTrue(Negative(cf)) <= nW
    requires pdi.Length == |cf| + 1 && poi.Length == |cf| + 1
    requires CountTrue(NonNegative(cf)) + wDiag.rowPtr[CountTrue(Negative(cf))] <= pdj.Length
    requires CountTrue(NonNegative(cf)) + wDiag.rowPtr[CountTrue(Negative(cf))] <= pdd.Length
    requires pdi != poi && pdi != pdj && poi != pdj
    modifies pdi, pdj, pdd, poi
    ensures var rows := RowsOf(ExtendStack(cf, wDiag, nW));
      var f := Flatten(rows);
      && pdi[..] == Starts(rows)
      && |f| <= pdj.Length && |f| <= pdd.Length
      && pdj[..] == ColsOf(f) + old(pdj[..])[|f|..]
      && pdd[..] == ValsOf(f) + old(pdd[..])[|f|..]
    ensures poi[0] == (if |cf| > 0 && cf[0] < 0 then 0 else old(poi[0]))
    ensures forall k :: 1 <= k <= |cf| ==> poi[k] == wOffdRowPtr[Rank(Negative(cf), k)] - wOffdRowPtr[0]
  {
    var n := |cf|;
    var f2c := NumberSelected(Positive(cf), -1);
    var es := ExtendStack(cf, wDiag, nW);
    ghost var baseCols, baseVals := pdj[..], pdd[..];
    DiagStart(es, pdi[..], baseCols, baseVals);
    FillBound(es, n);
    var jj := ExtendRows(es, f2c, wOffdRowPtr, pdi, pdj, pdd, poi, baseCols, baseVals);
    ghost var ptr := pdi[..];
    pdi[n] := jj;
    ExtendLaidOut(es, ptr, pdi[..], pdj[..], pdd[..], baseCols, baseVals);
  }

  /** The row loop of hypre_ExtendWtoPHost: every row of the diagonal
      block is written, and P_offd_i receives the running count of W_offd
      entries of the F-points seen so far. */
  method ExtendRows(es: Stack, f2c: seq<int>, wOffdRowPtr: seq<int>,
                    pdi: array<int>, pdj: array<int>, pdd: array<real>, poi: array<int>,
                    ghost baseCols: seq<int>, ghost baseVals: seq<real>)
    returns (jj: nat)
    requires WellFormed(es) && f2c == es.coarseCol && |wOffdRowPtr| == es.nW + 1
    requires pdi.Length == |es.cf| + 1 && poi.Length == |es.cf| + 1
    requires |EntriesUpTo(es, |es.cf|)| <= pdj.Length && |EntriesUpTo(es, |es.cf|)| <= pdd.Length
    requires pdi != poi && pdi != pdj && poi != pdj
    requires DiagWritten(es, 0, pdi[..], pdj[..], pdd[..], baseCols, baseVals, 0)
    modifies pdi, pdj, pdd, poi
    ensures DiagWritten(es, |es.cf|, pdi[..], pdj[..], pdd[..], baseCols, baseVals, jj)
    ensures poi[0] == (if |es.cf| > 0 && es.cf[0] < 0 then 0 else old(poi[0]))
    ensures forall k :: 1 <= k <= |es.cf| ==> poi[k] == wOffdRowPtr[Rank(Negative(es.cf), k)] - wOffdRowPtr[0]
  {
    var n, cf := |es.cf|, es.cf;
    ghost var oldPoi0 := poi[0];
    jj := 0;
    var jjo := 0;
    var rowCounter := 0;
    var i := 0;
    while i < n
      invariant 0 <= i <= n
      invariant rowCounter == Rank(Negative(cf), i)
      invariant DiagWritten(es, i, pdi[..], pdj[..], pdd[..], baseCols, baseVals, jj)
      invariant jjo == wOffdRowPtr[rowCounter] - wOffdRowPtr[0]
      invariant forall k :: 1 <= k <= i ==> poi[k] == wOffdRowPtr[Rank(Negative(cf), k)] - wOffdRowPtr[0]
      invariant poi[0] == (if i > 0 && cf[0] < 0 then 0 else oldPoi0)
    {
      jj, jjo, rowCounter := ExtendPass(es, i, f2c[i], rowCounter, wOffdRowPtr, pdi, pdj, pdd, poi, jj, jjo, baseCols, baseVals);
      i := i + 1;
    }
  }

  /** One pass of the row loop of hypre_ExtendWtoPHost: row i of the
      diagonal block is written, and an F-point records the running count
      of W_offd entries before and after its row. */
  method ExtendPass(es: Stack, i: nat, col: int, rowCounter: nat, wOffdRowPtr: seq<int>,
                    pdi: array<int>, pdj: array<int>, pdd: array<real>, poi: array<int>,
                    jj: nat, jjo: int, ghost baseCols: seq<int>, ghost baseVals: seq<real>)
    returns (jj': nat, jjo': int, rowCounter': nat)
    requires WellFormed(es) && i < |es.cf| && col == es.coarseCol[i] && |wOffdRowPtr| == es.nW + 1
    requires rowCounter == Rank(Negative(es.cf), i)
    requires pdi.Length == |es.cf| + 1 && poi.Length == |es.cf| + 1
    requires |EntriesUpTo(es, |es.cf|)| <= pdj.Length && |EntriesUpTo(es, |es.cf|)| <= pdd.Length
    requires pdi != poi && pdi != pdj && poi != pdj
    requires DiagWritten(es, i, pdi[..], pdj[..], pdd[..], baseCols, baseVals, jj)
    requires jjo == wOffdRowPtr[rowCounter] - wOffdRowPtr[0]
    modifies pdi, pdj, pdd, poi
    ensures rowCounter' == Rank(Negative(es.cf), i + 1)
    ensures DiagWritten(es, i + 1, pdi[..], pdj[..], pdd[..], baseCols, baseVals, jj')
    ensures jjo' == wOffdRowPtr[rowCounter'] - wOffdRowPtr[0]
    ensures poi[i + 1] == jjo'
    ensures es.cf[i] < 0 ==> poi[i] == jjo
    ensures forall k :: 0 <= k < |es.cf| + 1 && k != i + 1 && (k != i || es.cf[i] >= 0) ==> poi[k] == old(poi[k])
  {
    jj' := DiagPass(es, i, col, rowCounter, pdi, pdj, pdd, jj, baseCols, baseVals);
    jjo', rowCounter' := OffdCount(es.cf, i, es.nW, rowCounter, wOffdRowPtr, poi, jjo);
  }

  /** The P_offd_i half of one pass of the row loop of
      hypre_ExtendWtoPHost: an F-point records the running count of W_offd
      entries before its row and adds its row's length; every point records
      the count after its row. */
  method OffdCount(cf: seq<int>, i: nat, nW: nat, rowCounter: nat, wOffdRowPtr: seq<int>, poi: array<int>, jjo: int)
    returns (jjo': int, rowCounter': nat)
    requires i < |cf| && CountTrue(Negative(cf)) <= nW && |wOffdRowPtr| == nW + 1
    requires rowCounter == Rank(Negative(cf), i) && poi.Length == |cf| + 1
    requires jjo == wOffdRowPtr[rowCounter] - wOffdRowPtr[0]
    modifies poi
    ensures rowCounter' == Rank(Negative(cf), i + 1)
    ensures jjo' == wOffdRowPtr[rowCounter'] - wOffdRowPtr[0]
    ensures poi[i + 1] == jjo'
    ensures cf[i] < 0 ==> poi[i] == jjo
    ensures forall k :: 0 <= k < |cf| + 1 && k != i + 1 && (k != i || cf[i] >= 0) ==> poi[k] == old(poi[k])
  {
    jjo', rowCounter' := jjo, rowCounter;
    if cf[i] < 0 {
      RankBelowCount(Negative(cf), i);
      poi[i] := jjo;
      jjo' := jjo + (wOffdRowPtr[rowCounter + 1] - wOffdRowPtr[rowCounter]);
      rowCounter' := rowCounter + 1;
    }
    poi[i + 1] := jjo';
  }

  /** With the last row pointer set to the number of entries written, the
      diagonal block is the CSR layout of the stacked rows in front of what
      the buffers held before. */
  lemma ExtendLaidOut(s: Stack, ptr: seq<int>, ptr': seq<int>, cols: seq<int>, vals: seq<real>,
                      baseCols: seq<int>, baseVals: seq<real>)
    requires WellFormed(s)
    requires DiagWritten(s, |s.cf|, ptr, cols, vals, baseCols, baseVals, |EntriesUpTo(s, |s.cf|)|)
    requires ptr' == ptr[|s.cf| := |EntriesUpTo(s, |s.cf|)|]
    ensures var rows := RowsOf(s);
      var f := Flatten(rows);
      && ptr' == Starts(rows)
      && |f| <= |cols| && |f| <= |vals|
      && cols == ColsOf(f) + baseCols[|f|..]
      && vals == ValsOf(f) + baseVals[|f|..]
  {
    var n := |s.cf|;
    UpToLayout(s, n);
    assert RowsOf(s)[..n] == RowsOf(s);
    assert ptr' == ptr[..n] + [|EntriesUpTo(s, n)|];
  }

  /** The row pointer hypre_ExtendWtoPHost writes never decreases and ends
      at the number of entries written: with it, the entries written form
      a valid CSR matrix whose rows are the stacked rows. */
  lemma ExtendLayoutValid(cf: seq<int>, wDiag: Matrix, nW: nat)
    requires Valid(wDiag, nW) && CountTrue(Negative(cf)) <= nW
    ensures var rows := RowsOf(ExtendStack(cf, wDiag, nW));
      Valid(Encode(rows), |cf|) && Rows(Encode(rows), |cf|) == rows
  {
    EncodeRows(RowsOf(ExtendStack(cf, wDiag, nW)));
  }

  /** As written, a point whose marker is exactly 0 gets an identity row
      (the test is `>= 0`) but no coarse number (the numbering counts only
      positive markers), so its identity entry sits in column -1. */
  lemma ExtendZeroMarkerColumn(cf: seq<int>, wDiag: Matrix, nW: nat, i: nat)
    requires Valid(wDiag, nW) && CountTrue(Negative(cf)) <= nW && i < |cf| && cf[i] == 0
    ensures RowsOf(ExtendStack(cf, wDiag, nW))[i] == [Entry(-1, 1.0)]
  {
  }

  /** With markers only CMRK or FMRK (never 0) the numbering of
      hypre_ExtendWtoPHost coincides with the rank among non-negative
      markers, so its identity rows are those of hypre_MGRBuildPFromWpHost. */
  lemma {:induction false} ExtendNumberingWithoutZero(cf: seq<int>)
    requires forall i :: 0 <= i < |cf| ==> cf[i] != 0
    ensures forall i :: 0 <= i < |cf| && cf[i] >= 0 ==>
      ExtendNumbering(cf)[i] == Ranks(NonNegative(cf))[i]
  {
    assert Positive(cf) == NonNegative(cf);
  }
}
