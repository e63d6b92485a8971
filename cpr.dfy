/** The local passes that build and truncate A_CF for the CPR-style
    multigrid-reduction setup: hypre_MGRGetAcfCPR and
    hypre_MGRTruncateAcfCPR.

    Both keep, in every row, only a window of columns: the row of rank r
    keeps the columns in [r * blk, (r + 1) * blk), so that C-point r is
    coupled only to its own block of F-points.  The first pass counts the
    kept entries, the second writes them; the count is the fill. */
module Cpr {
  import opened Csr
  import opened Markers
  import opened SubBlock

  /** The entries whose column lies in [lo, hi), in order. */
  function Windowed(es: seq<Entry>, lo: int, hi: int): seq<Entry>
  {
    if es == [] then []
    else
      var e := es[|es| - 1];
      Windowed(es[..|es| - 1], lo, hi) + (if lo <= e.col < hi then [e] else [])
  }

  /** Windowed keeps an entry exactly when its column lies in the window. */
  lemma {:induction false} WindowedSpec(es: seq<Entry>, lo: int, hi: int)
    ensures forall e :: e in Windowed(es, lo, hi) ==> e in es && lo <= e.col < hi
    ensures forall e :: e in es && lo <= e.col < hi ==> e in Windowed(es, lo, hi)
    ensures |Windowed(es, lo, hi)| <= |es|
  {
    if es != [] {
      var front := es[..|es| - 1];
      WindowedSpec(front, lo, hi);
      assert es == front + [es[|es| - 1]];
    }
  }

  /** Windowing a concatenation windows each part: the kept entries stay
      in their order and each occurrence is kept or dropped on its own. */
  lemma {:induction false} WindowedConcat(a: seq<Entry>, b: seq<Entry>, lo: int, hi: int)
    ensures Windowed(a + b, lo, hi) == Windowed(a, lo, hi) + Windowed(b, lo, hi)
    decreases |b|
  {
    if b == [] {
      assert a + b == a;
    } else {
      var front, x := b[..|b| - 1], b[|b| - 1];
      WindowedConcat(a, front, lo, hi);
      assert (a + b)[..|a + b| - 1] == a + front;
      assert (a + b)[|a + b| - 1] == x;
    }
  }

  lemma WindowedAppend(es: seq<Entry>, e: Entry, lo: int, hi: int)
    ensures Windowed(es + [e], lo, hi) == Windowed(es, lo, hi) + (if lo <= e.col < hi then [e] else [])
  {
    assert (es + [e])[..|es|] == es;
  }

  /** One more stored position extends the entries read so far. */
  lemma EntriesStep(cols: seq<int>, vals: seq<real>, lo: int, j: int)
    requires 0 <= lo <= j < |cols| && j < |vals|
    ensures Entries(cols, vals, lo, j + 1) == Entries(cols, vals, lo, j) + [Entry(cols[j], vals[j])]
  {
  }

  // ---------------------------------------------------------------------
  // hypre_MGRTruncateAcfCPR

  /** Row i of the truncated matrix: the entries of row i of A_CF whose
      column lies in [i * blk, (i + 1) * blk). */
  function TruncRow(m: Matrix, n: nat, blk: int, i: int): seq<Entry>
    requires Valid(m, n) && 0 <= i < n
  {
    Windowed(Row(m, n, i), i * blk, (i + 1) * blk)
  }

  /** The first k rows of the truncated matrix. */
  function TruncRows(m: Matrix, n: nat, blk: int, k: nat): (rows: seq<seq<Entry>>)
    requires Valid(m, n) && k <= n
    ensures |rows| == k
  {
    if k == 0 then [] else TruncRows(m, n, blk, k - 1) + [TruncRow(m, n, blk, k - 1)]
  }

  /** The truncated matrix keeps every row, and row i is the windowed
      row i. */
  lemma {:induction false} TruncRowsAt(m: Matrix, n: nat, blk: int, k: nat)
    requires Valid(m, n) && k <= n
    ensures forall i :: 0 <= i < k ==> TruncRows(m, n, blk, k)[i] == TruncRow(m, n, blk, i)
  {
    if k > 0 {
      TruncRowsAt(m, n, blk, k - 1);
    }
  }

  /** The entries in the window among the stored positions [lo, j). */
  function InWindow(m: Matrix, lo: int, j: int, wlo: int, whi: int): seq<Entry>
    requires |m.vals| == |m.colIdx| && 0 <= lo <= j <= |m.colIdx|
  {
    Windowed(Entries(m.colIdx, m.vals, lo, j), wlo, whi)
  }

  /** One more stored position: the entries in the window grow by that
      entry when its column is in the window. */
  lemma WindowStep(m: Matrix, lo: int, j: int, wlo: int, whi: int)
    requires |m.vals| == |m.colIdx| && 0 <= lo <= j < |m.colIdx|
    ensures InWindow(m, lo, j + 1, wlo, whi)
         == InWindow(m, lo, j, wlo, whi) + (if wlo <= m.colIdx[j] < whi then [Entry(m.colIdx[j], m.vals[j])] else [])
  {
    EntriesStep(m.colIdx, m.vals, lo, j);
    WindowedAppend(Entries(m.colIdx, m.vals, lo, j), Entry(m.colIdx[j], m.vals[j]), wlo, whi);
  }

  /** The scan of one row in the first pass over its stored positions
      [lo, hi): the count grows by the entries in the window. */
  method WindowCount(m: Matrix, lo: int, hi: int, wlo: int, whi: int, at: nat) returns (next: nat)
    requires |m.vals| == |m.colIdx| && 0 <= lo <= hi <= |m.colIdx|
    ensures next == at + |InWindow(m, lo, hi, wlo, whi)|
  {
    next := at;
    var j := lo;
    while j < hi
      invariant lo <= j <= hi
      invariant next == at + |InWindow(m, lo, j, wlo, whi)|
    {
      WindowStep(m, lo, j, wlo, whi);
      var jj := m.colIdx[j];
      if jj >= wlo && jj < whi {
        next := next + 1;
      }
      j := j + 1;
    }
  }

  /** The scan of one row in the second pass: the entries in the window
      are written behind `front`. */
  method WindowFill(m: Matrix, lo: int, hi: int, wlo: int, whi: int,
                    cols: array<int>, vals: array<real>, at: nat, ghost front: seq<Entry>) returns (next: nat)
    requires |m.vals| == |m.colIdx| && 0 <= lo <= hi <= |m.colIdx|
    requires at + |InWindow(m, lo, hi, wlo, whi)| <= cols.Length
    requires at + |InWindow(m, lo, hi, wlo, whi)| <= vals.Length
    requires at == |front| && cols[..at] == ColsOf(front) && vals[..at] == ValsOf(front)
    modifies cols, vals
    ensures next == at + |InWindow(m, lo, hi, wlo, whi)|
    ensures cols[..next] == ColsOf(front + InWindow(m, lo, hi, wlo, whi))
    ensures vals[..next] == ValsOf(front + InWindow(m, lo, hi, wlo, whi))
  {
    next := at;
    var j := lo;
    while j < hi
      invariant lo <= j <= hi
      invariant next == at + |InWindow(m, lo, j, wlo, whi)|
      invariant next <= at + |InWindow(m, lo, hi, wlo, whi)|
      invariant cols[..next] == ColsOf(front + InWindow(m, lo, j, wlo, whi))
      invariant vals[..next] == ValsOf(front + InWindow(m, lo, j, wlo, whi))
    {
      ghost var done := front + InWindow(m, lo, j, wlo, whi);
      WindowStep(m, lo, j, wlo, whi);
      WindowBound(m, lo, j + 1, hi, wlo, whi);
      var jj := m.colIdx[j];
      if jj >= wlo && jj < whi {
        Put(cols, vals, next, Entry(jj, m.vals[j]), done);
        next := next + 1;
      }
      j := j + 1;
    }
  }

  /** The entries in the window among the first positions of a row are
      no more than those of the whole row. */
  lemma {:induction false} WindowBound(m: Matrix, lo: int, j: int, hi: int, wlo: int, whi: int)
    requires |m.vals| == |m.colIdx| && 0 <= lo <= j <= hi <= |m.colIdx|
    ensures |InWindow(m, lo, j, wlo, whi)| <= |InWindow(m, lo, hi, wlo, whi)|
    decreases hi - j
  {
    if j < hi {
      WindowBound(m, lo, j + 1, hi, wlo, whi);
      WindowStep(m, lo, j, wlo, whi);
    }
  }

  /** The first pass of hypre_MGRTruncateAcfCPR: the number of entries in
      the truncated matrix. */
  method TruncCount(m: Matrix, n: nat, blk: int) returns (nnz: nat)
    requires Valid(m, n)
    ensures nnz == |Flatten(TruncRows(m, n, blk, n))|
  {
    nnz := 0;
    var i := 0;
    while i < n
      invariant 0 <= i <= n
      invariant nnz == |Flatten(TruncRows(m, n, blk, i))|
    {
      RowBounds(m, n, i);
      nnz := WindowCount(m, m.rowPtr[i], m.rowPtr[i + 1], i * blk, (i + 1) * blk, nnz);
      FlattenAppend(TruncRows(m, n, blk, i), TruncRow(m, n, blk, i));
      i := i + 1;
    }
  }

  /** Row i of the second pass: its start goes to the row pointer and its
      entries in the window follow the rows before it. */
  method TruncFillRow(m: Matrix, n: nat, blk: int, i: nat, nnz: nat,
                      ptr: array<int>, cols: array<int>, vals: array<real>, at: nat) returns (next: nat)
    requires Valid(m, n) && i < n && ptr != cols && ptr.Length == n + 1
    requires nnz == |Flatten(TruncRows(m, n, blk, n))| && cols.Length == nnz && vals.Length == nnz
    requires Written(ptr[..], cols[..], vals[..], TruncRows(m, n, blk, i), i, at)
    modifies ptr, cols, vals
    ensures Written(ptr[..], cols[..], vals[..], TruncRows(m, n, blk, i + 1), i + 1, next)
  {
    ghost var rows := TruncRows(m, n, blk, i);
    ghost var row := TruncRow(m, n, blk, i);
    RowBounds(m, n, i);
    TruncFits(m, n, blk, i);
    FlattenAppend(rows, row);
    ptr[i] := at;
    assert ptr[..i + 1] == Starts(rows);
    next := WindowFill(m, m.rowPtr[i], m.rowPtr[i + 1], i * blk, (i + 1) * blk, cols, vals, at, Flatten(rows));
  }

  /** The first i + 1 truncated rows fit in the entries counted for all
      rows. */
  lemma TruncFits(m: Matrix, n: nat, blk: int, i: nat)
    requires Valid(m, n) && i < n
    ensures |Flatten(TruncRows(m, n, blk, i))| + |TruncRow(m, n, blk, i)| <= |Flatten(TruncRows(m, n, blk, n))|
  {
    FlattenAppend(TruncRows(m, n, blk, i), TruncRow(m, n, blk, i));
    TruncGrow(m, n, blk, i + 1, n);
  }

  lemma {:induction false} TruncGrow(m: Matrix, n: nat, blk: int, j: nat, k: nat)
    requires Valid(m, n) && j <= k <= n
    ensures |Flatten(TruncRows(m, n, blk, j))| <= |Flatten(TruncRows(m, n, blk, k))|
    decreases k - j
  {
    if j < k {
      TruncGrow(m, n, blk, j, k - 1);
      FlattenAppend(TruncRows(m, n, blk, k - 1), TruncRow(m, n, blk, k - 1));
    }
  }

  /** hypre_MGRTruncateAcfCPR on the local diagonal block of A_CF with n
      rows: blk is the global number of columns divided by the global
      number of rows, and the result is the CSR encoding of the truncated
      rows. */
  method TruncateAcf(m: Matrix, n: nat, globalRows: nat, globalCols: nat) returns (r: Matrix)
    requires Valid(m, n) && globalRows > 0
    ensures r == Encode(TruncRows(m, n, globalCols / globalRows, n))
  {
    var blk := globalCols / globalRows;
    var nnz := TruncCount(m, n, blk);
    var ptr := new int[n + 1](_ => 0);
    var cols := new int[nnz](_ => 0);
    var vals := new real[nnz](_ => 0.0);
    var at := 0;
    var i := 0;
    while i < n
      invariant 0 <= i <= n
      invariant Written(ptr[..], cols[..], vals[..], TruncRows(m, n, blk, i), i, at)
    {
      at := TruncFillRow(m, n, blk, i, nnz, ptr, cols, vals, at);
      i := i + 1;
    }
    r := Close(ptr, cols, vals, TruncRows(m, n, blk, n), n, nnz);
  }

  /** The truncated matrix is a valid CSR matrix over the same rows, and
      its row i is row i of A_CF restricted to the columns in
      [i * blk, (i + 1) * blk) (WindowedSpec says which entries those
      are). */
  lemma TruncateSpec(m: Matrix, n: nat, blk: int)
    requires Valid(m, n)
    ensures Valid(Encode(TruncRows(m, n, blk, n)), n)
    ensures forall i :: 0 <= i < n ==>
      Row(Encode(TruncRows(m, n, blk, n)), n, i) == Windowed(Row(m, n, i), i * blk, (i + 1) * blk)
  {
    var rows := TruncRows(m, n, blk, n);
    EncodeRows(rows);
    TruncRowsAt(m, n, blk, n);
    forall i | 0 <= i < n
      ensures Row(Encode(rows), n, i) == TruncRow(m, n, blk, i)
    {
      assert Rows(Encode(rows), n)[i] == Row(Encode(rows), n, i);
    }
  }

  // ---------------------------------------------------------------------
  // hypre_MGRGetAcfCPR

  /** The entries whose column is an F-point (f_marker == 1), each with
      its column renumbered by `fToC`, in order. */
  function FPicked(es: seq<Entry>, fm: seq<int>, fToC: seq<int>): seq<Entry>
    requires |fToC| == |fm|
  {
    if es == [] then []
    else
      var e := es[|es| - 1];
      FPicked(es[..|es| - 1], fm, fToC)
        + (if 0 <= e.col < |fm| && fm[e.col] == 1 then [Entry(fToC[e.col], e.val)] else [])
  }

  lemma FPickedAppend(es: seq<Entry>, e: Entry, fm: seq<int>, fToC: seq<int>)
    requires |fToC| == |fm|
    ensures FPicked(es + [e], fm, fToC)
         == FPicked(es, fm, fToC) + (if 0 <= e.col < |fm| && fm[e.col] == 1 then [Entry(fToC[e.col], e.val)] else [])
  {
    assert (es + [e])[..|es|] == es;
  }

  /** Renumbered by the F-point numbering, every picked entry is an
      entry of es at an F-column c, with c replaced by its rank among the
      F-points (so below their count), and every F-column entry is
      picked. */
  lemma {:induction false} FPickedSpec(es: seq<Entry>, fm: seq<int>)
    ensures forall e :: e in FPicked(es, fm, Numbered(EqualTo(fm, 1), 0)) ==> 0 <= e.col < CountTrue(EqualTo(fm, 1))
    ensures forall e :: e in FPicked(es, fm, Numbered(EqualTo(fm, 1), 0)) ==>
      exists c :: 0 <= c < |fm| && fm[c] == 1 && Rank(EqualTo(fm, 1), c) == e.col && Entry(c, e.val) in es
    ensures forall e :: e in es && 0 <= e.col < |fm| && fm[e.col] == 1 ==>
      Entry(Rank(EqualTo(fm, 1), e.col), e.val) in FPicked(es, fm, Numbered(EqualTo(fm, 1), 0))
  {
    if es != [] {
      var front := es[..|es| - 1];
      var e := es[|es| - 1];
      FPickedSpec(front, fm);
      assert es == front + [e];
      if 0 <= e.col < |fm| && fm[e.col] == 1 {
        RankBelowCount(EqualTo(fm, 1), e.col);
        assert Entry(e.col, e.val) in es;
      }
    }
  }

  /** Row i of A_CF, for a C-point i (c_marker == 1) of rank r among the
      C-points: the entries of row i of A_diag at F-columns, renumbered by
      the F-point numbering, whose new column lies in
      [r * blk, (r + 1) * blk). */
  function AcfRow(m: Matrix, n: nat, cm: seq<int>, fm: seq<int>, blk: int, i: int): seq<Entry>
    requires Valid(m, n) && 0 <= i < n && |cm| == n
  {
    var r := Rank(EqualTo(cm, 1), i);
    Windowed(FPicked(Row(m, n, i), fm, Numbered(EqualTo(fm, 1), 0)), r * blk, (r + 1) * blk)
  }

  /** The rows of A_CF taken from the first k rows: one per C-point, in
      order. */
  function AcfRows(m: Matrix, n: nat, cm: seq<int>, fm: seq<int>, blk: int, k: nat): seq<seq<Entry>>
    requires Valid(m, n) && k <= n && |cm| == n
  {
    if k == 0 then []
    else AcfRows(m, n, cm, fm, blk, k - 1) + (if cm[k - 1] == 1 then [AcfRow(m, n, cm, fm, blk, k - 1)] else [])
  }

  /** A_CF has one row per C-point, and the C-point i supplies the row of
      rank Rank(C-points, i). */
  lemma {:induction false} AcfShape(m: Matrix, n: nat, cm: seq<int>, fm: seq<int>, blk: int, k: nat)
    requires Valid(m, n) && k <= n && |cm| == n
    ensures |AcfRows(m, n, cm, fm, blk, k)| == Rank(EqualTo(cm, 1), k)
    ensures forall i :: 0 <= i < k && cm[i] == 1 ==>
      Rank(EqualTo(cm, 1), i) < Rank(EqualTo(cm, 1), k) &&
      AcfRows(m, n, cm, fm, blk, k)[Rank(EqualTo(cm, 1), i)] == AcfRow(m, n, cm, fm, blk, i)
  {
    if k > 0 {
      AcfShape(m, n, cm, fm, blk, k - 1);
      forall i | 0 <= i < k - 1 && cm[i] == 1
        ensures Rank(EqualTo(cm, 1), i) < Rank(EqualTo(cm, 1), k)
      {
        CountBeforeMono(EqualTo(cm, 1), i, k);
      }
    }
  }

  lemma {:induction false} AcfGrow(m: Matrix, n: nat, cm: seq<int>, fm: seq<int>, blk: int, j: nat, k: nat)
    requires Valid(m, n) && j <= k <= n && |cm| == n
    ensures |Flatten(AcfRows(m, n, cm, fm, blk, j))| <= |Flatten(AcfRows(m, n, cm, fm, blk, k))|
    decreases k - j
  {
    if j < k {
      AcfGrow(m, n, cm, fm, blk, j, k - 1);
      AcfStep(m, n, cm, fm, blk, k - 1);
    }
  }

  /** Row i adds its A_CF row, if any, to the rows and entries so far. */
  lemma AcfStep(m: Matrix, n: nat, cm: seq<int>, fm: seq<int>, blk: int, i: nat)
    requires Valid(m, n) && i < n && |cm| == n
    ensures cm[i] == 1 ==> AcfRows(m, n, cm, fm, blk, i + 1) == AcfRows(m, n, cm, fm, blk, i) + [AcfRow(m, n, cm, fm, blk, i)]
    ensures cm[i] == 1 ==>
      Flatten(AcfRows(m, n, cm, fm, blk, i + 1)) == Flatten(AcfRows(m, n, cm, fm, blk, i)) + AcfRow(m, n, cm, fm, blk, i)
    ensures cm[i] == 1 ==>
      Starts(AcfRows(m, n, cm, fm, blk, i + 1))
        == Starts(AcfRows(m, n, cm, fm, blk, i)) + [|Flatten(AcfRows(m, n, cm, fm, blk, i))| + |AcfRow(m, n, cm, fm, blk, i)|]
    ensures cm[i] != 1 ==> AcfRows(m, n, cm, fm, blk, i + 1) == AcfRows(m, n, cm, fm, blk, i)
  {
    if cm[i] == 1 {
      FlattenAppend(AcfRows(m, n, cm, fm, blk, i), AcfRow(m, n, cm, fm, blk, i));
    }
  }

  /** The entries kept by a scan of the stored positions [lo, j): those
      at F-columns, renumbered, whose new column lies in [wlo, whi). */
  function AcfKept(m: Matrix, lo: int, j: int, fm: seq<int>, fToC: seq<int>, wlo: int, whi: int): seq<Entry>
    requires |m.vals| == |m.colIdx| && 0 <= lo <= j <= |m.colIdx| && |fToC| == |fm|
  {
    Windowed(FPicked(Entries(m.colIdx, m.vals, lo, j), fm, fToC), wlo, whi)
  }

  /** The scan of one C-row in the first pass of hypre_MGRGetAcfCPR
      over its stored positions [lo, hi): the count grows by the entries
      at F-columns whose F-number lies in [wlo, whi). */
  method AcfScanCount(m: Matrix, lo: int, hi: int, fm: seq<int>, fToC: seq<int>, wlo: int, whi: int, at: nat)
    returns (next: nat)
    requires |m.vals| == |m.colIdx| && 0 <= lo <= hi <= |m.colIdx| && ColsBelow(m, |fm|) && |fToC| == |fm|
    ensures next == at + |AcfKept(m, lo, hi, fm, fToC, wlo, whi)|
  {
    next := at;
    var j := lo;
    while j < hi
      invariant lo <= j <= hi
      invariant next == at + |AcfKept(m, lo, j, fm, fToC, wlo, whi)|
    {
      AcfKeptStep(m, lo, j, fm, fToC, wlo, whi);
      var jj := m.colIdx[j];
      if fm[jj] == 1 {
        var jj1 := fToC[jj];
        if jj1 >= wlo && jj1 < whi {
          next := next + 1;
        }
      }
      j := j + 1;
    }
  }

  /** The scan of one C-row in the second pass: the kept entries are
      written, with their F-numbers as columns, behind `front`. */
  method AcfScanFill(m: Matrix, lo: int, hi: int, fm: seq<int>, fToC: seq<int>, wlo: int, whi: int,
                     cols: array<int>, vals: array<real>, at: nat, ghost front: seq<Entry>) returns (next: nat)
    requires |m.vals| == |m.colIdx| && 0 <= lo <= hi <= |m.colIdx| && ColsBelow(m, |fm|) && |fToC| == |fm|
    requires at + |AcfKept(m, lo, hi, fm, fToC, wlo, whi)| <= cols.Length
    requires at + |AcfKept(m, lo, hi, fm, fToC, wlo, whi)| <= vals.Length
    requires at == |front| && cols[..at] == ColsOf(front) && vals[..at] == ValsOf(front)
    modifies cols, vals
    ensures next == at + |AcfKept(m, lo, hi, fm, fToC, wlo, whi)|
    ensures cols[..next] == ColsOf(front + AcfKept(m, lo, hi, fm, fToC, wlo, whi))
    ensures vals[..next] == ValsOf(front + AcfKept(m, lo, hi, fm, fToC, wlo, whi))
  {
    next := at;
    var j := lo;
    while j < hi
      invariant lo <= j <= hi
      invariant next == at + |AcfKept(m, lo, j, fm, fToC, wlo, whi)|
      invariant next <= at + |AcfKept(m, lo, hi, fm, fToC, wlo, whi)|
      invariant cols[..next] == ColsOf(front + AcfKept(m, lo, j, fm, fToC, wlo, whi))
      invariant vals[..next] == ValsOf(front + AcfKept(m, lo, j, fm, fToC, wlo, whi))
    {
      ghost var done := front + AcfKept(m, lo, j, fm, fToC, wlo, whi);
      AcfScanStep(m, lo, j, hi, fm, fToC, wlo, whi);
      var jj := m.colIdx[j];
      if fm[jj] == 1 {
        var jj1 := fToC[jj];
        if jj1 >= wlo && jj1 < whi {
          Put(cols, vals, next, Entry(jj1, m.vals[j]), done);
          next := next + 1;
        }
      }
      j := j + 1;
    }
  }

  /** One more stored position read by AcfScanFill: the kept entries grow by
      the renumbered entry when it is kept, and stay within those of the
      whole row. */
  lemma AcfScanStep(m: Matrix, lo: int, j: int, hi: int, fm: seq<int>, fToC: seq<int>, wlo: int, whi: int)
    requires |m.vals| == |m.colIdx| && 0 <= lo <= j < hi <= |m.colIdx| && ColsBelow(m, |fm|) && |fToC| == |fm|
    ensures 0 <= m.colIdx[j] < |fm|
    ensures AcfKept(m, lo, j + 1, fm, fToC, wlo, whi)
         == AcfKept(m, lo, j, fm, fToC, wlo, whi)
            + (if fm[m.colIdx[j]] == 1 && wlo <= fToC[m.colIdx[j]] < whi then [Entry(fToC[m.colIdx[j]], m.vals[j])] else [])
    ensures |AcfKept(m, lo, j + 1, fm, fToC, wlo, whi)| <= |AcfKept(m, lo, hi, fm, fToC, wlo, whi)|
  {
    AcfKeptStep(m, lo, j, fm, fToC, wlo, whi);
    AcfScanBound(m, lo, j + 1, hi, fm, fToC, wlo, whi);
  }

  lemma AcfKeptStep(m: Matrix, lo: int, j: int, fm: seq<int>, fToC: seq<int>, wlo: int, whi: int)
    requires |m.vals| == |m.colIdx| && 0 <= lo <= j < |m.colIdx| && ColsBelow(m, |fm|) && |fToC| == |fm|
    ensures 0 <= m.colIdx[j] < |fm|
    ensures AcfKept(m, lo, j + 1, fm, fToC, wlo, whi)
         == AcfKept(m, lo, j, fm, fToC, wlo, whi)
            + (if fm[m.colIdx[j]] == 1 && wlo <= fToC[m.colIdx[j]] < whi then [Entry(fToC[m.colIdx[j]], m.vals[j])] else [])
  {
    var c := m.colIdx[j];
    var kept := FPicked(Entries(m.colIdx, m.vals, lo, j), fm, fToC);
    EntriesStep(m.colIdx, m.vals, lo, j);
    FPickedAppend(Entries(m.colIdx, m.vals, lo, j), Entry(c, m.vals[j]), fm, fToC);
    if fm[c] == 1 {
      WindowedAppend(kept, Entry(fToC[c], m.vals[j]), wlo, whi);
    } else {
      assert kept + [] == kept;
    }
  }

  lemma {:induction false} AcfScanBound(m: Matrix, lo: int, j: int, hi: int, fm: seq<int>, fToC: seq<int>, wlo: int, whi: int)
    requires |m.vals| == |m.colIdx| && 0 <= lo <= j <= hi <= |m.colIdx| && ColsBelow(m, |fm|) && |fToC| == |fm|
    ensures |AcfKept(m, lo, j, fm, fToC, wlo, whi)| <= |AcfKept(m, lo, hi, fm, fToC, wlo, whi)|
    decreases hi - j
  {
    if j < hi {
      AcfScanBound(m, lo, j + 1, hi, fm, fToC, wlo, whi);
      AcfKeptStep(m, lo, j, fm, fToC, wlo, whi);
    }
  }

  /** The first pass of hypre_MGRGetAcfCPR: the number of A_CF entries
      and the number of C-points. */
  method AcfCount(m: Matrix, n: nat, cm: seq<int>, fm: seq<int>, fToC: seq<int>, blk: int) returns (nnz: nat, cpts: nat)
    requires Valid(m, n) && ColsBelow(m, n) && |cm| == n && |fm| == n && fToC == Numbered(EqualTo(fm, 1), 0)
    ensures nnz == |Flatten(AcfRows(m, n, cm, fm, blk, n))|
    ensures cpts == CountTrue(EqualTo(cm, 1))
  {
    nnz := 0;
    cpts := 0;
    var i := 0;
    while i < n
      invariant 0 <= i <= n
      invariant cpts == Rank(EqualTo(cm, 1), i)
      invariant nnz == |Flatten(AcfRows(m, n, cm, fm, blk, i))|
    {
      AcfStep(m, n, cm, fm, blk, i);
      if cm[i] == 1 {
        RowBounds(m, n, i);
        nnz := AcfScanCount(m, m.rowPtr[i], m.rowPtr[i + 1], fm, fToC, cpts * blk, (cpts + 1) * blk, nnz);
        cpts := cpts + 1;
      }
      i := i + 1;
    }
  }

  /** C-row i of the second pass: its start goes to the row pointer at
      its rank and its kept entries follow the rows before it. */
  method AcfFillRow(m: Matrix, n: nat, cm: seq<int>, fm: seq<int>, fToC: seq<int>, blk: int, i: nat, cpts: nat, nnz: nat,
                    ptr: array<int>, cols: array<int>, vals: array<real>, at: nat) returns (next: nat)
    requires Valid(m, n) && ColsBelow(m, n) && |cm| == n && |fm| == n && fToC == Numbered(EqualTo(fm, 1), 0)
    requires i < n && cm[i] == 1 && cpts == Rank(EqualTo(cm, 1), i)
    requires ptr != cols && ptr.Length == CountTrue(EqualTo(cm, 1)) + 1
    requires nnz == |Flatten(AcfRows(m, n, cm, fm, blk, n))| && cols.Length == nnz && vals.Length == nnz
    requires Written(ptr[..], cols[..], vals[..], AcfRows(m, n, cm, fm, blk, i), cpts, at)
    modifies ptr, cols, vals
    ensures Written(ptr[..], cols[..], vals[..], AcfRows(m, n, cm, fm, blk, i + 1), cpts + 1, next)
  {
    ghost var rows := AcfRows(m, n, cm, fm, blk, i);
    ghost var row := AcfRow(m, n, cm, fm, blk, i);
    RankBelowCount(EqualTo(cm, 1), i);
    RowBounds(m, n, i);
    AcfFits(m, n, cm, fm, blk, i);
    AcfStep(m, n, cm, fm, blk, i);
    assert row == AcfKept(m, m.rowPtr[i], m.rowPtr[i + 1], fm, fToC, cpts * blk, (cpts + 1) * blk);
    ptr[cpts] := at;
    assert ptr[..cpts + 1] == Starts(rows);
    next := AcfScanFill(m, m.rowPtr[i], m.rowPtr[i + 1], fm, fToC, cpts * blk, (cpts + 1) * blk, cols, vals, at, Flatten(rows));
  }

  /** The rows up to row i, with the row of a C-point i, fit in the
      entries counted for all rows. */
  lemma AcfFits(m: Matrix, n: nat, cm: seq<int>, fm: seq<int>, blk: int, i: nat)
    requires Valid(m, n) && i < n && |cm| == n && cm[i] == 1
    ensures |Flatten(AcfRows(m, n, cm, fm, blk, i))| + |AcfRow(m, n, cm, fm, blk, i)|
         <= |Flatten(AcfRows(m, n, cm, fm, blk, n))|
  {
    AcfStep(m, n, cm, fm, blk, i);
    AcfGrow(m, n, cm, fm, blk, i + 1, n);
  }

  /** The local part of hypre_MGRGetAcfCPR: with the F-points numbered
      consecutively, the C-point rows of the diagonal block of A keep
      their entries at F-columns whose new number lies in the C-point's
      window of blk columns.  The result is the diagonal block of A_CF. */
  method GetAcf(m: Matrix, n: nat, blk: int, cm: seq<int>, fm: seq<int>) returns (r: Matrix)
    requires Valid(m, n) && ColsBelow(m, n) && |cm| == n && |fm| == n
    ensures r == Encode(AcfRows(m, n, cm, fm, blk, n))
  {
    var fToC := NumberSelected(EqualTo(fm, 1), 0);
    var nnz, cpts := AcfCount(m, n, cm, fm, fToC, blk);
    var ptr := new int[cpts + 1](_ => 0);
    var cols := new int[nnz](_ => 0);
    var vals := new real[nnz](_ => 0.0);
    ptr[cpts] := nnz;
    AcfFillPass(m, n, cm, fm, fToC, blk, nnz, ptr, cols, vals);
    r := Close(ptr, cols, vals, AcfRows(m, n, cm, fm, blk, n), cpts, nnz);
  }

  /** The second pass of hypre_MGRGetAcfCPR: every C-row in turn. */
  method AcfFillPass(m: Matrix, n: nat, cm: seq<int>, fm: seq<int>, fToC: seq<int>, blk: int, nnz: nat,
                     ptr: array<int>, cols: array<int>, vals: array<real>)
    requires Valid(m, n) && ColsBelow(m, n) && |cm| == n && |fm| == n && fToC == Numbered(EqualTo(fm, 1), 0)
    requires ptr != cols && ptr.Length == CountTrue(EqualTo(cm, 1)) + 1
    requires nnz == |Flatten(AcfRows(m, n, cm, fm, blk, n))| && cols.Length == nnz && vals.Length == nnz
    modifies ptr, cols, vals
    ensures Written(ptr[..], cols[..], vals[..], AcfRows(m, n, cm, fm, blk, n), CountTrue(EqualTo(cm, 1)), nnz)
  {
    var at := 0;
    var c := 0;
    var i := 0;
    while i < n
      invariant 0 <= i <= n
      invariant c == Rank(EqualTo(cm, 1), i)
      invariant Written(ptr[..], cols[..], vals[..], AcfRows(m, n, cm, fm, blk, i), c, at)
    {
      AcfStep(m, n, cm, fm, blk, i);
      if cm[i] == 1 {
        at := AcfFillRow(m, n, cm, fm, fToC, blk, i, c, nnz, ptr, cols, vals, at);
        c := c + 1;
      }
      i := i + 1;
    }
  }

  /** A_CF is a valid CSR matrix with one row per C-point, and the row
      of rank Rank(C-points, i) is the row the C-point i supplies. */
  lemma AcfSpec(m: Matrix, n: nat, cm: seq<int>, fm: seq<int>, blk: int)
    requires Valid(m, n) && |cm| == n
    ensures Valid(Encode(AcfRows(m, n, cm, fm, blk, n)), CountTrue(EqualTo(cm, 1)))
    ensures forall i :: 0 <= i < n && cm[i] == 1 ==>
      Rank(EqualTo(cm, 1), i) < CountTrue(EqualTo(cm, 1)) &&
      Row(Encode(AcfRows(m, n, cm, fm, blk, n)), CountTrue(EqualTo(cm, 1)), Rank(EqualTo(cm, 1), i))
        == AcfRow(m, n, cm, fm, blk, i)
  {
    var rows := AcfRows(m, n, cm, fm, blk, n);
    var c := CountTrue(EqualTo(cm, 1));
    AcfShape(m, n, cm, fm, blk, n);
    EncodeRows(rows);
    forall i | 0 <= i < n && cm[i] == 1
      ensures Rank(EqualTo(cm, 1), i) < c && Row(Encode(rows), c, Rank(EqualTo(cm, 1), i)) == rows[Rank(EqualTo(cm, 1), i)]
    {
      assert Rows(Encode(rows), c)[Rank(EqualTo(cm, 1), i)] == Row(Encode(rows), c, Rank(EqualTo(cm, 1), i));
    }
  }

  /** Every entry of the row of a C-point i of rank r is an entry of row
      i at an F-column, with the column replaced by its F-number, which
      lies inside [r * blk, (r + 1) * blk); and every F-column entry of
      row i whose F-number lies inside that window is kept. */
  lemma AcfRowSpec(m: Matrix, n: nat, cm: seq<int>, fm: seq<int>, blk: int, i: nat)
    requires Valid(m, n) && i < n && |cm| == n
    ensures var lo, hi := Rank(EqualTo(cm, 1), i) * blk, (Rank(EqualTo(cm, 1), i) + 1) * blk;
      forall e :: e in AcfRow(m, n, cm, fm, blk, i) ==> lo <= e.col < hi && 0 <= e.col < CountTrue(EqualTo(fm, 1))
    ensures forall e :: e in AcfRow(m, n, cm, fm, blk, i) ==>
      exists c :: 0 <= c < |fm| && fm[c] == 1 && Rank(EqualTo(fm, 1), c) == e.col && Entry(c, e.val) in Row(m, n, i)
    ensures var lo, hi := Rank(EqualTo(cm, 1), i) * blk, (Rank(EqualTo(cm, 1), i) + 1) * blk;
      forall e :: e in Row(m, n, i) && 0 <= e.col < |fm| && fm[e.col] == 1 && lo <= Rank(EqualTo(fm, 1), e.col) < hi ==>
        Entry(Rank(EqualTo(fm, 1), e.col), e.val) in AcfRow(m, n, cm, fm, blk, i)
  {
    var lo, hi := Rank(EqualTo(cm, 1), i) * blk, (Rank(EqualTo(cm, 1), i) + 1) * blk;
    var picked := FPicked(Row(m, n, i), fm, Numbered(EqualTo(fm, 1), 0));
    assert AcfRow(m, n, cm, fm, blk, i) == Windowed(picked, lo, hi);
    FPickedSpec(Row(m, n, i), fm);
    WindowedSpec(picked, lo, hi);
  }
}
