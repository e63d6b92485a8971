/** Sub-blocks of a ParCSR matrix selected by row and column markers, as
    hypre_MGRGetSubBlock extracts them on one process, and the A_FF block
    that hypre_MGRBuildAff takes with it.

    The sub-block has one row per row whose row marker is positive, in
    order.  Its diagonal part keeps the entries whose column has a positive
    column marker, renumbered by the column's rank among those columns; its
    off-diagonal part keeps the entries whose external column has a
    positive marker (only when there are several processes), and the used
    external columns are then compacted to 0 .. k-1. */
module SubBlock {
  import opened Csr
  import opened Markers

  /** Every stored column index lies in [0, w). */
  predicate ColsBelow(m: Matrix, w: int)
  {
    forall k :: 0 <= k < |m.colIdx| ==> 0 <= m.colIdx[k] < w
  }

  /** A matrix of n rows whose columns index the column selection `sel`,
      with `num` giving each column its number in the sub-block. */
  predicate Source(m: Matrix, n: nat, sel: seq<bool>, num: seq<int>)
  {
    Valid(m, n) && ColsBelow(m, |sel|) && |num| == |sel|
  }

  /** The entries at positions [lo, hi) whose column is selected, in order,
      each with its column renumbered by `num`. */
  function Kept(m: Matrix, lo: int, hi: int, sel: seq<bool>, num: seq<int>): seq<Entry>
    requires ColsBelow(m, |sel|) && |num| == |sel| && |m.vals| == |m.colIdx|
    requires 0 <= lo <= hi <= |m.colIdx|
    decreases hi - lo
  {
    if hi == lo then []
    else
      var c := m.colIdx[hi - 1];
      Kept(m, lo, hi - 1, sel, num) + (if sel[c] then [Entry(num[c], m.vals[hi - 1])] else [])
  }

  /** How many entries at positions [lo, hi) have a selected column. */
  function KeptCount(m: Matrix, lo: int, hi: int, sel: seq<bool>): nat
    requires ColsBelow(m, |sel|) && 0 <= lo <= hi <= |m.colIdx|
    decreases hi - lo
  {
    if hi == lo then 0 else KeptCount(m, lo, hi - 1, sel) + (if sel[m.colIdx[hi - 1]] then 1 else 0)
  }

  /** The count is the number of kept entries. */
  lemma {:induction false} KeptLength(m: Matrix, lo: int, hi: int, sel: seq<bool>, num: seq<int>)
    requires ColsBelow(m, |sel|) && |num| == |sel| && |m.vals| == |m.colIdx|
    requires 0 <= lo <= hi <= |m.colIdx|
    ensures |Kept(m, lo, hi, sel, num)| == KeptCount(m, lo, hi, sel)
    decreases hi - lo
  {
    if hi > lo {
      KeptLength(m, lo, hi - 1, sel, num);
    }
  }

  lemma {:induction false} KeptCountMono(m: Matrix, lo: int, j: int, k: int, sel: seq<bool>)
    requires ColsBelow(m, |sel|) && 0 <= lo <= j <= k <= |m.colIdx|
    ensures KeptCount(m, lo, j, sel) <= KeptCount(m, lo, k, sel)
    decreases k - j
  {
    if j < k {
      KeptCountMono(m, lo, j, k - 1, sel);
    }
  }

  /** Each selected entry in [lo, hi) reappears in Kept, renumbered, after
      the selected entries before it. */
  lemma {:induction false} KeptAt(m: Matrix, lo: int, hi: int, sel: seq<bool>, num: seq<int>, p: int)
    requires ColsBelow(m, |sel|) && |num| == |sel| && |m.vals| == |m.colIdx|
    requires 0 <= lo <= p < hi <= |m.colIdx| && sel[m.colIdx[p]]
    ensures KeptCount(m, lo, p, sel) < |Kept(m, lo, hi, sel, num)|
    ensures Kept(m, lo, hi, sel, num)[KeptCount(m, lo, p, sel)] == Entry(num[m.colIdx[p]], m.vals[p])
    decreases hi - lo
  {
    KeptLength(m, lo, p, sel, num);
    KeptLength(m, lo, hi, sel, num);
    KeptCountMono(m, lo, p + 1, hi, sel);
    if p < hi - 1 {
      KeptAt(m, lo, hi - 1, sel, num, p);
    }
  }

  /** When every selected column is numbered within [0, w), every kept
      column lies in [0, w). */
  lemma {:induction false} KeptColsRange(m: Matrix, lo: int, hi: int, sel: seq<bool>, num: seq<int>, w: int)
    requires ColsBelow(m, |sel|) && |num| == |sel| && |m.vals| == |m.colIdx| && 0 <= lo <= hi <= |m.colIdx|
    requires forall c :: 0 <= c < |sel| && sel[c] ==> 0 <= num[c] < w
    ensures forall e :: e in Kept(m, lo, hi, sel, num) ==> 0 <= e.col < w
    decreases hi - lo
  {
    if hi > lo {
      KeptColsRange(m, lo, hi - 1, sel, num, w);
    }
  }

  /** The consecutive numbers of the selected columns lie below their
      count. */
  lemma NumberedRange(sel: seq<bool>)
    ensures forall c :: 0 <= c < |sel| && sel[c] ==> 0 <= Numbered(sel, -1)[c] < CountTrue(sel)
  {
    forall c | 0 <= c < |sel| && sel[c]
      ensures Numbered(sel, -1)[c] < CountTrue(sel)
    {
      RankBelowCount(sel, c);
    }
  }

  /** Nothing is kept when no column is selected. */
  lemma {:induction false} KeptNone(m: Matrix, lo: int, hi: int, sel: seq<bool>, num: seq<int>)
    requires ColsBelow(m, |sel|) && |num| == |sel| && |m.vals| == |m.colIdx|
    requires 0 <= lo <= hi <= |m.colIdx|
    requires forall c :: 0 <= c < |sel| ==> !sel[c]
    ensures Kept(m, lo, hi, sel, num) == []
    decreases hi - lo
  {
    if hi > lo {
      KeptNone(m, lo, hi - 1, sel, num);
    }
  }

  /** Row i restricted to its selected columns, renumbered. */
  function RowKept(m: Matrix, n: nat, i: int, sel: seq<bool>, num: seq<int>): seq<Entry>
    requires Source(m, n, sel, num) && 0 <= i < n
  {
    RowBounds(m, n, i);
    Kept(m, m.rowPtr[i], m.rowPtr[i + 1], sel, num)
  }

  /** The number of entries row i keeps (what the first pass counts). */
  function RowCount(m: Matrix, n: nat, i: int, sel: seq<bool>): nat
    requires Valid(m, n) && ColsBelow(m, |sel|) && 0 <= i < n
  {
    RowBounds(m, n, i);
    KeptCount(m, m.rowPtr[i], m.rowPtr[i + 1], sel)
  }

  /** The rows of the sub-block taken from the first k rows: one for each
      selected row, in order. */
  function SubRowsUpTo(m: Matrix, n: nat, rowSel: seq<bool>, sel: seq<bool>, num: seq<int>, k: nat): seq<seq<Entry>>
    requires Source(m, n, sel, num) && |rowSel| == n && k <= n
  {
    if k == 0 then []
    else SubRowsUpTo(m, n, rowSel, sel, num, k - 1) + (if rowSel[k - 1] then [RowKept(m, n, k - 1, sel, num)] else [])
  }

  /** The number of entries the sub-block takes from the first k rows. */
  function SubCount(m: Matrix, n: nat, rowSel: seq<bool>, sel: seq<bool>, k: nat): nat
    requires Valid(m, n) && ColsBelow(m, |sel|) && |rowSel| == n && k <= n
  {
    if k == 0 then 0
    else SubCount(m, n, rowSel, sel, k - 1) + (if rowSel[k - 1] then RowCount(m, n, k - 1, sel) else 0)
  }

  /** The sub-block has one row per selected row, and the selected row i
      supplies the row of rank Rank(rowSel, i). */
  lemma {:induction false} SubRowsShape(m: Matrix, n: nat, rowSel: seq<bool>, sel: seq<bool>, num: seq<int>, k: nat)
    requires Source(m, n, sel, num) && |rowSel| == n && k <= n
    ensures |SubRowsUpTo(m, n, rowSel, sel, num, k)| == Rank(rowSel, k)
    ensures forall i :: 0 <= i < k && rowSel[i] ==>
      Rank(rowSel, i) < Rank(rowSel, k) &&
      SubRowsUpTo(m, n, rowSel, sel, num, k)[Rank(rowSel, i)] == RowKept(m, n, i, sel, num)
  {
    if k > 0 {
      SubRowsShape(m, n, rowSel, sel, num, k - 1);
      forall i | 0 <= i < k - 1 && rowSel[i]
        ensures Rank(rowSel, i) < Rank(rowSel, k)
      {
        CountBeforeMono(rowSel, i, k);
      }
    }
  }

  /** The first pass's count is the number of entries the second pass
      writes. */
  lemma {:induction false} SubCountFill(m: Matrix, n: nat, rowSel: seq<bool>, sel: seq<bool>, num: seq<int>, k: nat)
    requires Source(m, n, sel, num) && |rowSel| == n && k <= n
    ensures |Flatten(SubRowsUpTo(m, n, rowSel, sel, num, k))| == SubCount(m, n, rowSel, sel, k)
  {
    if k > 0 {
      SubCountFill(m, n, rowSel, sel, num, k - 1);
      var rows := SubRowsUpTo(m, n, rowSel, sel, num, k - 1);
      if rowSel[k - 1] {
        var row := RowKept(m, n, k - 1, sel, num);
        assert SubRowsUpTo(m, n, rowSel, sel, num, k) == rows + [row];
        RowLength(m, n, k - 1, sel, num);
        FlattenAppend(rows, row);
      } else {
        assert SubRowsUpTo(m, n, rowSel, sel, num, k) == rows;
      }
    }
  }

  /** The kept row has as many entries as the first pass counts for it. */
  lemma RowLength(m: Matrix, n: nat, i: nat, sel: seq<bool>, num: seq<int>)
    requires Source(m, n, sel, num) && i < n
    ensures |RowKept(m, n, i, sel, num)| == RowCount(m, n, i, sel)
  {
    RowBounds(m, n, i);
    KeptLength(m, m.rowPtr[i], m.rowPtr[i + 1], sel, num);
  }

  lemma {:induction false} SubCountMono(m: Matrix, n: nat, rowSel: seq<bool>, sel: seq<bool>, j: nat, k: nat)
    requires Valid(m, n) && ColsBelow(m, |sel|) && |rowSel| == n && j <= k <= n
    ensures SubCount(m, n, rowSel, sel, j) <= SubCount(m, n, rowSel, sel, k)
    decreases k - j
  {
    if j < k {
      SubCountMono(m, n, rowSel, sel, j, k - 1);
    }
  }

  /** Every column numbered as itself. */
  function Identity(w: nat): seq<int>
  {
    seq(w, c requires 0 <= c < w => c)
  }

  /** The external columns scanned: those with a positive marker when there
      are several processes, none otherwise. */
  function Scanned(multi: bool, marker: seq<int>): seq<bool>
  {
    if multi then Positive(marker) else seq(|marker|, _ => false)
  }

  /** Nothing is counted when no column is selected. */
  lemma {:induction false} KeptCountNone(m: Matrix, lo: int, hi: int, sel: seq<bool>)
    requires ColsBelow(m, |sel|) && 0 <= lo <= hi <= |m.colIdx|
    requires forall c :: 0 <= c < |sel| ==> !sel[c]
    ensures KeptCount(m, lo, hi, sel) == 0
    decreases hi - lo
  {
    if hi > lo {
      KeptCountNone(m, lo, hi - 1, sel);
    }
  }

  /** The counting loop of the first pass over the stored positions
      [lo, hi) of one row: `count` grows by the number of entries whose
      column has a positive marker. */
  method CountRow(m: Matrix, lo: int, hi: int, marker: seq<int>, count: nat) returns (count': nat)
    requires ColsBelow(m, |marker|) && 0 <= lo <= hi <= |m.colIdx|
    ensures count' == count + KeptCount(m, lo, hi, Positive(marker))
  {
    count' := count;
    var jj := lo;
    while jj < hi
      invariant lo <= jj <= hi
      invariant count' == count + KeptCount(m, lo, jj, Positive(marker))
    {
      var i1 := m.colIdx[jj];
      if marker[i1] > 0 {
        count' := count' + 1;
      }
      jj := jj + 1;
    }
  }

  /** The bookkeeping of the first pass for row i: a row with a positive
      row marker is counted, and so are its kept diagonal entries and,
      with several processes, its kept off-diagonal entries. */
  method CountPoint(aDiag: Matrix, aOffd: Matrix, n: nat, rowcf: seq<int>, colcf: seq<int>, cfOffd: seq<int>,
                    multi: bool, i: nat, rows: nat, diagSize: nat, offdSize: nat)
    returns (rows': nat, diagSize': nat, offdSize': nat)
    requires Valid(aDiag, n) && Valid(aOffd, n) && |rowcf| == n && |colcf| == n && i < n
    requires ColsBelow(aDiag, n) && ColsBelow(aOffd, |cfOffd|)
    requires rows == Rank(Positive(rowcf), i)
    requires diagSize == SubCount(aDiag, n, Positive(rowcf), Positive(colcf), i)
    requires offdSize == SubCount(aOffd, n, Positive(rowcf), Scanned(multi, cfOffd), i)
    ensures rows' == Rank(Positive(rowcf), i + 1)
    ensures diagSize' == SubCount(aDiag, n, Positive(rowcf), Positive(colcf), i + 1)
    ensures offdSize' == SubCount(aOffd, n, Positive(rowcf), Scanned(multi, cfOffd), i + 1)
  {
    rows', diagSize', offdSize' := rows, diagSize, offdSize;
    if rowcf[i] > 0 {
      RowBounds(aDiag, n, i);
      RowBounds(aOffd, n, i);
      rows' := rows + 1;
      diagSize' := CountRow(aDiag, aDiag.rowPtr[i], aDiag.rowPtr[i + 1], colcf, diagSize);
      if multi {
        offdSize' := CountRow(aOffd, aOffd.rowPtr[i], aOffd.rowPtr[i + 1], cfOffd, offdSize);
      } else {
        KeptCountNone(aOffd, aOffd.rowPtr[i], aOffd.rowPtr[i + 1], Scanned(multi, cfOffd));
      }
    }
  }

  /** Column i gets the next coarse number when its column marker is
      positive; fine_to_coarse keeps its initial -1 otherwise. */
  method NumberPoint(colcf: seq<int>, i: nat, f2c: array<int>, counter: nat) returns (counter': nat)
    requires i < |colcf| == f2c.Length && counter == Rank(Positive(colcf), i)
    requires forall k :: 0 <= k < i ==> f2c[k] == Numbered(Positive(colcf), -1)[k]
    requires forall k :: i <= k < |colcf| ==> f2c[k] == -1
    modifies f2c
    ensures counter' == Rank(Positive(colcf), i + 1)
    ensures forall k :: 0 <= k < i + 1 ==> f2c[k] == Numbered(Positive(colcf), -1)[k]
    ensures forall k :: i + 1 <= k < |colcf| ==> f2c[k] == -1
  {
    counter' := counter;
    if colcf[i] > 0 {
      f2c[i] := counter;
      counter' := counter + 1;
    }
  }

  /** The first pass of hypre_MGRGetSubBlock: fine_to_coarse numbers the
      columns with a positive column marker consecutively (-1 elsewhere),
      and the sizes of the sub-block are counted. */
  method CountPass(aDiag: Matrix, aOffd: Matrix, n: nat, rowcf: seq<int>, colcf: seq<int>, cfOffd: seq<int>, multi: bool)
    returns (f2c: seq<int>, rows: nat, diagSize: nat, offdSize: nat)
    requires Valid(aDiag, n) && Valid(aOffd, n) && |rowcf| == n && |colcf| == n
    requires ColsBelow(aDiag, n) && ColsBelow(aOffd, |cfOffd|)
    ensures f2c == Numbered(Positive(colcf), -1)
    ensures rows == CountTrue(Positive(rowcf))
    ensures diagSize == SubCount(aDiag, n, Positive(rowcf), Positive(colcf), n)
    ensures offdSize == SubCount(aOffd, n, Positive(rowcf), Scanned(multi, cfOffd), n)
  {
    var fine := new int[n](_ => -1);
    var colCounter := 0;
    rows, diagSize, offdSize := 0, 0, 0;
    var i := 0;
    while i < n
      invariant 0 <= i <= n
      invariant colCounter == Rank(Positive(colcf), i)
      invariant forall k :: 0 <= k < i ==> fine[k] == Numbered(Positive(colcf), -1)[k]
      invariant forall k :: i <= k < n ==> fine[k] == -1
      invariant rows == Rank(Positive(rowcf), i)
      invariant diagSize == SubCount(aDiag, n, Positive(rowcf), Positive(colcf), i)
      invariant offdSize == SubCount(aOffd, n, Positive(rowcf), Scanned(multi, cfOffd), i)
    {
      colCounter := NumberPoint(colcf, i, fine, colCounter);
      rows, diagSize, offdSize := CountPoint(aDiag, aOffd, n, rowcf, colcf, cfOffd, multi, i, rows, diagSize, offdSize);
      i := i + 1;
    }
    f2c := fine[..];
  }

  /** The copy loop of the second pass over the stored positions [lo, hi)
      of one row: each entry whose column has a positive marker is written
      at the running position, its column renumbered by `num`.  The buffers
      hold the entries `front` before the call and `front` followed by the
      kept entries after it. */
  method FillRow(m: Matrix, lo: int, hi: int, marker: seq<int>, num: seq<int>,
                 cols: array<int>, vals: array<real>, at: nat, ghost front: seq<Entry>) returns (next: nat)
    requires ColsBelow(m, |marker|) && |num| == |marker| && |m.vals| == |m.colIdx|
    requires 0 <= lo <= hi <= |m.colIdx|
    requires at == |front| && at + KeptCount(m, lo, hi, Positive(marker)) <= cols.Length
    requires at + KeptCount(m, lo, hi, Positive(marker)) <= vals.Length
    requires cols[..at] == ColsOf(front) && vals[..at] == ValsOf(front)
    modifies cols, vals
    ensures next == at + KeptCount(m, lo, hi, Positive(marker)) && next == at + |Kept(m, lo, hi, Positive(marker), num)|
    ensures cols[..next] == ColsOf(front + Kept(m, lo, hi, Positive(marker), num))
    ensures vals[..next] == ValsOf(front + Kept(m, lo, hi, Positive(marker), num))
  {
    ghost var sel := Positive(marker);
    next := at;
    var jj := lo;
    KeptLength(m, lo, lo, sel, num);
    while jj < hi
      invariant lo <= jj <= hi
      invariant next == at + KeptCount(m, lo, jj, sel) && next == at + |Kept(m, lo, jj, sel, num)|
      invariant next <= at + KeptCount(m, lo, hi, sel)
      invariant cols[..next] == ColsOf(front + Kept(m, lo, jj, sel, num))
      invariant vals[..next] == ValsOf(front + Kept(m, lo, jj, sel, num))
    {
      ghost var done := front + Kept(m, lo, jj, sel, num);
      KeptCountMono(m, lo, jj + 1, hi, sel);
      KeptLength(m, lo, jj + 1, sel, num);
      var i1 := m.colIdx[jj];
      if marker[i1] > 0 {
        ghost var e := Entry(num[i1], m.vals[jj]);
        assert front + Kept(m, lo, jj + 1, sel, num) == done + [e];
        cols[next] := num[i1];
        vals[next] := m.vals[jj];
        assert cols[..next + 1] == ColsOf(done) + [e.col];
        assert vals[..next + 1] == ValsOf(done) + [e.val];
        next := next + 1;
      } else {
        assert front + Kept(m, lo, jj + 1, sel, num) == done;
      }
      jj := jj + 1;
    }
  }

  /** After the second pass has reached some row: `rows` are the sub-block
      rows built so far, the row pointer holds their starts, `at` counts
      their entries and the buffers hold those entries at their front. */
  predicate Written(ptr: seq<int>, cols: seq<int>, vals: seq<real>, rows: seq<seq<Entry>>, ii: nat, at: nat)
  {
    && ii == |rows| && ii < |ptr| && ptr[..ii] + [at] == Starts(rows)
    && at == |Flatten(rows)| && at <= |cols| && at <= |vals|
    && cols[..at] == ColsOf(Flatten(rows)) && vals[..at] == ValsOf(Flatten(rows))
  }

  /** A selected row fits: its start goes to a position below the last
      row pointer and its kept entries fit the counted size. */
  lemma RowFits(m: Matrix, n: nat, rowSel: seq<bool>, sel: seq<bool>, num: seq<int>, i: nat)
    requires Source(m, n, sel, num) && |rowSel| == n && i < n && rowSel[i]
    ensures |SubRowsUpTo(m, n, rowSel, sel, num, i)| < CountTrue(rowSel)
    ensures |Flatten(SubRowsUpTo(m, n, rowSel, sel, num, i))| + RowCount(m, n, i, sel) <= SubCount(m, n, rowSel, sel, n)
  {
    SubRowsShape(m, n, rowSel, sel, num, i);
    RankBelowCount(rowSel, i);
    SubCountFill(m, n, rowSel, sel, num, i);
    SubCountMono(m, n, rowSel, sel, i + 1, n);
  }

  /** An unselected row adds no row to the sub-block. */
  lemma SkipRow(m: Matrix, n: nat, rowSel: seq<bool>, sel: seq<bool>, num: seq<int>, i: nat)
    requires Source(m, n, sel, num) && |rowSel| == n && i < n && !rowSel[i]
    ensures SubRowsUpTo(m, n, rowSel, sel, num, i + 1) == SubRowsUpTo(m, n, rowSel, sel, num, i)
  {
  }

  /** One block of one selected row in the second pass: the row's start
      goes to the row pointer and, when the block is scanned, its kept
      entries follow the rows before it. */
  method BlockRow(m: Matrix, n: nat, ghost rowSel: seq<bool>, marker: seq<int>, num: seq<int>, scan: bool, i: nat,
                  ptr: array<int>, cols: array<int>, vals: array<real>, ii: nat, at: nat) returns (next: nat)
    requires Source(m, n, Scanned(scan, marker), num) && |num| == |marker| && |rowSel| == n && i < n && rowSel[i]
    requires ptr != cols && ptr.Length == CountTrue(rowSel) + 1
    requires cols.Length == SubCount(m, n, rowSel, Scanned(scan, marker), n) && vals.Length == cols.Length
    requires Written(ptr[..], cols[..], vals[..], SubRowsUpTo(m, n, rowSel, Scanned(scan, marker), num, i), ii, at)
    modifies ptr, cols, vals
    ensures Written(ptr[..], cols[..], vals[..], SubRowsUpTo(m, n, rowSel, Scanned(scan, marker), num, i + 1), ii + 1, next)
  {
    ghost var sel := Scanned(scan, marker);
    ghost var rows := SubRowsUpTo(m, n, rowSel, sel, num, i);
    RowFits(m, n, rowSel, sel, num, i);
    RowBounds(m, n, i);
    var lo, hi := m.rowPtr[i], m.rowPtr[i + 1];
    ghost var row := RowKept(m, n, i, sel, num);
    FlattenAppend(rows, row);
    KeptLength(m, lo, hi, sel, num);
    ptr[ii] := at;
    assert ptr[..ii + 1] == Starts(rows);
    if scan {
      next := FillRow(m, lo, hi, marker, num, cols, vals, at, Flatten(rows));
    } else {
      KeptNone(m, lo, hi, sel, num);
      next := at;
    }
  }

  /** The second pass of hypre_MGRGetSubBlock: for every row with a
      positive row marker, the diagonal block receives its kept entries
      (columns numbered by fine_to_coarse) and, with several processes, the
      off-diagonal block its kept entries (external columns as they are). */
  method FillPass(aDiag: Matrix, aOffd: Matrix, n: nat, rowcf: seq<int>, colcf: seq<int>, f2c: seq<int>,
                  cfOffd: seq<int>, multi: bool,
                  pdi: array<int>, pdj: array<int>, pdd: array<real>, poi: array<int>, poj: array<int>, pod: array<real>)
    returns (ii: nat, jj: nat, jjo: nat)
    requires Source(aDiag, n, Scanned(true, colcf), f2c) && Source(aOffd, n, Scanned(multi, cfOffd), Identity(|cfOffd|))
    requires |rowcf| == n && |f2c| == |colcf|
    requires pdi != pdj && pdi != poi && pdi != poj && pdj != poi && pdj != poj && poi != poj && pdd != pod
    requires pdi.Length == CountTrue(Positive(rowcf)) + 1 && poi.Length == pdi.Length
    requires pdj.Length == SubCount(aDiag, n, Positive(rowcf), Scanned(true, colcf), n) && pdd.Length == pdj.Length
    requires poj.Length == SubCount(aOffd, n, Positive(rowcf), Scanned(multi, cfOffd), n) && pod.Length == poj.Length
    modifies pdi, pdj, pdd, poi, poj, pod
    ensures Written(pdi[..], pdj[..], pdd[..], SubRowsUpTo(aDiag, n, Positive(rowcf), Scanned(true, colcf), f2c, n), ii, jj)
    ensures Written(poi[..], poj[..], pod[..],
                    SubRowsUpTo(aOffd, n, Positive(rowcf), Scanned(multi, cfOffd), Identity(|cfOffd|), n), ii, jjo)
  {
    ghost var rowSel := Positive(rowcf);
    ii, jj, jjo := 0, 0, 0;
    var i := 0;
    while i < n
      invariant 0 <= i <= n
      invariant Written(pdi[..], pdj[..], pdd[..], SubRowsUpTo(aDiag, n, rowSel, Scanned(true, colcf), f2c, i), ii, jj)
      invariant Written(poi[..], poj[..], pod[..],
                        SubRowsUpTo(aOffd, n, rowSel, Scanned(multi, cfOffd), Identity(|cfOffd|), i), ii, jjo)
    {
      ii, jj, jjo := FillStep(aDiag, aOffd, n, rowcf, colcf, f2c, cfOffd, multi, pdi, pdj, pdd, poi, poj, pod, i, ii, jj, jjo);
      i := i + 1;
    }
  }

  /** Row i of the second pass: a row of positive marker writes its
      diagonal and off-diagonal blocks, any other row writes nothing. */
  method FillStep(aDiag: Matrix, aOffd: Matrix, n: nat, rowcf: seq<int>, colcf: seq<int>, f2c: seq<int>,
                  cfOffd: seq<int>, multi: bool,
                  pdi: array<int>, pdj: array<int>, pdd: array<real>, poi: array<int>, poj: array<int>, pod: array<real>,
                  i: nat, ii: nat, jj: nat, jjo: nat)
    returns (ii': nat, jj': nat, jjo': nat)
    requires Source(aDiag, n, Scanned(true, colcf), f2c) && Source(aOffd, n, Scanned(multi, cfOffd), Identity(|cfOffd|))
    requires |rowcf| == n && |f2c| == |colcf| && i < n
    requires pdi != pdj && pdi != poi && pdi != poj && pdj != poi && pdj != poj && poi != poj && pdd != pod
    requires pdi.Length == CountTrue(Positive(rowcf)) + 1 && poi.Length == pdi.Length
    requires pdj.Length == SubCount(aDiag, n, Positive(rowcf), Scanned(true, colcf), n) && pdd.Length == pdj.Length
    requires poj.Length == SubCount(aOffd, n, Positive(rowcf), Scanned(multi, cfOffd), n) && pod.Length == poj.Length
    requires Written(pdi[..], pdj[..], pdd[..], SubRowsUpTo(aDiag, n, Positive(rowcf), Scanned(true, colcf), f2c, i), ii, jj)
    requires Written(poi[..], poj[..], pod[..],
                     SubRowsUpTo(aOffd, n, Positive(rowcf), Scanned(multi, cfOffd), Identity(|cfOffd|), i), ii, jjo)
    modifies pdi, pdj, pdd, poi, poj, pod
    ensures Written(pdi[..], pdj[..], pdd[..], SubRowsUpTo(aDiag, n, Positive(rowcf), Scanned(true, colcf), f2c, i + 1), ii', jj')
    ensures Written(poi[..], poj[..], pod[..],
                    SubRowsUpTo(aOffd, n, Positive(rowcf), Scanned(multi, cfOffd), Identity(|cfOffd|), i + 1), ii', jjo')
  {
    ghost var rowSel := Positive(rowcf);
    if rowcf[i] > 0 {
      jj' := BlockRow(aDiag, n, rowSel, colcf, f2c, true, i, pdi, pdj, pdd, ii, jj);
      jjo' := BlockRow(aOffd, n, rowSel, cfOffd, Identity(|cfOffd|), multi, i, poi, poj, pod, ii, jjo);
      ii' := ii + 1;
    } else {
      SkipRow(aDiag, n, rowSel, Scanned(true, colcf), f2c, i);
      SkipRow(aOffd, n, rowSel, Scanned(multi, cfOffd), Identity(|cfOffd|), i);
      ii', jj', jjo' := ii, jj, jjo;
    }
  }

  /** Once every row is written and the last row pointer set, the buffers
      are the CSR encoding of the rows. */
  lemma WrittenEncode(ptr: seq<int>, cols: seq<int>, vals: seq<real>, rows: seq<seq<Entry>>, ii: nat, at: nat)
    requires Written(ptr, cols, vals, rows, ii, at) && |ptr| == ii + 1 && at == |cols| == |vals|
    ensures Matrix(ptr[ii := at], cols, vals) == Encode(rows)
  {
    assert ptr[ii := at] == ptr[..ii] + [at];
    assert cols == cols[..at] && vals == vals[..at];
  }

  /** The columns of all sub-block rows lie in [0, w) when every selected
      column is numbered within [0, w). */
  lemma {:induction false} SubColsRange(m: Matrix, n: nat, rowSel: seq<bool>, sel: seq<bool>, num: seq<int>, w: int, k: nat)
    requires Source(m, n, sel, num) && |rowSel| == n && k <= n
    requires forall c :: 0 <= c < |sel| && sel[c] ==> 0 <= num[c] < w
    ensures forall t :: 0 <= t < |Flatten(SubRowsUpTo(m, n, rowSel, sel, num, k))| ==>
      0 <= Flatten(SubRowsUpTo(m, n, rowSel, sel, num, k))[t].col < w
  {
    if k > 0 {
      SubColsRange(m, n, rowSel, sel, num, w, k - 1);
      var rows := SubRowsUpTo(m, n, rowSel, sel, num, k - 1);
      if rowSel[k - 1] {
        var row := RowKept(m, n, k - 1, sel, num);
        RowBounds(m, n, k - 1);
        KeptColsRange(m, m.rowPtr[k - 1], m.rowPtr[k], sel, num, w);
        FlattenAppend(rows, row);
        forall t | |Flatten(rows)| <= t < |Flatten(rows)| + |row|
          ensures 0 <= (Flatten(rows) + row)[t].col < w
        {
          assert (Flatten(rows) + row)[t] in row;
        }
      } else {
        assert SubRowsUpTo(m, n, rowSel, sel, num, k) == rows;
      }
    }
  }

  /** The external columns that occur among the column indices `cols`. */
  function Used(cols: seq<int>, w: nat): seq<bool>
  {
    seq(w, c requires 0 <= c < w => c in cols)
  }

  /** Each used column index replaced by its rank among the used columns:
      the compacted numbering of the off-diagonal columns. */
  function Renumbered(cols: seq<int>, used: seq<bool>): seq<int>
  {
    seq(|cols|, k requires 0 <= k < |cols| => if 0 <= cols[k] < |used| then Rank(used, cols[k]) else cols[k])
  }

  /** Reading one more column index marks its column as used. */
  lemma UsedStep(cs: seq<int>, i: nat, w: nat)
    requires i < |cs| && 0 <= cs[i] < w
    ensures Used(cs[..i + 1], w) == Used(cs[..i], w)[cs[i] := true]
  {
    assert cs[..i + 1] == cs[..i] + [cs[i]];
  }

  /** The marker loop of the compaction: Ablock_marker flags the external
      columns that occur in the off-diagonal block, and their number is
      counted. */
  method MarkUsed(oj: array<int>, w: nat) returns (marker: array<int>, count: nat)
    requires forall k :: 0 <= k < oj.Length ==> 0 <= oj[k] < w
    ensures fresh(marker) && marker.Length == w
    ensures forall c :: 0 <= c < w ==> marker[c] == (if Used(oj[..], w)[c] then 1 else 0)
    ensures count == CountTrue(Used(oj[..], w))
  {
    ghost var cs := oj[..];
    marker := new int[w](_ => 0);
    count := 0;
    var i := 0;
    assert cs[..0] == [];
    NoneSelected(Used(cs[..0], w), w);
    while i < oj.Length
      invariant 0 <= i <= oj.Length && marker.Length == w
      invariant forall c :: 0 <= c < w ==> marker[c] == (if Used(cs[..i], w)[c] then 1 else 0)
      invariant count == CountTrue(Used(cs[..i], w))
    {
      var index := oj[i];
      UsedStep(cs, i, w);
      if marker[index] == 0 {
        CountBeforeSelect(Used(cs[..i], w), index, w);
        count := count + 1;
        marker[index] := 1;
      } else {
        assert Used(cs[..i + 1], w) == Used(cs[..i], w);
      }
      i := i + 1;
    }
    assert cs[..oj.Length] == oj[..];
  }

  /** The tmp_map_offd loop of the compaction: the flagged columns listed
      in increasing order. */
  method ListUsed(marker: array<int>, ghost used: seq<bool>, count: nat) returns (tmp: array<int>)
    requires marker.Length == |used| && count == CountTrue(used)
    requires forall c :: 0 <= c < |used| ==> marker[c] == (if used[c] then 1 else 0)
    ensures fresh(tmp) && tmp[..] == Indices(used)
  {
    tmp := new int[count];
    var index := 0;
    var i := 0;
    while i < count
      invariant 0 <= i <= count && 0 <= index <= |used|
      invariant Rank(used, index) == i
      invariant tmp[..i] == IndicesUpTo(used, index)
    {
      while marker[index] == 0
        invariant index < |used| && Rank(used, index) == i
        invariant tmp[..i] == IndicesUpTo(used, index)
        decreases |used| - index
      {
        index := index + 1;
      }
      tmp[i] := index;
      assert tmp[..i + 1] == tmp[..i] + [index];
      index := index + 1;
      i := i + 1;
    }
    IndicesPrefix(used, index);
  }

  /** A search of a strictly increasing list: the position of `value`, or
      -1 when it is absent. */
  method BinarySearch(list: seq<int>, value: int) returns (r: int)
    requires StrictlyIncreasing(list)
    ensures -1 <= r < |list|
    ensures r >= 0 ==> list[r] == value
    ensures r == -1 <==> value !in list
  {
    var low, high := 0, |list| - 1;
    while low <= high
      invariant 0 <= low <= |list| && -1 <= high < |list|
      invariant forall k :: 0 <= k < |list| && list[k] == value ==> low <= k <= high
      decreases high - low
    {
      var m := (low + high) / 2;
      if value < list[m] {
        high := m - 1;
      } else if value > list[m] {
        low := m + 1;
      } else {
        return m;
      }
    }
    r := -1;
  }

  /** The position of a used column in the list of used columns is its
      rank. */
  lemma FoundAtRank(used: seq<bool>, c: nat, r: int)
    requires c < |used| && used[c] && 0 <= r < |Indices(used)| && Indices(used)[r] == c
    ensures r == Rank(used, c)
  {
    RankOfIndex(used, r);
  }

  /** The replacement loop of the compaction: every off-diagonal column
      index is replaced by its position in tmp_map_offd. */
  method Renumber(oj: array<int>, tmpMap: seq<int>, ghost used: seq<bool>)
    requires tmpMap == Indices(used)
    requires forall k :: 0 <= k < oj.Length ==> 0 <= oj[k] < |used| && used[oj[k]]
    modifies oj
    ensures oj[..] == Renumbered(old(oj[..]), used)
  {
    ghost var cs := oj[..];
    IndicesSpec(used);
    var i := 0;
    while i < oj.Length
      invariant 0 <= i <= oj.Length
      invariant forall k :: 0 <= k < i ==> oj[k] == Rank(used, cs[k])
      invariant forall k :: i <= k < oj.Length ==> oj[k] == cs[k]
    {
      IndexOfRank(used, cs[i]);
      var r := BinarySearch(tmpMap, oj[i]);
      FoundAtRank(used, cs[i], r);
      oj[i] := r;
      i := i + 1;
    }
  }

  /** The compaction of the off-diagonal block once it holds entries: the
      used external columns are listed in tmp_map_offd and every column
      index becomes its position in that list. */
  method Compact(oj: array<int>, w: nat) returns (tmpMap: seq<int>)
    requires forall k :: 0 <= k < oj.Length ==> 0 <= oj[k] < w
    modifies oj
    ensures tmpMap == Indices(Used(old(oj[..]), w))
    ensures oj[..] == Renumbered(old(oj[..]), Used(old(oj[..]), w))
  {
    ghost var cs := oj[..];
    var marker, count := MarkUsed(oj, w);
    var tmp := ListUsed(marker, Used(cs, w), count);
    tmpMap := tmp[..];
    forall k | 0 <= k < oj.Length
      ensures Used(cs, w)[oj[k]]
    {
      assert cs[k] in cs;
    }
    Renumber(oj, tmpMap, Used(cs, w));
  }

  /** What hypre_MGRGetSubBlock needs of one process's part of A: a diagonal
      block of n rows whose columns index the n local points, and an
      off-diagonal block whose columns index the external columns, for
      each of which `cfOffd` holds the column marker the exchange
      delivers. */
  predicate Input(aDiag: Matrix, aOffd: Matrix, n: nat, rowcf: seq<int>, colcf: seq<int>, cfOffd: seq<int>)
  {
    && Valid(aDiag, n) && Valid(aOffd, n) && |rowcf| == n && |colcf| == n
    && ColsBelow(aDiag, n) && ColsBelow(aOffd, |cfOffd|)
  }

  /** The local result of hypre_MGRGetSubBlock: the two blocks of the
      sub-block, tmp_map_offd (the used external columns of A, in
      increasing order) and fine_to_coarse. */
  datatype SubBlockResult = SubBlockResult(diag: Matrix, offd: Matrix, offdCols: seq<int>, fineToCoarse: seq<int>)

  /** The diagonal rows of the sub-block: the rows with a positive row
      marker, each restricted to the columns with a positive column marker
      and renumbered by the column's rank among them. */
  function DiagRowsOf(aDiag: Matrix, n: nat, rowcf: seq<int>, colcf: seq<int>): seq<seq<Entry>>
    requires Valid(aDiag, n) && ColsBelow(aDiag, n) && |rowcf| == n && |colcf| == n
  {
    SubRowsUpTo(aDiag, n, Positive(rowcf), Positive(colcf), Numbered(Positive(colcf), -1), n)
  }

  /** The off-diagonal rows before compaction: the rows with a positive row
      marker, each restricted to the scanned external columns, which keep
      their numbers. */
  function OffdRowsOf(aOffd: Matrix, n: nat, rowcf: seq<int>, cfOffd: seq<int>, multi: bool): seq<seq<Entry>>
    requires Valid(aOffd, n) && ColsBelow(aOffd, |cfOffd|) && |rowcf| == n
  {
    SubRowsUpTo(aOffd, n, Positive(rowcf), Scanned(multi, cfOffd), Identity(|cfOffd|), n)
  }

  /** The sub-block taken by hypre_MGRGetSubBlock on one process. */
  function SubBlockOf(aDiag: Matrix, aOffd: Matrix, n: nat, rowcf: seq<int>, colcf: seq<int>, cfOffd: seq<int>,
                      multi: bool): SubBlockResult
    requires Input(aDiag, aOffd, n, rowcf, colcf, cfOffd)
  {
    var offd := Encode(OffdRowsOf(aOffd, n, rowcf, cfOffd, multi));
    var used := Used(offd.colIdx, |cfOffd|);
    SubBlockResult(Encode(DiagRowsOf(aDiag, n, rowcf, colcf)),
                   Matrix(offd.rowPtr, Renumbered(offd.colIdx, used), offd.vals),
                   Indices(used),
                   Numbered(Positive(colcf), -1))
  }

  /** hypre_MGRGetSubBlock on one process's rows, with one thread: the
      counting pass, the allocation and filling of both blocks and, when
      the off-diagonal block holds entries, the compaction of its columns.
      `multi` is num_procs > 1. */
  method GetSubBlock(aDiag: Matrix, aOffd: Matrix, n: nat, rowcf: seq<int>, colcf: seq<int>, cfOffd: seq<int>,
                     multi: bool) returns (r: SubBlockResult)
    requires Input(aDiag, aOffd, n, rowcf, colcf, cfOffd)
    ensures r == SubBlockOf(aDiag, aOffd, n, rowcf, colcf, cfOffd, multi)
  {
    var f2c, rows, diagSize, offdSize := CountPass(aDiag, aOffd, n, rowcf, colcf, cfOffd, multi);
    var diag, offdPtr, poj, offdVals := FillBlocks(aDiag, aOffd, n, rowcf, colcf, f2c, cfOffd, multi, rows, diagSize, offdSize);
    OffdColsRange(aOffd, n, rowcf, cfOffd, multi);
    var tmpMap: seq<int>;
    if offdSize > 0 {
      tmpMap := Compact(poj, |cfOffd|);
    } else {
      NoneSelected(Used(poj[..], |cfOffd|), |cfOffd|);
      tmpMap := [];
    }
    r := SubBlockResult(diag, Matrix(offdPtr, poj[..], offdVals), tmpMap, f2c);
  }

  /** The allocation with the sizes the first pass counted, the second
      pass and the last row pointers: the diagonal block is the encoding of
      its rows, and so is the off-diagonal block before compaction. */
  method FillBlocks(aDiag: Matrix, aOffd: Matrix, n: nat, rowcf: seq<int>, colcf: seq<int>, f2c: seq<int>,
                    cfOffd: seq<int>, multi: bool, rows: nat, diagSize: nat, offdSize: nat)
    returns (diag: Matrix, offdPtr: seq<int>, poj: array<int>, offdVals: seq<real>)
    requires Input(aDiag, aOffd, n, rowcf, colcf, cfOffd) && f2c == Numbered(Positive(colcf), -1)
    requires rows == CountTrue(Positive(rowcf))
    requires diagSize == SubCount(aDiag, n, Positive(rowcf), Positive(colcf), n)
    requires offdSize == SubCount(aOffd, n, Positive(rowcf), Scanned(multi, cfOffd), n)
    ensures fresh(poj) && poj.Length == offdSize
    ensures diag == Encode(DiagRowsOf(aDiag, n, rowcf, colcf))
    ensures Matrix(offdPtr, poj[..], offdVals) == Encode(OffdRowsOf(aOffd, n, rowcf, cfOffd, multi))
  {
    var pdi := new int[rows + 1](_ => 0);
    var pdj := new int[diagSize](_ => 0);
    var pdd := new real[diagSize](_ => 0.0);
    pdi[rows] := diagSize;
    var poi := new int[rows + 1](_ => 0);
    poj := new int[offdSize](_ => 0);
    var pod := new real[offdSize](_ => 0.0);
    var ii, jj, jjo := FillPass(aDiag, aOffd, n, rowcf, colcf, f2c, cfOffd, multi, pdi, pdj, pdd, poi, poj, pod);
    FillSizes(aDiag, aOffd, n, rowcf, colcf, cfOffd, multi);
    diag := Close(pdi, pdj, pdd, DiagRowsOf(aDiag, n, rowcf, colcf), ii, jj);
    var offd := Close(poi, poj, pod, OffdRowsOf(aOffd, n, rowcf, cfOffd, multi), ii, jjo);
    offdPtr, offdVals := offd.rowPtr, offd.vals;
  }

  /** The last row pointer of a block, set once every row is written: the
      block is then the CSR encoding of its rows. */
  method Close(ptr: array<int>, cols: array<int>, vals: array<real>, ghost rows: seq<seq<Entry>>, ii: nat, at: nat)
    returns (m: Matrix)
    requires Written(ptr[..], cols[..], vals[..], rows, ii, at) && ptr.Length == ii + 1
    requires at == cols.Length == vals.Length && ptr != cols
    modifies ptr
    ensures m == Encode(rows) && m.colIdx == cols[..]
  {
    WrittenEncode(ptr[..], cols[..], vals[..], rows, ii, at);
    ptr[ii] := at;
    m := Matrix(ptr[..], cols[..], vals[..]);
  }

  /** The sizes the first pass counts are those of the sub-block. */
  lemma FillSizes(aDiag: Matrix, aOffd: Matrix, n: nat, rowcf: seq<int>, colcf: seq<int>, cfOffd: seq<int>, multi: bool)
    requires Input(aDiag, aOffd, n, rowcf, colcf, cfOffd)
    ensures |DiagRowsOf(aDiag, n, rowcf, colcf)| == CountTrue(Positive(rowcf))
    ensures |Flatten(DiagRowsOf(aDiag, n, rowcf, colcf))| == SubCount(aDiag, n, Positive(rowcf), Positive(colcf), n)
    ensures |Flatten(OffdRowsOf(aOffd, n, rowcf, cfOffd, multi))| == SubCount(aOffd, n, Positive(rowcf), Scanned(multi, cfOffd), n)
  {
    var f2c := Numbered(Positive(colcf), -1);
    SubRowsShape(aDiag, n, Positive(rowcf), Positive(colcf), f2c, n);
    SubCountFill(aDiag, n, Positive(rowcf), Positive(colcf), f2c, n);
    SubCountFill(aOffd, n, Positive(rowcf), Scanned(multi, cfOffd), Identity(|cfOffd|), n);
  }

  /** Before compaction the off-diagonal columns are external columns. */
  lemma OffdColsRange(aOffd: Matrix, n: nat, rowcf: seq<int>, cfOffd: seq<int>, multi: bool)
    requires Valid(aOffd, n) && ColsBelow(aOffd, |cfOffd|) && |rowcf| == n
    ensures forall k :: 0 <= k < |Encode(OffdRowsOf(aOffd, n, rowcf, cfOffd, multi)).colIdx| ==>
      0 <= Encode(OffdRowsOf(aOffd, n, rowcf, cfOffd, multi)).colIdx[k] < |cfOffd|
  {
    SubColsRange(aOffd, n, Positive(rowcf), Scanned(multi, cfOffd), Identity(|cfOffd|), |cfOffd|, n);
  }

  /** The diagonal block of the sub-block is a valid CSR matrix with one
      row per row of positive row marker; the row of rank Rank(rowSel, i)
      is row i of A_diag restricted to the columns of positive column
      marker, and every column lies below the number of such columns. */
  lemma SubBlockDiag(aDiag: Matrix, aOffd: Matrix, n: nat, rowcf: seq<int>, colcf: seq<int>, cfOffd: seq<int>, multi: bool)
    requires Input(aDiag, aOffd, n, rowcf, colcf, cfOffd)
    ensures var d := SubBlockOf(aDiag, aOffd, n, rowcf, colcf, cfOffd, multi).diag;
      var nr := CountTrue(Positive(rowcf));
      && Valid(d, nr)
      && (forall i :: 0 <= i < n && rowcf[i] > 0 ==>
            Rank(Positive(rowcf), i) < nr &&
            Row(d, nr, Rank(Positive(rowcf), i)) == RowKept(aDiag, n, i, Positive(colcf), Numbered(Positive(colcf), -1)))
      && (forall k :: 0 <= k < |d.colIdx| ==> 0 <= d.colIdx[k] < CountTrue(Positive(colcf)))
  {
    var rowSel, colSel := Positive(rowcf), Positive(colcf);
    var rows := DiagRowsOf(aDiag, n, rowcf, colcf);
    SubRowsShape(aDiag, n, rowSel, colSel, Numbered(colSel, -1), n);
    EncodeRows(rows);
    NumberedRange(colSel);
    SubColsRange(aDiag, n, rowSel, colSel, Numbered(colSel, -1), CountTrue(colSel), n);
  }

  /** With every position selected, each position is its own rank. */
  lemma {:induction false} CountBeforeAll(s: seq<bool>, i: nat)
    requires i <= |s| && forall c :: 0 <= c < |s| ==> s[c]
    ensures CountBefore(s, i) == i
  {
    if i > 0 {
      CountBeforeAll(s, i - 1);
    }
  }

  /** When every column is selected and numbered by itself, a span keeps
      all its entries unchanged. */
  lemma {:induction false} KeptAll(m: Matrix, lo: int, hi: int, sel: seq<bool>, num: seq<int>)
    requires ColsBelow(m, |sel|) && |num| == |sel| && |m.vals| == |m.colIdx| && 0 <= lo <= hi <= |m.colIdx|
    requires forall c :: 0 <= c < |sel| ==> sel[c] && num[c] == c
    ensures Kept(m, lo, hi, sel, num) == Entries(m.colIdx, m.vals, lo, hi)
    decreases hi - lo
  {
    if hi > lo {
      KeptAll(m, lo, hi - 1, sel, num);
      var c := m.colIdx[hi - 1];
      assert Entries(m.colIdx, m.vals, lo, hi) == Entries(m.colIdx, m.vals, lo, hi - 1) + [Entry(c, m.vals[hi - 1])];
    }
  }

  /** When every row and every column is selected, with every column
      numbered by itself, the sub-block rows are the rows of the matrix. */
  lemma {:induction false} SubRowsAll(m: Matrix, n: nat, rowSel: seq<bool>, sel: seq<bool>, num: seq<int>, k: nat)
    requires Source(m, n, sel, num) && |rowSel| == n && k <= n
    requires forall i :: 0 <= i < n ==> rowSel[i]
    requires forall c :: 0 <= c < |sel| ==> sel[c] && num[c] == c
    ensures SubRowsUpTo(m, n, rowSel, sel, num, k) == Rows(m, n)[..k]
  {
    if k > 0 {
      SubRowsAll(m, n, rowSel, sel, num, k - 1);
      RowBounds(m, n, k - 1);
      KeptAll(m, m.rowPtr[k - 1], m.rowPtr[k], sel, num);
      assert Rows(m, n)[..k] == Rows(m, n)[..k - 1] + [Rows(m, n)[k - 1]];
    }
  }

  /** Markers that select every row and every column reproduce the
      diagonal block, and fine_to_coarse numbers every point by itself;
      with several processes and every external column selected, the
      off-diagonal block before compaction is A_offd itself. */
  lemma SubBlockAllSelected(aDiag: Matrix, aOffd: Matrix, n: nat, rowcf: seq<int>, colcf: seq<int>, cfOffd: seq<int>, multi: bool)
    requires Input(aDiag, aOffd, n, rowcf, colcf, cfOffd)
    requires forall i :: 0 <= i < n ==> rowcf[i] > 0 && colcf[i] > 0
    ensures var r := SubBlockOf(aDiag, aOffd, n, rowcf, colcf, cfOffd, multi);
      && r.diag == aDiag
      && r.fineToCoarse == Identity(n)
      && (multi && (forall c :: 0 <= c < |cfOffd| ==> cfOffd[c] > 0) ==>
            Encode(OffdRowsOf(aOffd, n, rowcf, cfOffd, multi)) == aOffd)
  {
    var rowSel, colSel := Positive(rowcf), Positive(colcf);
    var num := Numbered(colSel, -1);
    forall c | 0 <= c < n
      ensures num[c] == c
    {
      CountBeforeAll(colSel, c);
    }
    SubRowsAll(aDiag, n, rowSel, colSel, num, n);
    assert Rows(aDiag, n)[..n] == Rows(aDiag, n);
    EncodeOfRows(aDiag, n);
    if multi && (forall c :: 0 <= c < |cfOffd| ==> cfOffd[c] > 0) {
      SubRowsAll(aOffd, n, rowSel, Scanned(multi, cfOffd), Identity(|cfOffd|), n);
      assert Rows(aOffd, n)[..n] == Rows(aOffd, n);
      EncodeOfRows(aOffd, n);
    }
  }

  /** Every entry's column renumbered through `num`, where it is in range. */
  function MapCols(es: seq<Entry>, num: seq<int>): (r: seq<Entry>)
    ensures |r| == |es|
  {
    seq(|es|, k requires 0 <= k < |es| => Entry(if 0 <= es[k].col < |num| then num[es[k].col] else es[k].col, es[k].val))
  }

  lemma MapColsConcat(a: seq<Entry>, b: seq<Entry>, num: seq<int>)
    ensures MapCols(a + b, num) == MapCols(a, num) + MapCols(b, num)
  {
    assert forall k :: 0 <= k < |a| ==> (a + b)[k] == a[k];
    assert forall k :: |a| <= k < |a| + |b| ==> (a + b)[k] == b[k - |a|];
  }

  /** Keeping entries with their columns renumbered by `num` is keeping
      them with their own columns and renumbering afterwards. */
  lemma {:induction false} KeptMap(m: Matrix, lo: int, hi: int, sel: seq<bool>, num: seq<int>)
    requires ColsBelow(m, |sel|) && |num| == |sel| && |m.vals| == |m.colIdx| && 0 <= lo <= hi <= |m.colIdx|
    ensures Kept(m, lo, hi, sel, num) == MapCols(Kept(m, lo, hi, sel, Identity(|sel|)), num)
    decreases hi - lo
  {
    if hi > lo {
      KeptMap(m, lo, hi - 1, sel, num);
      var c := m.colIdx[hi - 1];
      var tail := if sel[c] then [Entry(c, m.vals[hi - 1])] else [];
      MapColsConcat(Kept(m, lo, hi - 1, sel, Identity(|sel|)), tail, num);
    }
  }

  /** The same for the sub-block rows: renumbering changes the columns and
      nothing else, so the row pointer stays the same. */
  lemma {:induction false} SubRowsMap(m: Matrix, n: nat, rowSel: seq<bool>, sel: seq<bool>, num: seq<int>, k: nat)
    requires Source(m, n, sel, num) && |rowSel| == n && k <= n
    ensures Flatten(SubRowsUpTo(m, n, rowSel, sel, num, k)) == MapCols(Flatten(SubRowsUpTo(m, n, rowSel, sel, Identity(|sel|), k)), num)
    ensures Starts(SubRowsUpTo(m, n, rowSel, sel, num, k)) == Starts(SubRowsUpTo(m, n, rowSel, sel, Identity(|sel|), k))
  {
    if k > 0 {
      SubRowsMap(m, n, rowSel, sel, num, k - 1);
      var id := Identity(|sel|);
      var rows, rowsId := SubRowsUpTo(m, n, rowSel, sel, num, k - 1), SubRowsUpTo(m, n, rowSel, sel, id, k - 1);
      if rowSel[k - 1] {
        RowBounds(m, n, k - 1);
        var row, rowId := RowKept(m, n, k - 1, sel, num), RowKept(m, n, k - 1, sel, id);
        assert SubRowsUpTo(m, n, rowSel, sel, num, k) == rows + [row];
        assert SubRowsUpTo(m, n, rowSel, sel, id, k) == rowsId + [rowId];
        KeptMap(m, m.rowPtr[k - 1], m.rowPtr[k], sel, num);
        FlattenAppend(rows, row);
        FlattenAppend(rowsId, rowId);
        MapColsConcat(Flatten(rowsId), rowId, num);
      } else {
        assert SubRowsUpTo(m, n, rowSel, sel, num, k) == rows;
        assert SubRowsUpTo(m, n, rowSel, sel, id, k) == rowsId;
      }
    }
  }

  /** The compacted off-diagonal block is the sub-block whose external
      columns are numbered by their rank among the used ones; tmp_map_offd
      lists exactly the used external columns in increasing order, and
      maps every compacted column back to the external column it came
      from. */
  lemma SubBlockOffd(aDiag: Matrix, aOffd: Matrix, n: nat, rowcf: seq<int>, colcf: seq<int>, cfOffd: seq<int>, multi: bool)
    requires Input(aDiag, aOffd, n, rowcf, colcf, cfOffd)
    ensures var r := SubBlockOf(aDiag, aOffd, n, rowcf, colcf, cfOffd, multi);
      var before := Encode(OffdRowsOf(aOffd, n, rowcf, cfOffd, multi));
      var used := Used(before.colIdx, |cfOffd|);
      && r.offd == Encode(SubRowsUpTo(aOffd, n, Positive(rowcf), Scanned(multi, cfOffd), Numbered(used, -1), n))
      && StrictlyIncreasing(r.offdCols)
      && (forall c :: 0 <= c < |cfOffd| ==> (c in r.offdCols <==> c in before.colIdx))
      && (forall k :: 0 <= k < |r.offd.colIdx| ==>
            0 <= r.offd.colIdx[k] < |r.offdCols| && r.offdCols[r.offd.colIdx[k]] == before.colIdx[k])
  {
    var w := |cfOffd|;
    var sel := Scanned(multi, cfOffd);
    var before := Encode(OffdRowsOf(aOffd, n, rowcf, cfOffd, multi));
    var used := Used(before.colIdx, w);
    var num := Numbered(used, -1);
    var r := SubBlockOf(aDiag, aOffd, n, rowcf, colcf, cfOffd, multi);
    var F := Flatten(OffdRowsOf(aOffd, n, rowcf, cfOffd, multi));
    OffdColsRange(aOffd, n, rowcf, cfOffd, multi);
    IndicesSpec(used);
    SubRowsMap(aOffd, n, Positive(rowcf), sel, num, n);
    var after := Encode(SubRowsUpTo(aOffd, n, Positive(rowcf), sel, num, n));
    forall k | 0 <= k < |F|
      ensures after.colIdx[k] == r.offd.colIdx[k] && after.vals[k] == r.offd.vals[k]
    {
      assert before.colIdx[k] in before.colIdx;
    }
    forall k | 0 <= k < |r.offd.colIdx|
      ensures 0 <= r.offd.colIdx[k] < |r.offdCols| && r.offdCols[r.offd.colIdx[k]] == before.colIdx[k]
    {
      assert before.colIdx[k] in before.colIdx;
      IndexOfRank(used, before.colIdx[k]);
    }
  }

  /** Every marker with its sign flipped: C-points become F-points and
      F-points C-points. */
  function Negated(cf: seq<int>): (r: seq<int>)
    ensures |r| == |cf|
  {
    seq(|cf|, i requires 0 <= i < |cf| => -cf[i])
  }

  /** The points with a positive flipped marker are the F-points. */
  lemma PositiveNegated(cf: seq<int>)
    ensures Positive(Negated(cf)) == Negative(cf)
  {
  }

  /** hypre_MGRBuildAff: the sub-block of A whose rows and columns are
      the F-points, taken with a copy of the marker array whose signs are
      flipped.  `cfOffd` holds the markers of the external columns, so the
      exchange inside hypre_MGRGetSubBlock delivers them flipped as well. */
  method BuildAff(aDiag: Matrix, aOffd: Matrix, n: nat, cf: seq<int>, cfOffd: seq<int>, multi: bool)
    returns (r: SubBlockResult)
    requires Input(aDiag, aOffd, n, cf, cf, cfOffd)
    ensures r == SubBlockOf(aDiag, aOffd, n, Negated(cf), Negated(cf), Negated(cfOffd), multi)
  {
    var copy := new int[n];
    var i := 0;
    while i < n
      invariant 0 <= i <= n
      invariant forall k :: 0 <= k < i ==> copy[k] == -cf[k]
    {
      copy[i] := -cf[i];
      i := i + 1;
    }
    assert copy[..] == Negated(cf);
    r := GetSubBlock(aDiag, aOffd, n, copy[..], copy[..], Negated(cfOffd), multi);
  }

  /** A_FF keeps the rows and the columns with a negative marker: its
      diagonal rows are the F-rows restricted to the F-columns, numbered
      by their rank among the F-points, and with several processes its
      off-diagonal rows keep the external F-columns. */
  lemma AffSelectsF(aDiag: Matrix, aOffd: Matrix, n: nat, cf: seq<int>, cfOffd: seq<int>, multi: bool)
    requires Input(aDiag, aOffd, n, cf, cf, cfOffd)
    ensures DiagRowsOf(aDiag, n, Negated(cf), Negated(cf))
         == SubRowsUpTo(aDiag, n, Negative(cf), Negative(cf), Numbered(Negative(cf), -1), n)
    ensures OffdRowsOf(aOffd, n, Negated(cf), Negated(cfOffd), multi)
         == SubRowsUpTo(aOffd, n, Negative(cf), Scanned(multi, Negated(cfOffd)), Identity(|cfOffd|), n)
    ensures multi ==> Scanned(multi, Negated(cfOffd)) == Negative(cfOffd)
  {
    PositiveNegated(cf);
    PositiveNegated(cfOffd);
  }
}
