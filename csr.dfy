/** Compressed-sparse-row storage, as the local diagonal and off-diagonal
    blocks of a ParCSR matrix hold it: a row pointer `rowPtr` (the source's
    `*_i` arrays), column indices `colIdx` (`*_j`) and values `vals`
    (`*_data`).  Matrix values are abstract reals: the modelled code only
    copies, negates or scales them.

    A matrix with n rows is also viewed as a sequence of n rows, each a
    sequence of entries; `Rows` and `Encode` convert between the two views
    and are inverse to each other (EncodeRows, EncodeOfRows). */
module Csr {

  datatype Entry = Entry(col: int, val: real)

  datatype Matrix = Matrix(rowPtr: seq<int>, colIdx: seq<int>, vals: seq<real>)

  /** The CSR invariant of a matrix with n rows: row i occupies positions
      [rowPtr[i], rowPtr[i+1]) of colIdx and vals, the row pointer starts at 0,
      never decreases, and ends at the number of stored entries. */
  predicate Valid(m: Matrix, n: nat)
  {
    && |m.rowPtr| == n + 1
    && |m.vals| == |m.colIdx|
    && m.rowPtr[0] == 0
    && m.rowPtr[n] == |m.colIdx|
    && forall i, j {:trigger Ordered(m.rowPtr, i, j)} :: 0 <= i <= j <= n ==> Ordered(m.rowPtr, i, j)
  }

  /** Position i of p holds no more than position j. */
  predicate Ordered(p: seq<int>, i: int, j: int)
  {
    0 <= i < |p| && 0 <= j < |p| && p[i] <= p[j]
  }

  /** The row pointer of a valid matrix never decreases and stays within
      the stored entries. */
  lemma RowPtrMono(m: Matrix, n: nat, i: int, j: int)
    requires Valid(m, n) && 0 <= i <= j <= n
    ensures 0 <= m.rowPtr[i] <= m.rowPtr[j] <= |m.colIdx|
  {
    assert Ordered(m.rowPtr, 0, i) && Ordered(m.rowPtr, i, j) && Ordered(m.rowPtr, j, n);
  }

  /** Row i of a valid matrix lies within the stored entries. */
  lemma RowBounds(m: Matrix, n: nat, i: int)
    requires Valid(m, n) && 0 <= i < n
    ensures 0 <= m.rowPtr[i] <= m.rowPtr[i + 1] <= |m.colIdx|
  {
    RowPtrMono(m, n, i, i + 1);
    RowPtrMono(m, n, i + 1, n);
  }

  /** The entries stored at positions [lo, hi). */
  function Entries(cols: seq<int>, vals: seq<real>, lo: int, hi: int): seq<Entry>
    requires 0 <= lo <= hi <= |cols| && hi <= |vals|
  {
    seq(hi - lo, k requires 0 <= k < hi - lo => Entry(cols[lo + k], vals[lo + k]))
  }

  /** Row i of a valid matrix. */
  function Row(m: Matrix, n: nat, i: int): seq<Entry>
    requires Valid(m, n) && 0 <= i < n
  {
    RowBounds(m, n, i);
    Entries(m.colIdx, m.vals, m.rowPtr[i], m.rowPtr[i + 1])
  }

  /** The row view of a valid matrix. */
  function Rows(m: Matrix, n: nat): (rows: seq<seq<Entry>>)
    requires Valid(m, n)
  {
    seq(n, i requires 0 <= i < n => Row(m, n, i))
  }

  /** The entries of all rows, row after row. */
  function Flatten(rows: seq<seq<Entry>>): seq<Entry>
  {
    if rows == [] then [] else Flatten(rows[..|rows| - 1]) + rows[|rows| - 1]
  }

  /** The row pointer of the rows laid out one after another. */
  function Starts(rows: seq<seq<Entry>>): seq<int>
  {
    if rows == [] then [0] else Starts(rows[..|rows| - 1]) + [|Flatten(rows)|]
  }

  function ColsOf(es: seq<Entry>): seq<int>
  {
    seq(|es|, k requires 0 <= k < |es| => es[k].col)
  }

  function ValsOf(es: seq<Entry>): seq<real>
  {
    seq(|es|, k requires 0 <= k < |es| => es[k].val)
  }

  function NegateEntries(es: seq<Entry>): seq<Entry>
  {
    seq(|es|, k requires 0 <= k < |es| => Entry(es[k].col, -es[k].val))
  }

  /** The CSR layout of a sequence of rows, with no slack. */
  function Encode(rows: seq<seq<Entry>>): Matrix
  {
    Matrix(Starts(rows), ColsOf(Flatten(rows)), ValsOf(Flatten(rows)))
  }

  /** Appending one row to the flattened prefix. */
  lemma FlattenStep(rows: seq<seq<Entry>>, i: nat)
    requires i < |rows|
    ensures Flatten(rows[..i + 1]) == Flatten(rows[..i]) + rows[i]
  {
    assert rows[..i + 1][..i] == rows[..i];
  }

  /** Appending a row appends its entries to the flattened rows and its
      end to the row pointer. */
  lemma FlattenAppend(rows: seq<seq<Entry>>, r: seq<Entry>)
    ensures Flatten(rows + [r]) == Flatten(rows) + r
    ensures Starts(rows + [r]) == Starts(rows) + [|Flatten(rows)| + |r|]
  {
    assert (rows + [r])[..|rows|] == rows;
  }

  /** Starts(rows)[k] is the number of entries of the first k rows, and the
      entries of the first k rows are a prefix of all entries. */
  lemma {:induction false} StartsAt(rows: seq<seq<Entry>>, k: nat)
    requires k <= |rows|
    ensures |Starts(rows)| == |rows| + 1
    ensures Starts(rows)[k] == |Flatten(rows[..k])|
    ensures Flatten(rows[..k]) <= Flatten(rows)
  {
    if rows == [] {
      assert rows[..k] == [];
    } else {
      var last := |rows| - 1;
      var front := rows[..last];
      if k == |rows| {
        assert rows[..k] == rows;
        StartsAt(front, last);
      } else {
        StartsAt(front, k);
        assert front[..k] == rows[..k];
      }
    }
  }

  /** The row pointer of the first k rows, without the prefix fact. */
  lemma StartsIndex(rows: seq<seq<Entry>>, k: nat)
    requires k <= |rows|
    ensures |Starts(rows)| == |rows| + 1
    ensures Starts(rows)[k] == |Flatten(rows[..k])|
    ensures |Flatten(rows[..k])| <= |Flatten(rows)|
  {
    StartsAt(rows, k);
  }

  /** The rows of the encoding are the encoded rows, and the encoding is a
      valid CSR matrix. */
  lemma EncodeRows(rows: seq<seq<Entry>>)
    ensures Valid(Encode(rows), |rows|)
    ensures Rows(Encode(rows), |rows|) == rows
  {
    var n := |rows|;
    var m := Encode(rows);
    var f := Flatten(rows);
    StartsAt(rows, 0);
    StartsAt(rows, n);
    assert rows[..n] == rows;
    assert rows[..0] == [];
    forall i, j | 0 <= i <= j <= n
      ensures Ordered(m.rowPtr, i, j)
    {
      StartsAt(rows, i);
      StartsAt(rows, j);
      assert rows[..j][..i] == rows[..i];
      StartsAt(rows[..j], i);
    }
    assert Valid(m, n);
    forall i | 0 <= i < n
      ensures Row(m, n, i) == rows[i]
    {
      StartsAt(rows, i);
      StartsAt(rows, i + 1);
      FlattenStep(rows, i);
      var lo := |Flatten(rows[..i])|;
      assert Flatten(rows[..i + 1]) <= f;
      forall k | 0 <= k < |rows[i]|
        ensures Row(m, n, i)[k] == rows[i][k]
      {
        assert f[lo + k] == Flatten(rows[..i + 1])[lo + k];
      }
    }
  }

  /** The first k rows of a valid matrix hold exactly its first rowPtr[k]
      entries. */
  lemma {:induction false} FlattenRowsPrefix(m: Matrix, n: nat, k: nat)
    requires Valid(m, n) && k <= n
    ensures 0 <= m.rowPtr[k] <= |m.colIdx|
         && Flatten(Rows(m, n)[..k]) == Entries(m.colIdx, m.vals, 0, m.rowPtr[k])
  {
    var rows := Rows(m, n);
    if k == 0 {
      assert rows[..0] == [];
      RowPtrMono(m, n, 0, n);
    } else {
      FlattenRowsPrefix(m, n, k - 1);
      FlattenStep(rows, k - 1);
      RowBounds(m, n, k - 1);
    }
  }

  /** Encoding the rows of a valid matrix gives back the matrix. */
  lemma EncodeOfRows(m: Matrix, n: nat)
    requires Valid(m, n)
    ensures Encode(Rows(m, n)) == m
  {
    var rows := Rows(m, n);
    var e := Encode(rows);
    FlattenRowsPrefix(m, n, n);
    assert rows[..n] == rows;
    StartsAt(rows, n);
    forall k | 0 <= k <= n
      ensures e.rowPtr[k] == m.rowPtr[k]
    {
      StartsAt(rows, k);
      FlattenRowsPrefix(m, n, k);
    }
    assert e.rowPtr == m.rowPtr;
    assert e.colIdx == m.colIdx;
    assert e.vals == m.vals;
  }

  /** Zero-filled buffers, as hypre_CTAlloc returns them. */
  function Zeros(n: nat): seq<int>
  {
    seq(n, _ => 0)
  }

  function RealZeros(n: nat): seq<real>
  {
    seq(n, _ => 0.0)
  }

  /** A zero-filled buffer of n entries, as hypre_CTAlloc allocates it. */
  method NewZeros(n: nat) returns (a: array<int>)
    ensures fresh(a) && a[..] == Zeros(n)
  {
    a := new int[n](_ => 0);
  }

  method NewRealZeros(n: nat) returns (a: array<real>)
    ensures fresh(a) && a[..] == RealZeros(n)
  {
    a := new real[n](_ => 0.0);
  }

  lemma ZerosSlice(n: nat, k: nat)
    requires k <= n
    ensures Zeros(n)[k..] == Zeros(n - k) && RealZeros(n)[k..] == RealZeros(n - k)
  {
  }

  /** The rows laid out in buffers of `size` entries (size at least the
      number of entries): the unused tail of the column and value buffers
      keeps its zero fill, and the last row pointer is `size` rather than
      the entry count. */
  function Padded(rows: seq<seq<Entry>>, size: int): Matrix
    requires |Flatten(rows)| <= size
  {
    StartsAt(rows, 0);
    var fill := |Flatten(rows)|;
    Matrix(Starts(rows)[..|rows|] + [size],
           ColsOf(Flatten(rows)) + Zeros(size - fill),
           ValsOf(Flatten(rows)) + RealZeros(size - fill))
  }

  /** The rows laid out at the front of zero-filled buffers of `size`
      entries, the row pointer recording only where the rows start and
      end (a single `size` when there are no rows). */
  function Filled(rows: seq<seq<Entry>>, size: int): Matrix
    requires |Flatten(rows)| <= size
  {
    var fill := |Flatten(rows)|;
    Matrix(if rows == [] then [size] else Starts(rows),
           ColsOf(Flatten(rows)) + Zeros(size - fill),
           ValsOf(Flatten(rows)) + RealZeros(size - fill))
  }

  /** Without slack the padded layout is the plain encoding. */
  lemma PaddedExact(rows: seq<seq<Entry>>, size: int)
    requires |Flatten(rows)| == size
    ensures Padded(rows, size) == Encode(rows)
  {
    var n := |rows|;
    StartsAt(rows, n);
    assert rows[..n] == rows;
    assert Starts(rows)[..n] + [size] == Starts(rows);
    assert Zeros(0) == [] && RealZeros(0) == [];
  }

  /** When the rows leave slack, every row but the last is stored as it is
      and the slack entries (column 0, value 0) trail the last row. */
  lemma PaddedRows(rows: seq<seq<Entry>>, size: int)
    requires |Flatten(rows)| <= size && |rows| > 0
    ensures Valid(Padded(rows, size), |rows|)
    ensures forall i :: 0 <= i < |rows| - 1 ==> Row(Padded(rows, size), |rows|, i) == rows[i]
    ensures Row(Padded(rows, size), |rows|, |rows| - 1)
         == rows[|rows| - 1] + seq(size - |Flatten(rows)|, _ => Entry(0, 0.0))
  {
    PaddedValid(rows, size);
    forall i | 0 <= i < |rows| - 1
      ensures Row(Padded(rows, size), |rows|, i) == rows[i]
    {
      PaddedRow(rows, size, i);
    }
    PaddedLastRow(rows, size);
  }

  /** The padded layout shares the encoding's row pointer except for its
      last position, which is the buffer size. */
  lemma PaddedValid(rows: seq<seq<Entry>>, size: int)
    requires |Flatten(rows)| <= size && |rows| > 0
    ensures Valid(Padded(rows, size), |rows|)
    ensures Valid(Encode(rows), |rows|) && Rows(Encode(rows), |rows|) == rows
    ensures forall k :: 0 <= k < |rows| ==> Padded(rows, size).rowPtr[k] == Encode(rows).rowPtr[k]
    ensures Padded(rows, size).rowPtr[|rows|] == size
    ensures forall t :: 0 <= t < |Flatten(rows)| ==>
      Padded(rows, size).colIdx[t] == Encode(rows).colIdx[t] && Padded(rows, size).vals[t] == Encode(rows).vals[t]
  {
    var n := |rows|;
    var p := Padded(rows, size);
    var e := Encode(rows);
    EncodeRows(rows);
    StartsAt(rows, n);
    forall i, j | 0 <= i <= j <= n
      ensures Ordered(p.rowPtr, i, j)
    {
      if j < n {
        assert Ordered(e.rowPtr, i, j);
      } else {
        RowPtrMono(e, n, i, n);
      }
    }
  }

  lemma PaddedRow(rows: seq<seq<Entry>>, size: int, i: nat)
    requires |Flatten(rows)| <= size && i + 1 < |rows|
    ensures Valid(Padded(rows, size), |rows|)
    ensures Row(Padded(rows, size), |rows|, i) == rows[i]
  {
    var n := |rows|;
    var p := Padded(rows, size);
    var e := Encode(rows);
    PaddedValid(rows, size);
    RowBounds(e, n, i);
    RowPtrMono(e, n, i + 1, n);
    var lo, hi := e.rowPtr[i], e.rowPtr[i + 1];
    assert Row(e, n, i) == rows[i];
    forall k | 0 <= k < hi - lo
      ensures Row(p, n, i)[k] == Row(e, n, i)[k]
    {
      assert p.colIdx[lo + k] == e.colIdx[lo + k] && p.vals[lo + k] == e.vals[lo + k];
    }
  }

  lemma PaddedLastRow(rows: seq<seq<Entry>>, size: int)
    requires |Flatten(rows)| <= size && |rows| > 0
    ensures Valid(Padded(rows, size), |rows|)
    ensures Row(Padded(rows, size), |rows|, |rows| - 1)
         == rows[|rows| - 1] + seq(size - |Flatten(rows)|, _ => Entry(0, 0.0))
  {
    var n := |rows|;
    var p := Padded(rows, size);
    var e := Encode(rows);
    var fill := |Flatten(rows)|;
    PaddedValid(rows, size);
    RowBounds(e, n, n - 1);
    var lo := e.rowPtr[n - 1];
    var last := rows[n - 1] + seq(size - fill, _ => Entry(0, 0.0));
    assert Row(e, n, n - 1) == rows[n - 1];
    assert |Row(p, n, n - 1)| == size - lo;
    forall k | 0 <= k < size - lo
      ensures Row(p, n, n - 1)[k] == last[k]
    {
      if lo + k < fill {
        assert p.colIdx[lo + k] == e.colIdx[lo + k] && p.vals[lo + k] == e.vals[lo + k];
        assert last[k] == Row(e, n, n - 1)[k];
      } else {
        assert p.colIdx[lo + k] == 0 && p.vals[lo + k] == 0.0;
      }
    }
  }

  /** The buffer with positions [at, at + |xs|) overwritten by xs. */
  function Splice<T>(buf: seq<T>, at: nat, xs: seq<T>): (r: seq<T>)
    requires at + |xs| <= |buf|
    ensures |r| == |buf|
  {
    buf[..at] + xs + buf[at + |xs|..]
  }

  /** Writing xs just after a laid-out front extends the front by xs. */
  lemma SpliceAfter<T>(front: seq<T>, base: seq<T>, xs: seq<T>)
    requires |front| + |xs| <= |base|
    ensures Splice(front + base[|front|..], |front|, xs) == (front + xs) + base[|front| + |xs|..]
  {
    var buf := front + base[|front|..];
    assert buf[..|front|] == front;
    assert buf[|front| + |xs|..] == base[|front| + |xs|..];
  }

  /** Writes entry e behind the entries `done` already stored in the
      column and value arrays. */
  method Put(cols: array<int>, vals: array<real>, at: nat, e: Entry, ghost done: seq<Entry>)
    requires at == |done| && at < cols.Length && at < vals.Length
    requires cols[..at] == ColsOf(done) && vals[..at] == ValsOf(done)
    modifies cols, vals
    ensures cols[..at + 1] == ColsOf(done + [e]) && vals[..at + 1] == ValsOf(done + [e])
  {
    cols[at] := e.col;
    vals[at] := e.val;
    assert cols[..at + 1] == ColsOf(done) + [e.col];
    assert vals[..at + 1] == ValsOf(done) + [e.val];
  }

  lemma ColsValsOfConcat(a: seq<Entry>, b: seq<Entry>)
    ensures ColsOf(a + b) == ColsOf(a) + ColsOf(b)
    ensures ValsOf(a + b) == ValsOf(a) + ValsOf(b)
  {
  }

  /** The values with their signs flipped when `negate` holds. */
  function Signed(vs: seq<real>, negate: bool): (r: seq<real>)
    ensures |r| == |vs|
  {
    if negate then seq(|vs|, k requires 0 <= k < |vs| => -vs[k]) else vs
  }

  /** Row i of a valid matrix, as its columns and values, is the slice
      [rowPtr[i], rowPtr[i+1]) of the column and value arrays; negating the
      entries flips the sign of the values only. */
  lemma RowSlices(m: Matrix, n: nat, i: nat, negate: bool)
    requires Valid(m, n) && i < n
    ensures 0 <= m.rowPtr[i] <= m.rowPtr[i + 1] <= |m.colIdx|
    ensures var e := Row(m, n, i);
      var r := if negate then NegateEntries(e) else e;
      && ColsOf(r) == m.colIdx[m.rowPtr[i]..m.rowPtr[i + 1]]
      && ValsOf(r) == Signed(m.vals[m.rowPtr[i]..m.rowPtr[i + 1]], negate)
  {
    RowBounds(m, n, i);
    var lo, hi := m.rowPtr[i], m.rowPtr[i + 1];
    var e := Row(m, n, i);
    var r := if negate then NegateEntries(e) else e;
    var cs, vs := m.colIdx[lo..hi], Signed(m.vals[lo..hi], negate);
    assert |e| == hi - lo && |r| == hi - lo;
    forall k | 0 <= k < hi - lo
      ensures ColsOf(r)[k] == cs[k] && ValsOf(r)[k] == vs[k]
    {
      assert e[k] == Entry(m.colIdx[lo + k], m.vals[lo + k]);
    }
    assert ColsOf(r) == cs;
    assert ValsOf(r) == vs;
  }

  /** The inner copy loop of the interpolation builders: the entries stored
      at [lo, hi) of `src` are written, with negated values when `negate`
      holds, to positions [at, at + hi - lo) of the destination buffers. */
  method AppendEntries(src: Matrix, lo: int, hi: int, negate: bool,
                       dj: array<int>, dd: array<real>, at: int) returns (next: int)
    requires 0 <= lo <= hi <= |src.colIdx| && hi <= |src.vals|
    requires 0 <= at && at + (hi - lo) <= dj.Length && at + (hi - lo) <= dd.Length
    modifies dj, dd
    ensures next == at + (hi - lo)
    ensures dj[..] == Splice(old(dj[..]), at, src.colIdx[lo..hi])
    ensures dd[..] == Splice(old(dd[..]), at, Signed(src.vals[lo..hi], negate))
  {
    ghost var oldCols, oldVals := dj[..], dd[..];
    ghost var cs, vs := src.colIdx[lo..hi], Signed(src.vals[lo..hi], negate);
    next := at;
    var jj := lo;
    while jj < hi
      invariant lo <= jj <= hi && next == at + (jj - lo)
      invariant forall t :: 0 <= t < dj.Length && !(at <= t < next) ==> dj[t] == oldCols[t]
      invariant forall t :: 0 <= t < dd.Length && !(at <= t < next) ==> dd[t] == oldVals[t]
      invariant forall t :: at <= t < next ==> dj[t] == cs[t - at] && dd[t] == vs[t - at]
    {
      dj[next] := src.colIdx[jj];
      dd[next] := if negate then -src.vals[jj] else src.vals[jj];
      next := next + 1;
      jj := jj + 1;
    }
    SplicePointwise(oldCols, at, cs, dj[..]);
    SplicePointwise(oldVals, at, vs, dd[..]);
  }

  /** A buffer that agrees with xs at [at, at + |xs|) and with buf
      elsewhere is buf spliced with xs. */
  lemma SplicePointwise<T>(buf: seq<T>, at: nat, xs: seq<T>, r: seq<T>)
    requires at + |xs| <= |buf| && |r| == |buf|
    requires forall t :: 0 <= t < |r| && !(at <= t < at + |xs|) ==> r[t] == buf[t]
    requires forall t :: at <= t < at + |xs| ==> r[t] == xs[t - at]
    ensures r == Splice(buf, at, xs)
  {
    var sp := Splice(buf, at, xs);
    forall t | 0 <= t < |r|
      ensures r[t] == sp[t]
    {
      if t < at {
        assert sp[t] == buf[t];
      } else if t < at + |xs| {
        assert sp[t] == xs[t - at];
      } else {
        assert sp[t] == buf[t];
      }
    }
  }
}
