/** The index structure of hypre_ParCSRMatrixBlockDiagMatrixHost.

    The rows of A whose marker equals `point_type` (all rows when no
    marker is given) are cut into consecutive blocks of `blk_size` rows,
    the last block holding the `num_left` rows that remain.  The result
    B is block diagonal: row r stores one entry for every column of its
    own block, in increasing order.  Block b of width w starts at entry
    b * blk * blk, and its row k at entry b * blk * blk + k * w.  The
    values come from hypre_ParCSRMatrixExtractBlockDiagHost, which is not
    part of this model; only the row pointer and column indices are. */
module BlockDiag {
  import opened Markers

  /** The row pointer and column indices of a CSR matrix. */
  datatype Pattern = Pattern(rowPtr: seq<int>, colIdx: seq<int>)

  datatype Outcome = Built(pattern: Pattern) | TooSmall

  /** The consecutive integers lo, lo + 1, ..., hi - 1. */
  function Span(lo: int, hi: int): (r: seq<int>)
    requires lo <= hi
    ensures |r| == hi - lo
  {
    seq(hi - lo, k requires 0 <= k < hi - lo => lo + k)
  }

  /** First row of the block holding row r. */
  function BlockLo(blk: int, r: int): int
    requires blk > 0
  {
    (r / blk) * blk
  }

  /** One past the last row of the block holding row r, among `rows`
      rows. */
  function BlockHi(rows: int, blk: int, r: int): int
    requires blk > 0
  {
    if BlockLo(blk, r) + blk <= rows then BlockLo(blk, r) + blk else rows
  }

  /** B is block diagonal over `rows` rows with blocks of `blk` rows: a
      well-formed row pointer, and row r lists the rows of its block. */
  predicate IsBlockDiag(p: Pattern, rows: nat, blk: int)
    requires blk > 0
  {
    && |p.rowPtr| == rows + 1
    && p.rowPtr[0] == 0
    && p.rowPtr[rows] == |p.colIdx|
    && forall r :: 0 <= r < rows ==> RowIsBlock(p, rows, blk, r)
  }

  /** Row r of B lists, in increasing order, the rows of its block. */
  predicate RowIsBlock(p: Pattern, rows: nat, blk: int, r: int)
    requires blk > 0 && |p.rowPtr| == rows + 1 && 0 <= r < rows
  {
    && 0 <= p.rowPtr[r] <= p.rowPtr[r + 1] <= |p.colIdx|
    && BlockLo(blk, r) <= BlockHi(rows, blk, r)
    && p.colIdx[p.rowPtr[r]..p.rowPtr[r + 1]] == Span(BlockLo(blk, r), BlockHi(rows, blk, r))
  }

  /** The number of rows B has: the rows whose marker equals the point
      type, or every row. */
  function RowsOf(n: nat, pointType: int, cf: Option<seq<int>>): nat
  {
    match cf
    case None => n
    case Some(m) => CountTrue(EqualTo(m, pointType))
  }

  /** The number of stored entries: blk * blk per full block and
      num_left * num_left for the rest. */
  function SizeOf(rows: nat, blk: int): int
    requires blk > 0
  {
    blk * (blk * (rows / blk)) + (rows - rows / blk * blk) * (rows - rows / blk * blk)
  }

  // ---------------------------------------------------------------------
  // Positions of the nested loops

  /** Entry j of row k of block b, when the block is w wide. */
  function Slot(blk: int, b: int, w: int, k: int, j: int): int
  {
    b * (blk * blk) + k * w + j
  }

  /** Row k of block b. */
  function RowSlot(blk: int, b: int, k: int): int
  {
    b * blk + k
  }

  /** The first kk rows of block b (of width w) are written: the row
      pointer of row k is Slot(b, w, k, 0), and the entries of the row
      are the columns of the block.  Every slot used lies below the start
      of row kk. */
  predicate RowsFilled(ptr: seq<int>, cols: seq<int>, blk: int, b: int, w: int, kk: int)
  {
    && 0 <= Slot(blk, b, w, 0, 0)
    && Slot(blk, b, w, kk, 0) <= |cols|
    && (forall k :: 0 <= k < kk ==> 0 <= RowSlot(blk, b, k) < |ptr| && ptr[RowSlot(blk, b, k)] == Slot(blk, b, w, k, 0))
    && (forall k, j :: 0 <= k < kk && 0 <= j < w ==>
          Slot(blk, b, w, 0, 0) <= Slot(blk, b, w, k, j) < Slot(blk, b, w, kk, 0) &&
          cols[Slot(blk, b, w, k, j)] == b * blk + j)
  }

  lemma MulLe(a: int, b: int, c: int)
    requires a <= b && 0 <= c
    ensures a * c <= b * c
  {
  }

  /** Row k of a block of width w ends where row k + 1 starts, and rows
      start at or after the start of the block. */
  lemma RowEnd(blk: int, b: int, w: int, k: int)
    requires 0 <= k && 0 <= w
    ensures Slot(blk, b, w, k, w) == Slot(blk, b, w, k + 1, 0)
    ensures Slot(blk, b, w, 0, 0) <= Slot(blk, b, w, k, 0)
  {
    MulLe(0, k, w);
  }

  /** A block of width w takes w * w slots. */
  lemma BlockEnd(blk: int, b: int, w: int)
    ensures Slot(blk, b, w, w, 0) == b * (blk * blk) + w * w
  {
  }

  /** Writes outside the rows and slots that a filled block uses keep it
      filled. */
  lemma FilledKept(ptr: seq<int>, cols: seq<int>, ptr': seq<int>, cols': seq<int>, blk: int, b: int, w: int, p: int, c: int)
    requires 0 <= w && RowsFilled(ptr, cols, blk, b, w, w)
    requires 0 <= p && 0 <= c && RowSlot(blk, b, w) <= p <= |ptr| && Slot(blk, b, w, w, 0) <= c <= |cols|
    requires |ptr'| == |ptr| && |cols'| == |cols| && ptr'[..p] == ptr[..p] && cols'[..c] == cols[..c]
    ensures RowsFilled(ptr', cols', blk, b, w, w)
  {
    forall k, j | 0 <= k < w && 0 <= j < w
      ensures cols'[Slot(blk, b, w, k, j)] == b * blk + j
    {
      assert cols'[..c][Slot(blk, b, w, k, j)] == cols[..c][Slot(blk, b, w, k, j)];
    }
    forall k | 0 <= k < w
      ensures ptr'[RowSlot(blk, b, k)] == Slot(blk, b, w, k, 0)
    {
      assert ptr'[..p][RowSlot(blk, b, k)] == ptr[..p][RowSlot(blk, b, k)];
    }
  }

  // ---------------------------------------------------------------------
  // The loops

  /** Counts the rows whose marker equals the point type. */
  method CountPoints(cf: seq<int>, pointType: int) returns (rows: nat)
    ensures rows == CountTrue(EqualTo(cf, pointType))
  {
    rows := 0;
    var i := 0;
    while i < |cf|
      invariant 0 <= i <= |cf|
      invariant rows == CountBefore(EqualTo(cf, pointType), i)
    {
      rows := rows + if cf[i] == pointType then 1 else 0;
      i := i + 1;
    }
  }

  /** The loops over the w rows of block b and over their w entries: the
      row pointer of row k, then its column indices.  Nothing outside the
      block's rows and slots changes. */
  method FillBlock(ptr: array<int>, cols: array<int>, blk: int, b: int, w: int)
    requires ptr != cols && 0 <= b && 0 <= w
    requires 0 <= RowSlot(blk, b, 0) && RowSlot(blk, b, w) <= ptr.Length
    requires 0 <= Slot(blk, b, w, 0, 0) && Slot(blk, b, w, w, 0) <= cols.Length
    modifies ptr, cols
    ensures RowsFilled(ptr[..], cols[..], blk, b, w, w)
    ensures ptr[..RowSlot(blk, b, 0)] == old(ptr[..RowSlot(blk, b, 0)])
    ensures ptr[RowSlot(blk, b, w)..] == old(ptr[RowSlot(blk, b, w)..])
    ensures cols[..Slot(blk, b, w, 0, 0)] == old(cols[..Slot(blk, b, w, 0, 0)])
    ensures cols[Slot(blk, b, w, w, 0)..] == old(cols[Slot(blk, b, w, w, 0)..])
  {
    var nb2 := blk * blk;
    BlockEnd(blk, b, w);
    var k := 0;
    while k < w
      invariant 0 <= k <= w
      invariant Slot(blk, b, w, k, 0) <= Slot(blk, b, w, w, 0)
      invariant RowsFilled(ptr[..], cols[..], blk, b, w, k)
      invariant ptr[..RowSlot(blk, b, 0)] == old(ptr[..RowSlot(blk, b, 0)])
      invariant ptr[RowSlot(blk, b, w)..] == old(ptr[RowSlot(blk, b, w)..])
      invariant cols[..Slot(blk, b, w, 0, 0)] == old(cols[..Slot(blk, b, w, 0, 0)])
      invariant cols[Slot(blk, b, w, w, 0)..] == old(cols[Slot(blk, b, w, w, 0)..])
    {
      RowEnd(blk, b, w, k);
      RowBelowEnd(blk, b, w, k);
      ptr[b * blk + k] := b * nb2 + k * w;
      FillRow(ptr, cols, blk, b, w, k);
      k := k + 1;
    }
  }

  /** The loop over the w entries of row k of block b. */
  method FillRow(ptr: array<int>, cols: array<int>, blk: int, b: int, w: int, k: int)
    requires ptr != cols && 0 <= k < w
    requires 0 <= RowSlot(blk, b, k) < ptr.Length
    requires RowsFilled(ptr[..], cols[..], blk, b, w, k) && ptr[RowSlot(blk, b, k)] == Slot(blk, b, w, k, 0)
    requires Slot(blk, b, w, 0, 0) <= Slot(blk, b, w, k, 0)
    requires Slot(blk, b, w, k, w) == Slot(blk, b, w, k + 1, 0) <= Slot(blk, b, w, w, 0) <= cols.Length
    modifies cols
    ensures RowsFilled(ptr[..], cols[..], blk, b, w, k + 1)
    ensures cols[..Slot(blk, b, w, 0, 0)] == old(cols[..Slot(blk, b, w, 0, 0)])
    ensures cols[Slot(blk, b, w, w, 0)..] == old(cols[Slot(blk, b, w, w, 0)..])
  {
    var nb2 := blk * blk;
    var j := 0;
    while j < w
      invariant 0 <= j <= w
      invariant RowsFilled(ptr[..], cols[..], blk, b, w, k)
      invariant forall j' :: 0 <= j' < j ==> cols[Slot(blk, b, w, k, j')] == b * blk + j'
      invariant cols[..Slot(blk, b, w, 0, 0)] == old(cols[..Slot(blk, b, w, 0, 0)])
      invariant cols[Slot(blk, b, w, w, 0)..] == old(cols[Slot(blk, b, w, w, 0)..])
    {
      var bidx := b * nb2 + k * w + j;
      cols[bidx] := b * blk + j;
      j := j + 1;
    }
  }

  /** Row k < w of a block starts no later than its last row ends. */
  lemma RowBelowEnd(blk: int, b: int, w: int, k: int)
    requires 0 <= k < w
    ensures Slot(blk, b, w, k + 1, 0) <= Slot(blk, b, w, w, 0)
  {
    MulLe(k + 1, w, w);
  }

  /** Full block i fits below the rows and entries of B. */
  lemma BlockFits(rows: nat, blk: int, i: int)
    requires blk > 0 && 0 <= i < rows / blk
    ensures 0 <= RowSlot(blk, i, 0) && RowSlot(blk, i, blk) <= rows
    ensures 0 <= Slot(blk, i, blk, 0, 0) && Slot(blk, i, blk, blk, 0) <= SizeOf(rows, blk)
  {
    var nb := rows / blk;
    var left := rows - nb * blk;
    MulLe(i + 1, nb, blk);
    MulLe(i + 1, nb, blk * blk);
    MulLe(0, i, blk * blk);
    MulLe(0, i, blk);
    assert blk * (blk * nb) == nb * (blk * blk);
    assert left * left >= 0;
  }

  /** A block before block i uses rows and slots below those of block i. */
  lemma BlockBelow(blk: int, b: int, i: int)
    requires blk > 0 && 0 <= b < i
    ensures RowSlot(blk, b, blk) <= RowSlot(blk, i, 0)
    ensures Slot(blk, b, blk, blk, 0) <= Slot(blk, i, blk, 0, 0)
  {
    MulLe(b + 1, i, blk);
    MulLe(b + 1, i, blk * blk);
  }

  /** The block of the remaining rows fits exactly at the end. */
  lemma LeftFits(rows: nat, blk: int)
    requires blk > 0
    ensures var nb, left := rows / blk, rows - rows / blk * blk;
      && 0 <= left < blk
      && RowSlot(blk, nb, left) == rows
      && 0 <= Slot(blk, nb, left, 0, 0) && Slot(blk, nb, left, left, 0) == SizeOf(rows, blk)
  {
    var nb := rows / blk;
    var left := rows - nb * blk;
    assert blk * (blk * nb) == nb * (blk * blk);
    MulLe(0, nb, blk * blk);
  }

  /** Division by blk recovers the block of c. */
  lemma DivIs(c: int, blk: int, b: int)
    requires blk > 0 && b * blk <= c < b * blk + blk
    ensures c / blk == b && c % blk == c - b * blk
  {
    var q := c / blk;
    assert c == q * blk + c % blk;
    if q > b {
      MulLe(b + 1, q, blk);
    } else if q < b {
      MulLe(q + 1, b, blk);
    }
  }

  /** Where row r sits: row k of block b, whose width is w. */
  lemma RowPlace(rows: nat, blk: int, r: int) returns (b: int, k: int, w: int)
    requires blk > 0 && 0 <= r < rows
    ensures b == r / blk && 0 <= b <= rows / blk && r == RowSlot(blk, b, k) && 0 <= k < w
    ensures w == if b < rows / blk then blk else rows - rows / blk * blk
    ensures BlockLo(blk, r) == b * blk && BlockHi(rows, blk, r) == b * blk + w
  {
    var nb := rows / blk;
    var left := rows - nb * blk;
    b := r / blk;
    k := r - b * blk;
    assert r == b * blk + r % blk;
    if b > nb {
      MulLe(nb + 1, b, blk);
    }
    if b < nb {
      w := blk;
      MulLe(b + 1, nb, blk);
    } else {
      w := left;
    }
  }

  /** The row pointer of row k of a filled block. */
  lemma InRow(ptr: seq<int>, cols: seq<int>, blk: int, b: int, w: int, k: int)
    requires RowsFilled(ptr, cols, blk, b, w, w) && 0 <= k < w
    ensures 0 <= RowSlot(blk, b, k) < |ptr| && ptr[RowSlot(blk, b, k)] == Slot(blk, b, w, k, 0)
  {
  }

  /** The next block starts where a full block ends. */
  lemma NextBlock(blk: int, b: int, w: int)
    ensures RowSlot(blk, b + 1, 0) == RowSlot(blk, b, blk)
    ensures Slot(blk, b + 1, w, 0, 0) == Slot(blk, b, blk, blk, 0)
  {
  }

  /** The row pointers around row r come from the filled blocks. */
  lemma PtrAround(ptr: seq<int>, cols: seq<int>, rows: nat, blk: int, r: int, b: int, k: int, w: int)
    requires blk > 0 && |ptr| == rows + 1 && ptr[rows] == |cols| == SizeOf(rows, blk)
    requires forall b' :: 0 <= b' < rows / blk ==> RowsFilled(ptr, cols, blk, b', blk, blk)
    requires RowsFilled(ptr, cols, blk, rows / blk, rows - rows / blk * blk, rows - rows / blk * blk)
    requires 0 <= r < rows && 0 <= b <= rows / blk && r == RowSlot(blk, b, k) && 0 <= k < w
    requires w == if b < rows / blk then blk else rows - rows / blk * blk
    ensures ptr[r] == Slot(blk, b, w, k, 0) && ptr[r + 1] == Slot(blk, b, w, k, w)
    ensures RowsFilled(ptr, cols, blk, b, w, w)
  {
    var nb := rows / blk;
    var left := rows - nb * blk;
    assert RowsFilled(ptr, cols, blk, b, w, w);
    InRow(ptr, cols, blk, b, w, k);
    RowEnd(blk, b, w, k);
    if k + 1 < w {
      InRow(ptr, cols, blk, b, w, k + 1);
    } else if b + 1 < nb {
      assert RowsFilled(ptr, cols, blk, b + 1, blk, blk);
      InRow(ptr, cols, blk, b + 1, blk, 0);
      NextBlock(blk, b, blk);
    } else if b + 1 == nb {
      NextLeft(ptr, cols, rows, blk, b);
    } else {
      LastRow(ptr, cols, rows, blk, b, k);
    }
  }

  /** After the last full block come the remaining rows, or the end. */
  lemma NextLeft(ptr: seq<int>, cols: seq<int>, rows: nat, blk: int, b: int)
    requires blk > 0 && |ptr| == rows + 1 && ptr[rows] == |cols| == SizeOf(rows, blk)
    requires RowsFilled(ptr, cols, blk, rows / blk, rows - rows / blk * blk, rows - rows / blk * blk)
    requires b + 1 == rows / blk && 0 <= b
    ensures ptr[RowSlot(blk, b, blk)] == Slot(blk, b, blk, blk, 0)
  {
    var nb := rows / blk;
    var left := rows - nb * blk;
    LeftFits(rows, blk);
    NextBlock(blk, b, left);
    if left > 0 {
      InRow(ptr, cols, blk, nb, left, 0);
    }
  }

  /** The last remaining row ends at the end of B. */
  lemma LastRow(ptr: seq<int>, cols: seq<int>, rows: nat, blk: int, b: int, k: int)
    requires blk > 0 && |ptr| == rows + 1 && ptr[rows] == |cols| == SizeOf(rows, blk)
    requires b == rows / blk && k + 1 == rows - rows / blk * blk
    ensures RowSlot(blk, b, k) + 1 == rows
    ensures ptr[rows] == Slot(blk, b, k + 1, k, k + 1)
  {
    LeftFits(rows, blk);
  }

  /** A row of filled blocks is the span of its block. */
  lemma GridRow(ptr: seq<int>, cols: seq<int>, rows: nat, blk: int, r: int)
    requires blk > 0 && |ptr| == rows + 1 && ptr[rows] == |cols| == SizeOf(rows, blk)
    requires forall b' :: 0 <= b' < rows / blk ==> RowsFilled(ptr, cols, blk, b', blk, blk)
    requires RowsFilled(ptr, cols, blk, rows / blk, rows - rows / blk * blk, rows - rows / blk * blk)
    requires 0 <= r < rows
    ensures RowIsBlock(Pattern(ptr, cols), rows, blk, r)
  {
    var b, k, w := RowPlace(rows, blk, r);
    PtrAround(ptr, cols, rows, blk, r, b, k, w);
    var lo := ptr[r];
    RowEnd(blk, b, w, k);
    var row := cols[lo..lo + w];
    forall j | 0 <= j < w
      ensures row[j] == Span(b * blk, b * blk + w)[j]
    {
      assert lo + j == Slot(blk, b, w, k, j);
    }
    assert row == Span(b * blk, b * blk + w);
  }

  /** Filled blocks, full ones and the remaining one, form a block
      diagonal pattern. */
  lemma GridIsBlockDiag(ptr: seq<int>, cols: seq<int>, rows: nat, blk: int)
    requires blk > 0 && |ptr| == rows + 1 && ptr[rows] == |cols| == SizeOf(rows, blk)
    requires forall b' :: 0 <= b' < rows / blk ==> RowsFilled(ptr, cols, blk, b', blk, blk)
    requires RowsFilled(ptr, cols, blk, rows / blk, rows - rows / blk * blk, rows - rows / blk * blk)
    ensures IsBlockDiag(Pattern(ptr, cols), rows, blk)
  {
    if rows > 0 {
      var b, k, w := RowPlace(rows, blk, 0);
      PtrAround(ptr, cols, rows, blk, 0, b, k, w);
    }
    forall r | 0 <= r < rows
      ensures RowIsBlock(Pattern(ptr, cols), rows, blk, r)
    {
      GridRow(ptr, cols, rows, blk, r);
    }
  }

  /** The local part of hypre_ParCSRMatrixBlockDiagMatrixHost: the sanity
      check on the global size, the count of rows, and the row pointer
      and column indices of B.  The row pointer's last entry is set
      first, then each full block and then the remaining rows. */
  method BlockDiagIndices(globalRows: int, n: nat, blk: int, pointType: int, cf: Option<seq<int>>) returns (r: Outcome)
    requires blk > 0
    requires cf.Some? ==> |cf.value| == n
    ensures r.TooSmall? <==> 0 < globalRows < blk
    ensures r.Built? ==> IsBlockDiag(r.pattern, RowsOf(n, pointType, cf), blk)
    ensures r.Built? ==> |r.pattern.colIdx| == SizeOf(RowsOf(n, pointType, cf), blk)
  {
    if 0 < globalRows && globalRows < blk {
      return TooSmall;
    }
    var rows: nat;
    if cf.None? {
      rows := n;
    } else {
      rows := CountPoints(cf.value, pointType);
    }
    var p := BlockDiagPattern(rows, blk);
    r := Built(p);
  }

  /** The row pointer and column indices of B for `rows` rows: the last
      row pointer first, then each full block, then the remaining rows. */
  method BlockDiagPattern(rows: nat, blk: int) returns (p: Pattern)
    requires blk > 0
    ensures IsBlockDiag(p, rows, blk) && |p.colIdx| == SizeOf(rows, blk)
  {
    var numBlocks := rows / blk;
    var numLeft := rows - numBlocks * blk;
    var size := blk * (blk * numBlocks) + numLeft * numLeft;
    LeftFits(rows, blk);
    var ptr := new int[rows + 1](_ => 0);
    var cols := new int[size](_ => 0);
    ptr[rows] := size;
    FullBlocks(ptr, cols, rows, blk);
    ghost var p1, c1 := ptr[..], cols[..];
    FillBlock(ptr, cols, blk, numBlocks, numLeft);
    assert ptr[rows] == ptr[RowSlot(blk, numBlocks, numLeft)..][0];
    forall b | 0 <= b < numBlocks
      ensures RowsFilled(ptr[..], cols[..], blk, b, blk, blk)
    {
      BlockBelow(blk, b, numBlocks);
      FilledKept(p1, c1, ptr[..], cols[..], blk, b, blk, RowSlot(blk, numBlocks, 0), Slot(blk, numBlocks, numLeft, 0, 0));
    }
    GridIsBlockDiag(ptr[..], cols[..], rows, blk);
    p := Pattern(ptr[..], cols[..]);
  }

  /** The loop over the full blocks. */
  method FullBlocks(ptr: array<int>, cols: array<int>, rows: nat, blk: int)
    requires ptr != cols && blk > 0 && ptr.Length == rows + 1 && cols.Length == SizeOf(rows, blk)
    modifies ptr, cols
    ensures forall b :: 0 <= b < rows / blk ==> RowsFilled(ptr[..], cols[..], blk, b, blk, blk)
    ensures ptr[rows] == old(ptr[rows])
  {
    var numBlocks := rows / blk;
    var i := 0;
    while i < numBlocks
      invariant 0 <= i <= numBlocks
      invariant forall b :: 0 <= b < i ==> RowsFilled(ptr[..], cols[..], blk, b, blk, blk)
      invariant ptr[rows] == old(ptr[rows])
    {
      BlockFits(rows, blk, i);
      ghost var p0, c0 := ptr[..], cols[..];
      FillBlock(ptr, cols, blk, i, blk);
      assert ptr[rows] == ptr[RowSlot(blk, i, blk)..][rows - RowSlot(blk, i, blk)];
      forall b | 0 <= b < i
        ensures RowsFilled(ptr[..], cols[..], blk, b, blk, blk)
      {
        BlockBelow(blk, b, i);
        FilledKept(p0, c0, ptr[..], cols[..], blk, b, blk, RowSlot(blk, i, 0), Slot(blk, i, blk, 0, 0));
      }
      i := i + 1;
    }
  }

  /** In a block diagonal pattern, column c is stored in row r exactly
      when c is one of the rows and lies in the block of r. */
  lemma SameBlock(p: Pattern, rows: nat, blk: int, r: int, c: int)
    requires blk > 0 && IsBlockDiag(p, rows, blk) && 0 <= r < rows
    ensures RowIsBlock(p, rows, blk, r)
    ensures c in p.colIdx[p.rowPtr[r]..p.rowPtr[r + 1]] <==> 0 <= c < rows && c / blk == r / blk
  {
    assert RowIsBlock(p, rows, blk, r);
    var b, k, w := RowPlace(rows, blk, r);
    InSpan(b * blk, b * blk + w, c);
    if b * blk <= c < b * blk + w {
      DivIs(c, blk, b);
    }
    DivBounds(c, blk);
  }

  lemma DivBounds(c: int, blk: int)
    requires blk > 0
    ensures (c / blk) * blk <= c < (c / blk) * blk + blk
  {
  }

  lemma InSpan(lo: int, hi: int, c: int)
    requires lo <= hi
    ensures c in Span(lo, hi) <==> lo <= c < hi
  {
    if lo <= c < hi {
      assert Span(lo, hi)[c - lo] == c;
    }
  }
}
