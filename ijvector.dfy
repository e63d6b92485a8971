/** The local-component operations of an IJ vector stored as a ParVector
    (IJ_matrix_vector/hypre_IJVector_parcsr.c).

    The process `myId` of `numProcs` owns the global indices
    [vec_start, vec_stop) with vec_start = partitioning[myId] and
    vec_stop = partitioning[myId + 1]; its values live in the local data
    buffer, global index g at position g - vec_start.  Every operation
    counts errors in `ierr` and touches the buffer only when the count is
    zero.  The range checks are modelled as written (see CheckErrors and
    BlockWrites for what that implies). */
module IJVector {
  import opened Markers

  // ---------------------------------------------------------------------
  // Writing, accumulating and reading a buffer along a list of positions

  /** Every position lies inside a buffer of length len. */
  predicate WritesOk(t: seq<int>, len: int)
  {
    forall j :: 0 <= j < |t| ==> 0 <= t[j] < len
  }

  /** The buffer after the loop `d[t[j]] = v[j]` for j = 0, 1, ... */
  function Assigned(d: seq<real>, t: seq<int>, v: seq<real>): (r: seq<real>)
    requires |v| == |t| && WritesOk(t, |d|)
    ensures |r| == |d|
    decreases |t|
  {
    if |t| == 0 then d
    else Assigned(d, t[..|t| - 1], v[..|v| - 1])[t[|t| - 1] := v[|v| - 1]]
  }

  /** The buffer after the loop `d[t[j]] += v[j]` for j = 0, 1, ... */
  function Accumulated(d: seq<real>, t: seq<int>, v: seq<real>): (r: seq<real>)
    requires |v| == |t| && WritesOk(t, |d|)
    ensures |r| == |d|
    decreases |t|
  {
    if |t| == 0 then d
    else
      var prev := Accumulated(d, t[..|t| - 1], v[..|v| - 1]);
      prev[t[|t| - 1] := prev[t[|t| - 1]] + v[|v| - 1]]
  }

  /** The values at the listed positions of a buffer. */
  function ReadAt(d: seq<real>, t: seq<int>): (r: seq<real>)
    requires WritesOk(t, |d|)
    ensures |r| == |t|
  {
    seq(|t|, j requires 0 <= j < |t| => d[t[j]])
  }

  /** The last place in the list that names position k, or -1. */
  function LastWrite(t: seq<int>, k: int): (r: int)
    ensures -1 <= r < |t|
    ensures r >= 0 ==> t[r] == k
    ensures forall j :: r < j < |t| ==> t[j] != k
  {
    if |t| == 0 then -1
    else if t[|t| - 1] == k then |t| - 1
    else LastWrite(t[..|t| - 1], k)
  }

  /** The sum of the values the list addresses to position k. */
  function AddressedTo(t: seq<int>, v: seq<real>, k: int): real
    requires |v| == |t|
  {
    if |t| == 0 then 0.0
    else AddressedTo(t[..|t| - 1], v[..|v| - 1], k) + (if t[|t| - 1] == k then v[|v| - 1] else 0.0)
  }

  lemma WritesOkFront(t: seq<int>, len: int)
    requires |t| > 0 && WritesOk(t, len)
    ensures WritesOk(t[..|t| - 1], len)
  {
  }

  /** After the writes, position k holds the value of the last write to
      it, or its old value when nothing was written there. */
  lemma {:induction false} AssignedAt(d: seq<real>, t: seq<int>, v: seq<real>, k: int)
    requires |v| == |t| && WritesOk(t, |d|) && 0 <= k < |d|
    ensures Assigned(d, t, v)[k] == if LastWrite(t, k) >= 0 then v[LastWrite(t, k)] else d[k]
    decreases |t|
  {
    if |t| > 0 {
      WritesOkFront(t, |d|);
      AssignedAt(d, t[..|t| - 1], v[..|v| - 1], k);
    }
  }

  /** After the accumulation, position k has gained exactly the values
      addressed to it. */
  lemma {:induction false} AccumulatedAt(d: seq<real>, t: seq<int>, v: seq<real>, k: int)
    requires |v| == |t| && WritesOk(t, |d|) && 0 <= k < |d|
    ensures Accumulated(d, t, v)[k] == d[k] + AddressedTo(t, v, k)
    decreases |t|
  {
    if |t| > 0 {
      WritesOkFront(t, |d|);
      AccumulatedAt(d, t[..|t| - 1], v[..|v| - 1], k);
    }
  }

  predicate Distinct(t: seq<int>)
  {
    forall i, j :: 0 <= i < j < |t| ==> t[i] != t[j]
  }

  /** Reading back positions just written, each named once, gives the
      values written. */
  lemma SetThenGet(d: seq<real>, t: seq<int>, v: seq<real>)
    requires |v| == |t| && WritesOk(t, |d|) && Distinct(t)
    ensures ReadAt(Assigned(d, t, v), t) == v
  {
    forall j | 0 <= j < |t|
      ensures Assigned(d, t, v)[t[j]] == v[j]
    {
      AssignedAt(d, t, v, t[j]);
    }
  }

  /** The loop `a[t[j]] = v[j]`. */
  method AssignLoop(a: array<real>, t: seq<int>, v: seq<real>)
    requires |v| == |t| && WritesOk(t, a.Length)
    modifies a
    ensures a[..] == Assigned(old(a[..]), t, v)
  {
    var j := 0;
    while j < |t|
      invariant 0 <= j <= |t|
      invariant a[..] == Assigned(old(a[..]), t[..j], v[..j])
    {
      assert t[..j + 1][..j] == t[..j] && v[..j + 1][..j] == v[..j];
      a[t[j]] := v[j];
      j := j + 1;
    }
    assert t[..j] == t && v[..j] == v;
  }

  /** The loop `a[t[j]] += v[j]`. */
  method AccumulateLoop(a: array<real>, t: seq<int>, v: seq<real>)
    requires |v| == |t| && WritesOk(t, a.Length)
    modifies a
    ensures a[..] == Accumulated(old(a[..]), t, v)
  {
    var j := 0;
    while j < |t|
      invariant 0 <= j <= |t|
      invariant a[..] == Accumulated(old(a[..]), t[..j], v[..j])
    {
      assert t[..j + 1][..j] == t[..j] && v[..j + 1][..j] == v[..j];
      a[t[j]] := a[t[j]] + v[j];
      j := j + 1;
    }
    assert t[..j] == t && v[..j] == v;
  }

  // ---------------------------------------------------------------------
  // Error counts

  /** The range check of the non-block operations as written: one error
      for each index >= vec_start and one for each index < vec_stop.  For
      a non-empty range every index, inside the range or not, adds at
      least one. */
  function CheckErrors(idx: seq<int>, n: nat, start: int, stop: int): (r: nat)
    requires n <= |idx|
    ensures start <= stop && n > 0 ==> r > 0
  {
    if n == 0 then 0
    else CheckErrors(idx, n - 1, start, stop) + (if idx[n - 1] >= start then 1 else 0) + (if idx[n - 1] < stop then 1 else 0)
  }

  /** The check the comment above it describes: one error for each index
      outside [vec_start, vec_stop). */
  function OutOfRange(idx: seq<int>, n: nat, start: int, stop: int): nat
    requires n <= |idx|
  {
    if n == 0 then 0
    else OutOfRange(idx, n - 1, start, stop) + (if start <= idx[n - 1] < stop then 0 else 1)
  }

  /** The intended check passes exactly when every index is local. */
  lemma {:induction false} OutOfRangeZero(idx: seq<int>, n: nat, start: int, stop: int)
    requires n <= |idx|
    ensures OutOfRange(idx, n, start, stop) == 0 <==> forall j :: 0 <= j < n ==> start <= idx[j] < stop
  {
    if n > 0 {
      OutOfRangeZero(idx, n - 1, start, stop);
    }
  }

  /** A local index is rejected by the check as written and accepted by
      the intended one. */
  lemma LocalIndexRejected(start: int)
    ensures CheckErrors([start], 1, start, start + 1) == 2
    ensures OutOfRange([start], 1, start, start + 1) == 0
  {
  }

  /** The check as written passes exactly when every index lies in
      [vec_stop, vec_start): never for a non-empty list over an
      increasing range, but for some lists over a decreasing one. */
  lemma {:induction false} CheckErrorsZero(idx: seq<int>, n: nat, start: int, stop: int)
    requires n <= |idx|
    ensures CheckErrors(idx, n, start, stop) == 0 <==> forall j :: 0 <= j < n ==> stop <= idx[j] < start
  {
    if n > 0 {
      CheckErrorsZero(idx, n - 1, start, stop);
    }
  }

  /** On a decreasing range an index in [vec_stop, vec_start) passes the
      check as written, and its position glob - vec_start lies below the
      buffer. */
  lemma DecreasingRangeAccepted(start: int, stop: int, k: int)
    requires stop <= k < start
    ensures ErrorsOf(Some([k]), 1, start, stop) == 0
    ensures Targets(Some([k]), 1, start)[0] < 0
  {
    CheckErrorsZero([k], 1, start, stop);
  }

  /** The check loop of the non-block operations. */
  method CheckLoop(idx: seq<int>, n: nat, start: int, stop: int) returns (ierr: nat)
    requires n <= |idx|
    ensures ierr == CheckErrors(idx, n, start, stop)
  {
    ierr := 0;
    var i := 0;
    while i < n
      invariant 0 <= i <= n
      invariant ierr == CheckErrors(idx, i, start, stop)
    {
      ierr := ierr + if idx[i] >= start then 1 else 0;
      ierr := ierr + if idx[i] < stop then 1 else 0;
      i := i + 1;
    }
  }

  /** The errors of a non-block operation: the range check when a list
      of global indices is given, none otherwise. */
  function ErrorsOf(glob: Option<seq<int>>, n: nat, start: int, stop: int): nat
    requires glob.Some? ==> n <= |glob.value|
  {
    match glob
    case Some(g) => CheckErrors(g, n, start, stop)
    case None => 0
  }

  /** The range check of the block operations, with local_n = vec_stop -
      vec_start: it passes exactly when 0 <= local_start <= local_stop <
      local_n. */
  function BlockErrors(localStart: int, localStop: int, localN: int): (r: nat)
    ensures r == 0 <==> 0 <= localStart <= localStop < localN
    ensures r <= 3
  {
    (if localStart > localStop then 1 else 0)
    + (if localStart < 0 || localStart >= localN then 1 else 0)
    + (if localStop >= localN then 1 else 0)
  }

  // ---------------------------------------------------------------------
  // Positions and values of the non-block operations

  /** The buffer positions the j-th value goes to: glob[j] - vec_start,
      or j when no global indices are given. */
  function Targets(glob: Option<seq<int>>, n: nat, start: int): (r: seq<int>)
    requires glob.Some? ==> n <= |glob.value|
    ensures |r| == n
  {
    match glob
    case Some(g) => seq(n, j requires 0 <= j < n => g[j] - start)
    case None => seq(n, j requires 0 <= j < n => j)
  }

  /** The positions 0, 1, ..., n - 1. */
  function FromZero(n: nat): (r: seq<int>)
    ensures |r| == n && WritesOk(r, n)
  {
    seq(n, j requires 0 <= j < n => j)
  }

  /** The user values may be read as the operation reads them. */
  predicate ReadsOk(values: seq<real>, vi: Option<seq<int>>, n: nat)
  {
    match vi
    case None => n <= |values|
    case Some(v) => n <= |v| && forall j :: 0 <= j < n ==> 0 <= v[j] < |values|
  }

  /** The j-th value used: values[j], or values[value_indices[j]]. */
  function Picked(values: seq<real>, vi: Option<seq<int>>, n: nat): (r: seq<real>)
    requires ReadsOk(values, vi, n)
    ensures |r| == n
  {
    match vi
    case None => values[..n]
    case Some(v) => seq(n, j requires 0 <= j < n => values[v[j]])
  }

  /** The places in the user array a Get fills: j, or value_indices[j]. */
  function OutTargets(vi: Option<seq<int>>, n: nat): (r: seq<int>)
    requires vi.Some? ==> n <= |vi.value|
    ensures |r| == n
  {
    match vi
    case None => FromZero(n)
    case Some(v) => v[..n]
  }

  // ---------------------------------------------------------------------
  // The IJ vector

  class IJVectorPar {
    const numProcs: nat
    const myId: nat
    /** The ParVector's partitioning; null when none was set. */
    var partitioning: array?<int>
    /** The data buffer of the local vector. */
    var data: array<real>

    predicate Valid()
      reads this, partitioning
    {
      myId < numProcs && (partitioning != null ==> partitioning.Length == numProcs + 1)
    }

    function Start(): int
      reads this, partitioning
      requires Valid() && partitioning != null
    {
      partitioning[myId]
    }

    function Stop(): int
      reads this, partitioning
      requires Valid() && partitioning != null
    {
      partitioning[myId + 1]
    }

    /** The vector as hypre_NewIJVectorPar leaves it: the given
        partitioning (or none) and an empty local buffer. */
    constructor(numProcs: nat, myId: nat, part: Option<seq<int>>)
      requires myId < numProcs
      requires part.Some? ==> |part.value| == numProcs + 1
      ensures Valid() && this.numProcs == numProcs && this.myId == myId
      ensures part.None? ==> partitioning == null
      ensures part.Some? ==> partitioning != null && partitioning[..] == part.value
      ensures data.Length == 0
    {
      this.numProcs := numProcs;
      this.myId := myId;
      data := new real[0];
      if part.Some? {
        var p := new int[numProcs + 1](i requires 0 <= i < numProcs + 1 => part.value[i]);
        partitioning := p;
      } else {
        partitioning := null;
      }
    }

    /** hypre_SetIJVectorParLocalPartitioning: rejects vec_start >
        vec_stop; otherwise records [vec_start, vec_stop + 1) as this
        process's range, allocating a zeroed partitioning first when
        there is none.  That allocation has num_procs + 1 entries, where
        the code allocates num_procs (see AllocationTooShort), so both
        writes fit on every process (PartitionWritesFit). */
    method SetLocalPartitioning(vecStart: int, vecStop: int) returns (ierr: int)
      requires Valid()
      modifies this, partitioning
      ensures Valid() && data == old(data)
      ensures vecStart > vecStop ==> ierr == 1 && partitioning == old(partitioning)
      ensures vecStart > vecStop && partitioning != null ==> partitioning[..] == old(partitioning[..])
      ensures vecStart <= vecStop ==> ierr == 0 && partitioning != null
      ensures vecStart <= vecStop ==> PartitionWritesFit(partitioning.Length, myId)
      ensures vecStart <= vecStop && old(partitioning) != null ==>
        partitioning == old(partitioning) &&
        partitioning[..] == old(partitioning[..])[myId := vecStart][myId + 1 := vecStop + 1]
      ensures vecStart <= vecStop && old(partitioning) == null ==>
        fresh(partitioning) && partitioning.Length == numProcs + 1 &&
        partitioning[..] == seq(numProcs + 1, i requires 0 <= i <= numProcs => 0)[myId := vecStart][myId + 1 := vecStop + 1]
    {
      ierr := 0;
      if vecStart > vecStop {
        ierr := ierr + 1;
      }
      if ierr == 0 {
        if partitioning == null {
          partitioning := new int[numProcs + 1](_ => 0);
        }
        AllocationFits(numProcs, myId);
        partitioning[myId] := vecStart;
        partitioning[myId + 1] := vecStop + 1;
      }
    }

    /** hypre_InitializeIJVectorPar: without a partitioning an error;
        otherwise the local buffer gets the size vec_stop - vec_start. */
    method Initialize() returns (ierr: int)
      requires Valid()
      requires partitioning != null ==> partitioning[myId] <= partitioning[myId + 1]
      modifies this
      ensures Valid() && partitioning == old(partitioning)
      ensures partitioning == null ==> ierr == 1 && data == old(data)
      ensures partitioning != null ==>
        ierr == 0 && fresh(data) && data.Length == Stop() - Start() &&
        forall i :: 0 <= i < data.Length ==> data[i] == 0.0
    {
      ierr := 0;
      if partitioning != null {
        var size := partitioning[myId + 1] - partitioning[myId];
        data := new real[size](_ => 0.0);
      } else {
        ierr := ierr + 1;
      }
    }

    /** hypre_ZeroIJVectorParLocalComponents: with a valid range, the
        first vec_stop - vec_start positions of the buffer become 0 and
        the rest stay. */
    method Zero() returns (ierr: int)
      requires Valid() && partitioning != null
      requires Start() <= Stop() ==> Stop() - Start() <= data.Length
      modifies data
      ensures ierr == if Start() > Stop() then 1 else 0
      ensures ierr == 0 ==>
        var n := Stop() - Start();
        data[..] == seq(n, i requires 0 <= i < n => 0.0) + old(data[..])[n..]
      ensures ierr != 0 ==> data[..] == old(data[..])
    {
      ierr := 0;
      var vecStart := partitioning[myId];
      var vecStop := partitioning[myId + 1];
      if vecStart > vecStop {
        ierr := ierr + 1;
      }
      if ierr == 0 {
        var i := 0;
        while i < vecStop - vecStart
          invariant 0 <= i <= vecStop - vecStart
          invariant forall k :: 0 <= k < i ==> data[k] == 0.0
          invariant forall k :: i <= k < data.Length ==> data[k] == old(data[k])
        {
          data[i] := 0.0;
          i := i + 1;
        }
        assert data[..] == seq(vecStop - vecStart, i requires 0 <= i < vecStop - vecStart => 0.0) + old(data[..])[vecStop - vecStart..];
      }
    }

    /** hypre_SetIJVectorParLocalComponents: after the range check, the
        j-th value goes to position glob[j] - vec_start (or j). */
    method Set(numValues: nat, glob: Option<seq<int>>, vi: Option<seq<int>>, values: seq<real>) returns (ierr: nat)
      requires Valid() && partitioning != null
      requires glob.Some? ==> numValues <= |glob.value|
      requires glob.None? ==> numValues == 0
      requires ErrorsOf(glob, numValues, Start(), Stop()) == 0 ==>
        ReadsOk(values, vi, numValues) && WritesOk(Targets(glob, numValues, Start()), data.Length)
      modifies data
      ensures ierr == ErrorsOf(glob, numValues, Start(), Stop())
      ensures ierr == 0 ==>
        data[..] == Assigned(old(data[..]), Targets(glob, numValues, Start()), Picked(values, vi, numValues))
      ensures ierr != 0 ==> data[..] == old(data[..])
    {
      var vecStart := partitioning[myId];
      var vecStop := partitioning[myId + 1];
      ierr := 0;
      if glob.Some? {
        ierr := CheckLoop(glob.value, numValues, vecStart, vecStop);
      }
      if ierr == 0 {
        AssignLoop(data, Targets(glob, numValues, vecStart), Picked(values, vi, numValues));
      }
    }

    /** hypre_AddToIJVectorParLocalComponents: as Set, adding instead of
        overwriting. */
    method AddTo(numValues: nat, glob: Option<seq<int>>, vi: Option<seq<int>>, values: seq<real>) returns (ierr: nat)
      requires Valid() && partitioning != null
      requires glob.Some? ==> numValues <= |glob.value|
      requires glob.None? ==> numValues == 0
      requires ErrorsOf(glob, numValues, Start(), Stop()) == 0 ==>
        ReadsOk(values, vi, numValues) && WritesOk(Targets(glob, numValues, Start()), data.Length)
      modifies data
      ensures ierr == ErrorsOf(glob, numValues, Start(), Stop())
      ensures ierr == 0 ==>
        data[..] == Accumulated(old(data[..]), Targets(glob, numValues, Start()), Picked(values, vi, numValues))
      ensures ierr != 0 ==> data[..] == old(data[..])
    {
      var vecStart := partitioning[myId];
      var vecStop := partitioning[myId + 1];
      ierr := 0;
      if glob.Some? {
        ierr := CheckLoop(glob.value, numValues, vecStart, vecStop);
      }
      if ierr == 0 {
        AccumulateLoop(data, Targets(glob, numValues, vecStart), Picked(values, vi, numValues));
      }
    }

    /** hypre_GetIJVectorParLocalComponents: after the range check, the
        value at position glob[j] - vec_start (or j) goes to values[j]
        (or values[value_indices[j]]); the buffer is only read. */
    method Get(numValues: nat, glob: Option<seq<int>>, vi: Option<seq<int>>, values: array<real>) returns (ierr: nat)
      requires Valid() && partitioning != null && values != data
      requires glob.Some? ==> numValues <= |glob.value|
      requires glob.None? ==> numValues == 0
      requires ErrorsOf(glob, numValues, Start(), Stop()) == 0 ==>
        WritesOk(Targets(glob, numValues, Start()), data.Length) &&
        (vi.Some? ==> numValues <= |vi.value|) && WritesOk(OutTargets(vi, numValues), values.Length)
      modifies values
      ensures ierr == ErrorsOf(glob, numValues, Start(), Stop())
      ensures ierr == 0 ==>
        values[..] == Assigned(old(values[..]), OutTargets(vi, numValues), ReadAt(data[..], Targets(glob, numValues, Start())))
      ensures ierr != 0 ==> values[..] == old(values[..])
    {
      var vecStart := partitioning[myId];
      var vecStop := partitioning[myId + 1];
      ierr := 0;
      if glob.Some? {
        ierr := CheckLoop(glob.value, numValues, vecStart, vecStop);
      }
      if ierr == 0 {
        AssignLoop(values, OutTargets(vi, numValues), ReadAt(data[..], Targets(glob, numValues, vecStart)));
      }
    }

    /** hypre_SetIJVectorParLocalComponentsInBlock: after the block check
        on local_start = glob_start - vec_start and local_stop = glob_stop
        - vec_start, the local_stop - local_start + 1 values go to the
        buffer positions 0, 1, ... (from position 0, as written). */
    method SetInBlock(globStart: int, globStop: int, vi: Option<seq<int>>, values: seq<real>) returns (ierr: nat)
      requires Valid() && partitioning != null
      requires BlockErrors(globStart - Start(), globStop - Start(), Stop() - Start()) == 0 ==>
        globStop - globStart + 1 <= data.Length && ReadsOk(values, vi, globStop - globStart + 1)
      modifies data
      ensures ierr == BlockErrors(globStart - Start(), globStop - Start(), Stop() - Start())
      ensures ierr == 0 ==>
        data[..] == Assigned(old(data[..]), FromZero(globStop - globStart + 1), Picked(values, vi, globStop - globStart + 1))
      ensures ierr != 0 ==> data[..] == old(data[..])
    {
      var vecStart := partitioning[myId];
      var vecStop := partitioning[myId + 1];
      var localN := vecStop - vecStart;
      var localStart := globStart - vecStart;
      var localStop := globStop - vecStart;
      ierr := BlockCheck(localStart, localStop, localN);
      if ierr == 0 {
        var count := localStop - localStart + 1;
        AssignLoop(data, FromZero(count), Picked(values, vi, count));
      }
    }

    /** hypre_AddToIJVectorParLocalComponentsInBlock: as SetInBlock,
        adding instead of overwriting. */
    method AddToInBlock(globStart: int, globStop: int, vi: Option<seq<int>>, values: seq<real>) returns (ierr: nat)
      requires Valid() && partitioning != null
      requires BlockErrors(globStart - Start(), globStop - Start(), Stop() - Start()) == 0 ==>
        globStop - globStart + 1 <= data.Length && ReadsOk(values, vi, globStop - globStart + 1)
      modifies data
      ensures ierr == BlockErrors(globStart - Start(), globStop - Start(), Stop() - Start())
      ensures ierr == 0 ==>
        data[..] == Accumulated(old(data[..]), FromZero(globStop - globStart + 1), Picked(values, vi, globStop - globStart + 1))
      ensures ierr != 0 ==> data[..] == old(data[..])
    {
      var vecStart := partitioning[myId];
      var vecStop := partitioning[myId + 1];
      var localN := vecStop - vecStart;
      var localStart := globStart - vecStart;
      var localStop := globStop - vecStart;
      ierr := BlockCheck(localStart, localStop, localN);
      if ierr == 0 {
        var count := localStop - localStart + 1;
        AccumulateLoop(data, FromZero(count), Picked(values, vi, count));
      }
    }

    /** hypre_GetIJVectorParLocalComponentsInBlock: after the block
        check, buffer position i goes to values[i] (or
        values[value_indices[i]]) for i = 0, ..., local_stop -
        local_start. */
    method GetInBlock(globStart: int, globStop: int, vi: Option<seq<int>>, values: array<real>) returns (ierr: nat)
      requires Valid() && partitioning != null && values != data
      requires BlockErrors(globStart - Start(), globStop - Start(), Stop() - Start()) == 0 ==>
        globStop - globStart + 1 <= data.Length &&
        (vi.Some? ==> globStop - globStart + 1 <= |vi.value|) &&
        WritesOk(OutTargets(vi, globStop - globStart + 1), values.Length)
      modifies values
      ensures ierr == BlockErrors(globStart - Start(), globStop - Start(), Stop() - Start())
      ensures ierr == 0 ==>
        values[..] == Assigned(old(values[..]), OutTargets(vi, globStop - globStart + 1),
                               ReadAt(data[..], FromZero(globStop - globStart + 1)))
      ensures ierr != 0 ==> values[..] == old(values[..])
    {
      var vecStart := partitioning[myId];
      var vecStop := partitioning[myId + 1];
      var localN := vecStop - vecStart;
      var localStart := globStart - vecStart;
      var localStop := globStop - vecStart;
      ierr := BlockCheck(localStart, localStop, localN);
      if ierr == 0 {
        var count := localStop - localStart + 1;
        assert WritesOk(FromZero(count), data.Length);
        AssignLoop(values, OutTargets(vi, count), ReadAt(data[..], FromZero(count)));
      }
    }
  }

  /** The three tests of the block operations. */
  method BlockCheck(localStart: int, localStop: int, localN: int) returns (ierr: nat)
    ensures ierr == BlockErrors(localStart, localStop, localN)
  {
    ierr := 0;
    if localStart > localStop {
      ierr := ierr + 1;
    }
    if localStart < 0 || localStart >= localN {
      ierr := ierr + 1;
    }
    if localStop >= localN {
      ierr := ierr + 1;
    }
  }

  // ---------------------------------------------------------------------
  // The block operations' positions

  /** The positions the block operations evidently mean: local_start,
      ..., local_stop. */
  function BlockPositions(localStart: int, localStop: int): (r: seq<int>)
    requires localStart <= localStop + 1
    ensures |r| == localStop - localStart + 1
  {
    seq(localStop - localStart + 1, i requires 0 <= i < localStop - localStart + 1 => localStart + i)
  }

  /** A block that passes the check names the local positions of the
      global indices glob_start, ..., glob_stop, once each and all inside
      the local range. */
  lemma BlockPositionsSpec(globStart: int, globStop: int, start: int, stop: int)
    requires BlockErrors(globStart - start, globStop - start, stop - start) == 0
    ensures var p := BlockPositions(globStart - start, globStop - start);
      && WritesOk(p, stop - start) && Distinct(p)
      && forall i :: 0 <= i < |p| ==> p[i] + start == globStart + i
  {
  }

  /** The block writes as written go to positions 0, ... and miss the
      requested positions whenever local_start > 0: the block [1, 1] of a
      process owning [0, 2) writes position 0, not 1. */
  lemma BlockWrites(d0: real, d1: real, v: real)
    ensures BlockErrors(1, 1, 2) == 0
    ensures Assigned([d0, d1], FromZero(1), [v]) == [v, d1]
    ensures Assigned([d0, d1], BlockPositions(1, 1), [v]) == [d0, v]
  {
    assert FromZero(1) == [0];
    assert BlockPositions(1, 1) == [1];
  }

  // ---------------------------------------------------------------------
  // The partitioning allocation

  /** Both writes of SetLocalPartitioning fall inside an allocation of
      `len` entries. */
  predicate PartitionWritesFit(len: int, myId: int)
  {
    0 <= myId && myId + 1 < len
  }

  /** As written, the allocation has num_procs entries, and the last
      process writes one past its end. */
  lemma AllocationTooShort(numProcs: nat)
    requires numProcs > 0
    ensures !PartitionWritesFit(numProcs, numProcs - 1)
  {
  }

  /** With num_procs + 1 entries (what SetLocalPartitioning uses here),
      every process's writes fit. */
  lemma AllocationFits(numProcs: nat, myId: nat)
    requires myId < numProcs
    ensures PartitionWritesFit(numProcs + 1, myId)
  {
  }
}
