/** Building C/F splittings for the multigrid-reduction (MGR) solver:
    the per-level block markers stored by hypre_MGRSetCpointsByBlock and
    the point marker produced by hypre_MGRCoarsen.  Coarse points carry
    CMRK, fine points FMRK. */
module CfMarker {
  import opened Markers

  /** The marker after the fixed coarse indexes have been forced to CMRK
      and every other point has been reset to FMRK. */
  function Normalised(m: seq<int>, fixed: seq<int>): (r: seq<int>)
  {
    seq(|m|, i requires 0 <= i < |m| => if i in fixed || m[i] == CMRK then CMRK else FMRK)
  }

  /** The first n listed indexes (none when n is not positive). */
  function Listed(idx: seq<int>, n: int): seq<int>
    requires n <= |idx|
  {
    if n <= 0 then [] else idx[..n]
  }

  /** A marker of n points, all fine except the listed ones, which are
      coarse: a buffer set to FMRK, then CMRK stored at each listed index
      (the loops of hypre_MGRSetCpointsByBlock and of the cflag path of
      hypre_MGRCoarsen). */
  method MarkCoarse(n: nat, idx: seq<int>) returns (cf: seq<int>)
    requires forall k :: 0 <= k < |idx| ==> 0 <= idx[k] < n
    ensures |cf| == n
    ensures forall i :: 0 <= i < n ==> cf[i] == (if i in idx then CMRK else FMRK)
  {
    var a := new int[n](_ => FMRK);
    var k := 0;
    while k < |idx|
      invariant 0 <= k <= |idx|
      invariant forall i :: 0 <= i < n ==> a[i] == (if i in idx[..k] then CMRK else FMRK)
    {
      a[idx[k]] := CMRK;
      assert idx[..k + 1] == idx[..k] + [idx[k]];
      k := k + 1;
    }
    assert idx[..|idx|] == idx;
    cf := a[..];
  }

  /** The update that follows the external coarsening: the fixed coarse
      indexes are forced to CMRK, then every point that is not CMRK becomes
      FMRK, whatever kind of F-point the coarsener recorded. */
  method ForceAndNormalise(cf: array<int>, fixed: seq<int>)
    requires forall k :: 0 <= k < |fixed| ==> 0 <= fixed[k] < cf.Length
    modifies cf
    ensures cf[..] == Normalised(old(cf[..]), fixed)
  {
    ghost var m := cf[..];
    var k := 0;
    while k < |fixed|
      invariant 0 <= k <= |fixed|
      invariant forall i :: 0 <= i < cf.Length ==> cf[i] == (if i in fixed[..k] then CMRK else m[i])
    {
      cf[fixed[k]] := CMRK;
      assert fixed[..k + 1] == fixed[..k] + [fixed[k]];
      k := k + 1;
    }
    assert fixed[..|fixed|] == fixed;
    var row := 0;
    while row < cf.Length
      invariant 0 <= row <= cf.Length
      invariant forall i :: 0 <= i < row ==> cf[i] == Normalised(m, fixed)[i]
      invariant forall i :: row <= i < cf.Length ==> cf[i] == (if i in fixed then CMRK else m[i])
    {
      if cf[row] != CMRK {
        cf[row] := FMRK;
      }
      row := row + 1;
    }
  }

  /** hypre_MGRCoarsen on nloc local points.  With cflag set the splitting
      is the fixed coarse set alone; otherwise `coarsened` is the marker the
      external coarsening routine returned, adjusted by ForceAndNormalise. */
  method Coarsen(nloc: nat, fixed: seq<int>, cflag: bool, coarsened: seq<int>) returns (cf: seq<int>)
    requires forall k :: 0 <= k < |fixed| ==> 0 <= fixed[k] < nloc
    requires !cflag ==> |coarsened| == nloc
    ensures |cf| == nloc
    ensures forall i :: 0 <= i < nloc ==>
      cf[i] == (if i in fixed || (!cflag && coarsened[i] == CMRK) then CMRK else FMRK)
  {
    if cflag {
      cf := MarkCoarse(nloc, fixed);
    } else {
      var a := new int[nloc];
      forall i | 0 <= i < nloc {
        a[i] := coarsened[i];
      }
      assert a[..] == coarsened;
      ForceAndNormalise(a, fixed);
      cf := a[..];
    }
  }

  /** Only the two marker values occur after normalisation, the fixed
      indexes are coarse, and normalising again changes nothing. */
  lemma NormalisedProperties(m: seq<int>, fixed: seq<int>)
    ensures forall i :: 0 <= i < |m| ==> Normalised(m, fixed)[i] in {CMRK, FMRK}
    ensures forall k :: 0 <= k < |fixed| && 0 <= fixed[k] < |m| ==> Normalised(m, fixed)[fixed[k]] == CMRK
    ensures Normalised(Normalised(m, fixed), fixed) == Normalised(m, fixed)
  {
  }

  /** The two paths of hypre_MGRCoarsen agree when the external coarsener
      marks no point CMRK: both give exactly the fixed coarse set. */
  lemma {:induction false} CflagMatchesEmptyCoarsening(nloc: nat, fixed: seq<int>, coarsened: seq<int>)
    requires |coarsened| == nloc
    requires forall i :: 0 <= i < nloc ==> coarsened[i] != CMRK
    ensures forall i :: 0 <= i < nloc ==>
      Normalised(coarsened, fixed)[i] == Normalised(seq(nloc, _ => FMRK), fixed)[i]
  {
  }

  /** The block data that hypre_MGRSetCpointsByBlock stores in the MGR
      solver object. */
  class MgrBlockData {
    var blockCfMarker: seq<seq<int>>
    var blockNumCoarseIndexes: seq<int>
    var maxNumCoarseLevels: int
    var blockSize: int
    var setCPointsMethod: int

    /** Level l's block marker has the listed coarse indexes of level l
        set to CMRK and every other block position FMRK.  The per-level
        coarse counts are copied only when there is at least one level
        (an empty sequence stands for the NULL pointer). */
    method SetCpointsByBlock(blockSz: nat, maxNumLevels: nat,
                             blockNumCoarsePoints: seq<int>, blockCoarseIndexes: seq<seq<int>>)
      requires |blockNumCoarsePoints| >= maxNumLevels && |blockCoarseIndexes| >= maxNumLevels
      requires forall l :: 0 <= l < maxNumLevels ==> blockNumCoarsePoints[l] <= |blockCoarseIndexes[l]|
      requires forall l, j :: 0 <= l < maxNumLevels && 0 <= j < blockNumCoarsePoints[l] ==>
        0 <= blockCoarseIndexes[l][j] < blockSz
      modifies this
      ensures |blockCfMarker| == maxNumLevels
      ensures forall l :: 0 <= l < maxNumLevels ==> |blockCfMarker[l]| == blockSz
      ensures forall l, k :: 0 <= l < maxNumLevels && 0 <= k < blockSz ==>
        blockCfMarker[l][k] ==
          (if k in Listed(blockCoarseIndexes[l], blockNumCoarsePoints[l]) then CMRK else FMRK)
      ensures blockNumCoarseIndexes == (if maxNumLevels > 0 then blockNumCoarsePoints[..maxNumLevels] else [])
      ensures maxNumCoarseLevels == maxNumLevels && blockSize == blockSz && setCPointsMethod == 0
    {
      var markers: seq<seq<int>> := [];
      var l := 0;
      while l < maxNumLevels
        invariant 0 <= l <= maxNumLevels
        invariant |markers| == l
        invariant forall p :: 0 <= p < l ==> |markers[p]| == blockSz
        invariant forall p, k :: 0 <= p < l && 0 <= k < blockSz ==>
          markers[p][k] == (if k in Listed(blockCoarseIndexes[p], blockNumCoarsePoints[p]) then CMRK else FMRK)
      {
        var level := MarkCoarse(blockSz, Listed(blockCoarseIndexes[l], blockNumCoarsePoints[l]));
        markers := markers + [level];
        l := l + 1;
      }
      var counts: seq<int> := [];
      if maxNumLevels > 0 {
        counts := blockNumCoarsePoints[..maxNumLevels];
      }
      maxNumCoarseLevels := maxNumLevels;
      blockSize := blockSz;
      blockNumCoarseIndexes := counts;
      blockCfMarker := markers;
      setCPointsMethod := 0;
    }
  }
}
