/** hypre_MGRAddVectorP and hypre_MGRAddVectorR: the marker-driven
    transfer between a vector over all points and a vector over the
    points of one type.  Position i of the long vector whose marker
    equals `point_type` corresponds to position Rank(i) of the short
    one: P scatters the short vector into the long one, R gathers the
    long one into the short one, each as to = b * to + a * from. */
module MgrVectors {
  import opened Markers

  /** The long vector t after P: a selected position i becomes
      b * t[i] + a * x[Rank(i)], every other position keeps t[i]. */
  function Scattered(t: seq<real>, cf: seq<int>, pt: int, a: real, x: seq<real>, b: real): (r: seq<real>)
    requires |cf| <= |t| && CountTrue(EqualTo(cf, pt)) <= |x|
    ensures |r| == |t|
  {
    seq(|t|, i requires 0 <= i < |t| =>
      if i < |cf| && cf[i] == pt then
        RankBelowCount(EqualTo(cf, pt), i);
        b * t[i] + a * x[Rank(EqualTo(cf, pt), i)]
      else t[i])
  }

  /** The short vector t after R: its position j, one of the first
      CountTrue positions, becomes b * t[j] + a * x[Indices[j]], where
      Indices[j] is the selected position of rank j; the other positions
      keep their values. */
  function Gathered(t: seq<real>, cf: seq<int>, pt: int, a: real, x: seq<real>, b: real): (r: seq<real>)
    requires |cf| <= |x| && CountTrue(EqualTo(cf, pt)) <= |t|
    ensures |r| == |t|
  {
    IndicesSpec(EqualTo(cf, pt));
    seq(|t|, j requires 0 <= j < |t| =>
      if j < CountTrue(EqualTo(cf, pt)) then b * t[j] + a * x[Indices(EqualTo(cf, pt))[j]] else t[j])
  }

  /** hypre_MGRAddVectorP: the loop over the marker with a running count
      of the selected positions seen. */
  method AddVectorP(cf: seq<int>, pt: int, a: real, from: seq<real>, b: real, to: array<real>)
    requires |cf| <= to.Length && CountTrue(EqualTo(cf, pt)) <= |from|
    modifies to
    ensures to[..] == Scattered(old(to[..]), cf, pt, a, from, b)
  {
    ghost var sel := EqualTo(cf, pt);
    ghost var t := to[..];
    var j := 0;
    var i := 0;
    while i < |cf|
      invariant 0 <= i <= |cf|
      invariant j == Rank(sel, i)
      invariant forall k :: 0 <= k < i ==> to[k] == Scattered(t, cf, pt, a, from, b)[k]
      invariant forall k :: i <= k < to.Length ==> to[k] == t[k]
    {
      if cf[i] == pt {
        RankBelowCount(sel, i);
        to[i] := b * to[i] + a * from[j];
        j := j + 1;
      }
      i := i + 1;
    }
  }

  /** hypre_MGRAddVectorR: the same loop, writing the short vector. */
  method AddVectorR(cf: seq<int>, pt: int, a: real, from: seq<real>, b: real, to: array<real>)
    requires |cf| <= |from| && CountTrue(EqualTo(cf, pt)) <= to.Length
    modifies to
    ensures to[..] == Gathered(old(to[..]), cf, pt, a, from, b)
  {
    ghost var sel := EqualTo(cf, pt);
    ghost var t := to[..];
    var j := 0;
    var i := 0;
    while i < |cf|
      invariant 0 <= i <= |cf|
      invariant j == Rank(sel, i)
      invariant forall k :: 0 <= k < j ==> to[k] == Gathered(t, cf, pt, a, from, b)[k]
      invariant forall k :: j <= k < to.Length ==> to[k] == t[k]
    {
      if cf[i] == pt {
        RankBelowCount(sel, i);
        IndexOfRank(sel, i);
        to[j] := b * to[j] + a * from[i];
        j := j + 1;
      }
      i := i + 1;
    }
    forall k | j <= k < to.Length
      ensures to[k] == Gathered(t, cf, pt, a, from, b)[k]
    {
    }
  }

  /** Gathering with R what P scattered (a = 1, b = 0 both times) gives
      the short vector back. */
  lemma GatherScatter(t: seq<real>, u: seq<real>, cf: seq<int>, pt: int, x: seq<real>)
    requires |cf| <= |t| && CountTrue(EqualTo(cf, pt)) <= |x| && CountTrue(EqualTo(cf, pt)) <= |u|
    ensures var c := CountTrue(EqualTo(cf, pt));
      Gathered(u, cf, pt, 1.0, Scattered(t, cf, pt, 1.0, x, 0.0), 0.0)[..c] == x[..c]
  {
    var sel := EqualTo(cf, pt);
    var c := CountTrue(sel);
    var y := Scattered(t, cf, pt, 1.0, x, 0.0);
    var g := Gathered(u, cf, pt, 1.0, y, 0.0);
    IndicesSpec(sel);
    forall j | 0 <= j < c
      ensures g[j] == x[j]
    {
      RankOfIndex(sel, j);
    }
  }

  /** Scattering with P what R gathered from a vector (a = 1, b = 0 both
      times) gives back that vector's selected positions, and leaves the
      others of the target alone. */
  lemma ScatterGather(t: seq<real>, u: seq<real>, cf: seq<int>, pt: int, y: seq<real>)
    requires |cf| <= |t| && |cf| <= |y| && CountTrue(EqualTo(cf, pt)) <= |u|
    ensures forall i :: 0 <= i < |cf| ==>
      Scattered(t, cf, pt, 1.0, Gathered(u, cf, pt, 1.0, y, 0.0), 0.0)[i] == if cf[i] == pt then y[i] else t[i]
  {
    var sel := EqualTo(cf, pt);
    forall i | 0 <= i < |cf| && cf[i] == pt
      ensures Rank(sel, i) < CountTrue(sel) && Gathered(u, cf, pt, 1.0, y, 0.0)[Rank(sel, i)] == y[i]
    {
      RankBelowCount(sel, i);
      IndexOfRank(sel, i);
    }
  }
}
