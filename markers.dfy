/** Point markers and the index bookkeeping derived from them.

    The solver tags every local row with an integer marker; a routine then
    selects the rows whose marker passes a test (`> 0`, `>= 0`, `< 0`,
    `== 1`, `== point_type`, depending on the routine).  A test applied to a
    marker array gives a selection `seq<bool>`.  Two derived quantities are
    used everywhere: the RANK of a position (how many selected positions
    precede it — the value a running `coarse_counter` has when it reaches
    the position) and the INDICES of a selection (the selected positions in
    increasing order).  Rank and Indices are inverse to each other
    (IndexOfRank, RankOfIndex). */
module Markers {

  /** A marker array the caller may omit (a NULL pointer). */
  datatype Option<T> = None | Some(value: T)

  /** Coarse and fine marker values. */
  const CMRK: int := 1
  const FMRK: int := -1

  function Positive(m: seq<int>): seq<bool>
  {
    seq(|m|, i requires 0 <= i < |m| => m[i] > 0)
  }

  function NonNegative(m: seq<int>): seq<bool>
  {
    seq(|m|, i requires 0 <= i < |m| => m[i] >= 0)
  }

  function Negative(m: seq<int>): seq<bool>
  {
    seq(|m|, i requires 0 <= i < |m| => m[i] < 0)
  }

  function EqualTo(m: seq<int>, v: int): seq<bool>
  {
    seq(|m|, i requires 0 <= i < |m| => m[i] == v)
  }

  /** Number of selected positions before position i. */
  function CountBefore(s: seq<bool>, i: int): (r: nat)
    requires 0 <= i <= |s|
    ensures r <= i
  {
    if i == 0 then 0 else CountBefore(s, i - 1) + (if s[i - 1] then 1 else 0)
  }

  /** Number of selected positions. */
  function CountTrue(s: seq<bool>): nat
  {
    CountBefore(s, |s|)
  }

  /** The count never decreases along the positions, and it increases
      strictly past a selected position. */
  lemma {:induction false} CountBeforeMono(s: seq<bool>, i: nat, j: nat)
    requires i <= j <= |s|
    ensures CountBefore(s, i) <= CountBefore(s, j)
    ensures i < j && s[i] ==> CountBefore(s, i) < CountBefore(s, j)
    decreases j - i
  {
    if i < j {
      CountBeforeMono(s, i, j - 1);
      if s[i] && i < j - 1 {
        CountBeforeMono(s, i + 1, j - 1);
      }
    }
  }

  /** The rank of position i: how many selected positions precede it (the
      value a running counter has on reaching i), at most their total. */
  function Rank(s: seq<bool>, i: int): (r: nat)
    requires 0 <= i <= |s|
    ensures r <= i && r <= CountTrue(s)
  {
    CountBeforeMono(s, i, |s|);
    CountBefore(s, i)
  }

  /** The rank of every position. */
  function Ranks(s: seq<bool>): seq<int>
  {
    seq(|s|, i requires 0 <= i < |s| => Rank(s, i))
  }

  /** The selected positions before position k, in increasing order. */
  function IndicesUpTo(s: seq<bool>, k: int): (r: seq<int>)
    requires 0 <= k <= |s|
    ensures |r| == CountBefore(s, k)
  {
    if k == 0 then [] else IndicesUpTo(s, k - 1) + (if s[k - 1] then [k - 1] else [])
  }

  /** The selected positions, in increasing order. */
  function Indices(s: seq<bool>): seq<int>
  {
    IndicesUpTo(s, |s|)
  }

  predicate StrictlyIncreasing(s: seq<int>)
  {
    forall i, j :: 0 <= i < j < |s| ==> s[i] < s[j]
  }

  /** A selected position's rank is below the number of selected
      positions. */
  lemma RankBelowCount(s: seq<bool>, i: nat)
    requires i < |s| && s[i]
    ensures Rank(s, i) < CountTrue(s)
  {
    CountBeforeMono(s, i, |s|);
  }

  /** The selected positions before k: Rank(s, k) of them, increasing,
      each one selected, and every selected position before k among them. */
  lemma {:induction false} IndicesUpToSpec(s: seq<bool>, k: nat)
    requires k <= |s|
    ensures StrictlyIncreasing(IndicesUpTo(s, k))
    ensures forall r :: 0 <= r < |IndicesUpTo(s, k)| ==>
      0 <= IndicesUpTo(s, k)[r] < k && s[IndicesUpTo(s, k)[r]]
    ensures forall i :: 0 <= i < k ==> (s[i] <==> i in IndicesUpTo(s, k))
  {
    if k > 0 {
      IndicesUpToSpec(s, k - 1);
    }
  }

  /** Indices lists every selected position once, in increasing order. */
  lemma IndicesSpec(s: seq<bool>)
    ensures |Indices(s)| == CountTrue(s)
    ensures StrictlyIncreasing(Indices(s))
    ensures forall k :: 0 <= k < |Indices(s)| ==> 0 <= Indices(s)[k] < |s| && s[Indices(s)[k]]
    ensures forall i :: 0 <= i < |s| ==> (s[i] <==> i in Indices(s))
  {
    IndicesUpToSpec(s, |s|);
  }

  /** Among the positions before k, a selected position i sits at place
      Rank(s, i). */
  lemma {:induction false} IndexOfRankUpTo(s: seq<bool>, i: nat, k: nat)
    requires i < k <= |s| && s[i]
    ensures Rank(s, i) < |IndicesUpTo(s, k)| && IndicesUpTo(s, k)[Rank(s, i)] == i
  {
    var prev := IndicesUpTo(s, k - 1);
    assert IndicesUpTo(s, k) == prev + (if s[k - 1] then [k - 1] else []);
    if i < k - 1 {
      IndexOfRankUpTo(s, i, k - 1);
    } else {
      assert Rank(s, i) == |prev|;
    }
  }

  /** The selected position of rank r is found at Indices(s)[r]. */
  lemma IndexOfRank(s: seq<bool>, i: nat)
    requires i < |s| && s[i]
    ensures Rank(s, i) < |Indices(s)|
    ensures Indices(s)[Rank(s, i)] == i
  {
    IndexOfRankUpTo(s, i, |s|);
  }

  lemma RankOfIndex(s: seq<bool>, k: nat)
    requires k < |Indices(s)|
    ensures 0 <= Indices(s)[k] < |s|
    ensures Rank(s, Indices(s)[k]) == k
  {
    IndicesSpec(s);
    var i := Indices(s)[k];
    IndexOfRank(s, i);
  }

  /** The selected positions before k are a prefix of all selected
      positions; when k already has them all they agree. */
  lemma {:induction false} IndicesPrefix(s: seq<bool>, k: nat)
    requires k <= |s|
    ensures IndicesUpTo(s, k) <= Indices(s)
    ensures Rank(s, k) == CountTrue(s) ==> IndicesUpTo(s, k) == Indices(s)
  {
    IndicesUpToSpec(s, k);
    IndicesSpec(s);
    PrefixUpTo(s, k, |s|);
  }

  lemma {:induction false} PrefixUpTo(s: seq<bool>, k: nat, m: nat)
    requires k <= m <= |s|
    ensures IndicesUpTo(s, k) <= IndicesUpTo(s, m)
    decreases m - k
  {
    if k < m {
      PrefixUpTo(s, k, m - 1);
    }
  }

  /** Past the last selected position nothing is selected. */
  lemma NoneAfterFullPrefix(s: seq<bool>, k: nat, i: nat)
    requires k <= i < |s|
    requires Rank(s, k) == CountTrue(s)
    ensures !s[i]
  {
    CountBeforeMono(s, k, i);
    CountBeforeMono(s, i, |s|);
  }

  /** Consecutive numbers for the selected positions, `other` elsewhere. */
  function Numbered(sel: seq<bool>, other: int): seq<int>
  {
    seq(|sel|, i requires 0 <= i < |sel| => if sel[i] then Rank(sel, i) else other)
  }

  /** Selecting one more position raises the count by one. */
  lemma {:induction false} CountBeforeSelect(s: seq<bool>, c: nat, i: nat)
    requires c < |s| && !s[c] && i <= |s|
    ensures CountBefore(s[c := true], i) == CountBefore(s, i) + (if c < i then 1 else 0)
  {
    if i > 0 {
      CountBeforeSelect(s, c, i - 1);
    }
  }

  /** With nothing selected there are no selected positions. */
  lemma {:induction false} NoneSelected(s: seq<bool>, k: nat)
    requires k <= |s|
    requires forall i :: 0 <= i < |s| ==> !s[i]
    ensures IndicesUpTo(s, k) == [] && CountBefore(s, k) == 0
  {
    if k > 0 {
      NoneSelected(s, k - 1);
    }
  }

  /** The numbering loop shared by several routines: a running counter
      hands out consecutive numbers to the selected positions, and every
      other position gets `other`.  Position i thus receives its rank. */
  method NumberSelected(sel: seq<bool>, other: int) returns (num: seq<int>)
    ensures |num| == |sel|
    ensures forall i :: 0 <= i < |sel| ==> num[i] == (if sel[i] then Rank(sel, i) else other)
    ensures num == Numbered(sel, other)
  {
    var a := new int[|sel|](_ => other);
    var counter := 0;
    var i := 0;
    while i < |sel|
      invariant 0 <= i <= |sel|
      invariant counter == Rank(sel, i)
      invariant forall k :: 0 <= k < i ==> a[k] == (if sel[k] then Rank(sel, k) else other)
      invariant forall k :: i <= k < |sel| ==> a[k] == other
    {
      if sel[i] {
        a[i] := counter;
        counter := counter + 1;
      }
      i := i + 1;
    }
    num := a[..];
  }
}
