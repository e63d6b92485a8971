/** Independent-set selection on a subgraph of a strength graph
    (parcsr_ls/par_indepset.c, hypre_ParAMGIndepSet).

    The strength graph is a ParCSR matrix S: a diagonal block over the
    local_num_vars local nodes, an off-diagonal block whose column c stands
    for node local_num_vars + c, and the rows S_ext of the external nodes.
    Measure and marker arrays cover the local nodes followed by the
    external ones.  Every subgraph node with measure > 1 is first put in
    the set; then every edge with a nonzero value between two such nodes
    takes the node of strictly smaller measure out of the set.  With the
    edges visited as the source visits them, the result is characterised by
    RemovedAt and the lemmas after it. */
module IndepSet {
  import opened Csr
  import opened Markers

  /** The strength matrix as the routine sees it. */
  datatype Strength = Strength(
    diag: Matrix, offd: Matrix, ext: Matrix,
    colMapOffd: seq<int>, col1: int, numColsDiag: nat, localNumVars: nat)

  /** Every stored column index lies in [lo, hi). */
  predicate ColsIn(m: Matrix, lo: int, hi: int)
  {
    forall k :: 0 <= k < |m.colIdx| ==> lo <= m.colIdx[k] < hi
  }

  /** The row structure the routine walks: diag and offd with a row per
      local node and, when there are external nodes, S_ext with a row per
      external node. */
  predicate Shaped(s: Strength)
  {
    && Valid(s.diag, s.localNumVars)
    && Valid(s.offd, s.localNumVars)
    && (|s.colMapOffd| > 0 ==> Valid(s.ext, |s.colMapOffd|))
  }

  /** Every node the routine can reach lies inside the measure and marker
      arrays of `size` entries. */
  predicate WellFormed(s: Strength, size: int)
  {
    && Shaped(s)
    && ColsIn(s.diag, 0, size)
    && ColsIn(s.offd, 0, |s.colMapOffd|)
    && TargetsFit(s, size)
  }

  /** Every node an external column can stand for lies inside the arrays. */
  predicate TargetsFit(s: Strength, size: int)
  {
    s.localNumVars + |s.colMapOffd| <= size && s.numColsDiag <= size
  }

  /** The nodes of the graph: local ones, then the external ones. */
  function NumNodes(s: Strength): nat
  {
    s.localNumVars + |s.colMapOffd|
  }

  /** The first position at or after `from` holding x, if any. */
  function FirstIndexFrom(xs: seq<int>, x: int, from: nat): (r: Option<nat>)
    ensures r.Some? ==> from <= r.value < |xs| && xs[r.value] == x
    ensures r.Some? ==> forall k :: from <= k < r.value ==> xs[k] != x
    ensures r.None? ==> forall k :: from <= k < |xs| ==> xs[k] != x
    decreases |xs| - from
  {
    if from >= |xs| then None
    else if xs[from] == x then Some(from)
    else FirstIndexFrom(xs, x, from + 1)
  }

  /** The first position holding x, if any. */
  function FirstIndex(xs: seq<int>, x: int): Option<nat>
  {
    FirstIndexFrom(xs, x, 0)
  }

  /** The node a column of an external row stands for: a column in [col_1,
      col_n) is the local node j - col_1; any other column is looked up in
      col_map_offd, and its first occurrence jc stands for node
      local_num_vars + jc; a column found nowhere stands for no node. */
  function ExtTarget(s: Strength, j: int): (r: Option<int>)
    ensures s.col1 <= j < s.col1 + s.numColsDiag ==> r == Some(j - s.col1)
    ensures !(s.col1 <= j < s.col1 + s.numColsDiag) ==> (r.Some? <==> j in s.colMapOffd)
    ensures !(s.col1 <= j < s.col1 + s.numColsDiag) && r.Some? ==>
      var jc := r.value - s.localNumVars;
      && 0 <= jc < |s.colMapOffd| && s.colMapOffd[jc] == j
      && forall k :: 0 <= k < jc ==> s.colMapOffd[k] != j
  {
    if s.col1 <= j < s.col1 + s.numColsDiag then Some(j - s.col1)
    else match FirstIndex(s.colMapOffd, j)
      case Some(jc) => Some(s.localNumVars + jc)
      case None => None
  }

  /** Entries with their columns moved by d. */
  function Shifted(es: seq<Entry>, d: int): (r: seq<Entry>)
    ensures |r| == |es|
  {
    seq(|es|, t requires 0 <= t < |es| => Entry(es[t].col + d, es[t].val))
  }

  /** The stored entries [lo, hi) of an external row with their columns
      replaced by the nodes they stand for; columns that stand for no node
      are dropped. */
  function Mapped(s: Strength, cols: seq<int>, vals: seq<real>, lo: int, hi: int): seq<Entry>
    requires 0 <= lo <= hi <= |cols| && hi <= |vals|
    decreases hi - lo
  {
    if hi == lo then [] else Mapped(s, cols, vals, lo, hi - 1) + MapEntry(s, Entry(cols[hi - 1], vals[hi - 1]))
  }

  /** One entry of an external row, mapped: one edge or none. */
  function MapEntry(s: Strength, e: Entry): seq<Entry>
  {
    match ExtTarget(s, e.col)
    case Some(t) => [Entry(t, e.val)]
    case None => []
  }

  /** The edges of node i in the order the routine visits them, each as
      the neighbour node and the edge value: for a local node its diag row
      and then its offd row (column c addressing node local_num_vars + c),
      for an external node its mapped S_ext row. */
  function Edges(s: Strength, i: int): seq<Entry>
    requires Shaped(s) && 0 <= i < NumNodes(s)
  {
    if i < s.localNumVars then Row(s.diag, s.localNumVars, i) + Shifted(Row(s.offd, s.localNumVars, i), s.localNumVars)
    else
      var ic := i - s.localNumVars;
      RowBounds(s.ext, |s.colMapOffd|, ic);
      Mapped(s, s.ext.colIdx, s.ext.vals, s.ext.rowPtr[ic], s.ext.rowPtr[ic + 1])
  }

  /** Every edge leads to a node inside an array of `size` entries. */
  predicate InRange(es: seq<Entry>, size: int)
  {
    forall t :: 0 <= t < |es| ==> 0 <= es[t].col < size
  }

  lemma InRangeFront(es: seq<Entry>, size: int)
    requires |es| > 0 && InRange(es, size)
    ensures InRange(es[..|es| - 1], size)
  {
  }

  /** The parts and the prefixes of edges in range are in range. */
  lemma InRangeParts(a: seq<Entry>, b: seq<Entry>, size: int)
    requires InRange(a + b, size)
    ensures InRange(a, size) && InRange(b, size)
    ensures forall k :: 0 <= k <= |b| ==> InRange(a + b[..k], size)
  {
    var ab := a + b;
    assert forall t :: 0 <= t < |a| ==> ab[t] == a[t];
    assert forall t :: 0 <= t < |b| ==> ab[|a| + t] == b[t];
    forall k | 0 <= k <= |b|
      ensures InRange(a + b[..k], size)
    {
      var c := a + b[..k];
      assert forall t :: 0 <= t < |c| ==> c[t] == ab[t];
    }
  }

  lemma RowColsIn(m: Matrix, n: nat, i: int, lo: int, hi: int)
    requires Valid(m, n) && 0 <= i < n && ColsIn(m, lo, hi)
    ensures forall t :: 0 <= t < |Row(m, n, i)| ==> lo <= Row(m, n, i)[t].col < hi
  {
    RowBounds(m, n, i);
  }

  lemma {:induction false} MappedInRange(s: Strength, size: int, cols: seq<int>, vals: seq<real>, lo: int, hi: int)
    requires TargetsFit(s, size) && 0 <= lo <= hi <= |cols| && hi <= |vals|
    ensures InRange(Mapped(s, cols, vals, lo, hi), size)
    decreases hi - lo
  {
    if hi > lo {
      MappedInRange(s, size, cols, vals, lo, hi - 1);
    }
  }

  /** Every edge of a node leads to a node of the arrays. */
  lemma EdgesInRange(s: Strength, size: int, i: int)
    requires WellFormed(s, size) && 0 <= i < NumNodes(s)
    ensures InRange(Edges(s, i), size)
  {
    if i < s.localNumVars {
      RowColsIn(s.diag, s.localNumVars, i, 0, size);
      RowColsIn(s.offd, s.localNumVars, i, 0, |s.colMapOffd|);
    } else {
      var ic := i - s.localNumVars;
      RowBounds(s.ext, |s.colMapOffd|, ic);
      MappedInRange(s, size, s.ext.colIdx, s.ext.vals, s.ext.rowPtr[ic], s.ext.rowPtr[ic + 1]);
    }
  }

  // ---------------------------------------------------------------------
  // The two phases as functions of the marker array

  predicate InGraph(g: seq<int>, s: Strength)
  {
    forall ig :: 0 <= ig < |g| ==> 0 <= g[ig] < NumNodes(s)
  }

  /** The first loop: every subgraph node with measure > 1 gets marker 1. */
  function Marked(measure: seq<real>, mk: seq<int>, g: seq<int>): (r: seq<int>)
    requires |mk| == |measure|
    requires forall ig :: 0 <= ig < |g| ==> 0 <= g[ig] < |mk|
    ensures |r| == |mk|
  {
    if |g| == 0 then mk
    else
      var prev := Marked(measure, mk, g[..|g| - 1]);
      if measure[g[|g| - 1]] > 1.0 then prev[g[|g| - 1] := 1] else prev
  }

  /** One edge from node i: between two nodes of measure > 1 joined by a
      nonzero value, the one of strictly smaller measure gets marker 0. */
  function Visit(measure: seq<real>, mk: seq<int>, i: int, e: Entry): (r: seq<int>)
    requires |mk| == |measure| && 0 <= i < |mk| && 0 <= e.col < |mk|
    ensures |r| == |mk|
  {
    if measure[e.col] > 1.0 && e.val != 0.0 then
      if measure[i] > measure[e.col] then mk[e.col := 0]
      else if measure[e.col] > measure[i] then mk[i := 0]
      else mk
    else mk
  }

  /** The edges es of node i, visited in order. */
  function VisitAll(measure: seq<real>, mk: seq<int>, i: int, es: seq<Entry>): (r: seq<int>)
    requires |mk| == |measure| && 0 <= i < |mk| && InRange(es, |mk|)
    ensures |r| == |mk|
    decreases |es|
  {
    if |es| == 0 then mk
    else Visit(measure, VisitAll(measure, mk, i, es[..|es| - 1]), i, es[|es| - 1])
  }

  /** The second loop's work for one subgraph node. */
  function NodeStep(s: Strength, measure: seq<real>, mk: seq<int>, i: int): (r: seq<int>)
    requires WellFormed(s, |measure|) && |mk| == |measure| && 0 <= i < NumNodes(s)
    ensures |r| == |mk|
  {
    EdgesInRange(s, |measure|, i);
    if measure[i] > 1.0 then VisitAll(measure, mk, i, Edges(s, i)) else mk
  }

  /** The second loop over the subgraph nodes g. */
  function Removed(s: Strength, measure: seq<real>, mk: seq<int>, g: seq<int>): (r: seq<int>)
    requires WellFormed(s, |measure|) && |mk| == |measure| && InGraph(g, s)
    ensures |r| == |mk|
  {
    if |g| == 0 then mk
    else NodeStep(s, measure, Removed(s, measure, mk, g[..|g| - 1]), g[|g| - 1])
  }

  /** The marker array the routine leaves. */
  function Selected(s: Strength, measure: seq<real>, mk: seq<int>, g: seq<int>): (r: seq<int>)
    requires WellFormed(s, |measure|) && |mk| == |measure| && InGraph(g, s)
    ensures |r| == |mk|
  {
    Removed(s, measure, Marked(measure, mk, g), g)
  }

  // ---------------------------------------------------------------------
  // What the phases do

  /** After the first loop a node has marker 1 exactly when it is a
      subgraph node of measure > 1, or kept its old marker otherwise. */
  lemma {:induction false} MarkedAt(measure: seq<real>, mk: seq<int>, g: seq<int>, k: int)
    requires |mk| == |measure| && 0 <= k < |mk|
    requires forall ig :: 0 <= ig < |g| ==> 0 <= g[ig] < |mk|
    ensures Marked(measure, mk, g)[k] == if k in g && measure[k] > 1.0 then 1 else mk[k]
  {
    if |g| > 0 {
      var front := g[..|g| - 1];
      MarkedAt(measure, mk, front, k);
      assert g == front + [g[|g| - 1]];
    }
  }

  /** Edge e of node i takes node k out of the set. */
  predicate Clears(measure: seq<real>, i: int, e: Entry, k: int)
    requires 0 <= i < |measure| && 0 <= e.col < |measure|
  {
    && measure[e.col] > 1.0 && e.val != 0.0
    && ((k == e.col && measure[i] > measure[e.col]) || (k == i && measure[e.col] > measure[i]))
  }

  /** Some edge of es from node i takes node k out of the set. */
  predicate SomeEdgeClears(measure: seq<real>, i: int, es: seq<Entry>, k: int)
    requires 0 <= i < |measure| && InRange(es, |measure|)
  {
    exists t :: 0 <= t < |es| && Clears(measure, i, es[t], k)
  }

  /** The visit of node i takes node k out of the set. */
  predicate NodeClears(s: Strength, measure: seq<real>, i: int, k: int)
    requires WellFormed(s, |measure|) && 0 <= i < NumNodes(s)
  {
    EdgesInRange(s, |measure|, i);
    measure[i] > 1.0 && SomeEdgeClears(measure, i, Edges(s, i), k)
  }

  /** Visiting a list of edges sets to 0 exactly the nodes one of them
      clears and leaves every other marker as it was. */
  lemma {:induction false} VisitAllAt(measure: seq<real>, mk: seq<int>, i: int, es: seq<Entry>, k: int)
    requires |mk| == |measure| && 0 <= i < |mk| && InRange(es, |mk|) && 0 <= k < |mk|
    ensures VisitAll(measure, mk, i, es)[k] == if SomeEdgeClears(measure, i, es, k) then 0 else mk[k]
    decreases |es|
  {
    if |es| > 0 {
      var front := es[..|es| - 1];
      InRangeFront(es, |mk|);
      VisitAllAt(measure, mk, i, front, k);
      if SomeEdgeClears(measure, i, front, k) {
        var t :| 0 <= t < |front| && Clears(measure, i, front[t], k);
        assert es[t] == front[t];
      }
      if SomeEdgeClears(measure, i, es, k) && !Clears(measure, i, es[|es| - 1], k) {
        var t :| 0 <= t < |es| && Clears(measure, i, es[t], k);
        assert front[t] == es[t];
      }
    }
  }

  /** Some subgraph node's visit takes node k out of the set. */
  predicate SomeNodeClears(s: Strength, measure: seq<real>, g: seq<int>, k: int)
    requires WellFormed(s, |measure|) && InGraph(g, s)
  {
    exists ig :: 0 <= ig < |g| && NodeClears(s, measure, g[ig], k)
  }

  /** One node's visit sets to 0 exactly the nodes it clears. */
  lemma NodeStepAt(s: Strength, measure: seq<real>, mk: seq<int>, i: int, k: int)
    requires WellFormed(s, |measure|) && |mk| == |measure| && 0 <= i < NumNodes(s) && 0 <= k < |mk|
    ensures NodeStep(s, measure, mk, i)[k] == if NodeClears(s, measure, i, k) then 0 else mk[k]
  {
    EdgesInRange(s, |measure|, i);
    if measure[i] > 1.0 {
      VisitAllAt(measure, mk, i, Edges(s, i), k);
    }
  }

  /** The second loop sets to 0 exactly the nodes some visit clears, and
      leaves every other marker as it was: markers only ever go to 0. */
  lemma {:induction false} RemovedAt(s: Strength, measure: seq<real>, mk: seq<int>, g: seq<int>, k: int)
    requires WellFormed(s, |measure|) && |mk| == |measure| && InGraph(g, s) && 0 <= k < |mk|
    ensures Removed(s, measure, mk, g)[k] == if SomeNodeClears(s, measure, g, k) then 0 else mk[k]
  {
    if |g| > 0 {
      var front := g[..|g| - 1];
      var i := g[|g| - 1];
      assert g == front + [i];
      SomeNodeClearsSnoc(s, measure, front, i, k);
      RemovedAt(s, measure, mk, front, k);
      NodeStepAt(s, measure, Removed(s, measure, mk, front), i, k);
    }
  }

  /** Clearing by some node of g + [i]: by some node of g, or by i. */
  lemma SomeNodeClearsSnoc(s: Strength, measure: seq<real>, g: seq<int>, i: int, k: int)
    requires WellFormed(s, |measure|) && InGraph(g + [i], s)
    ensures InGraph(g, s) && 0 <= i < NumNodes(s)
    ensures SomeNodeClears(s, measure, g + [i], k) <==> SomeNodeClears(s, measure, g, k) || NodeClears(s, measure, i, k)
  {
    var h := g + [i];
    assert h[|g|] == i;
    assert forall ig :: 0 <= ig < |g| ==> h[ig] == g[ig];
    if SomeNodeClears(s, measure, g, k) {
      var ig :| 0 <= ig < |g| && NodeClears(s, measure, g[ig], k);
      assert h[ig] == g[ig];
    }
    if SomeNodeClears(s, measure, h, k) && !NodeClears(s, measure, i, k) {
      var ig :| 0 <= ig < |h| && NodeClears(s, measure, h[ig], k);
      assert g[ig] == h[ig];
    }
  }

  /** A node ends up with marker 1 only if it had it already or is a
      subgraph node of measure > 1: nothing but the first loop writes 1. */
  lemma OnlyMarkedJoin(s: Strength, measure: seq<real>, mk: seq<int>, g: seq<int>, k: int)
    requires WellFormed(s, |measure|) && |mk| == |measure| && InGraph(g, s) && 0 <= k < |mk|
    requires Selected(s, measure, mk, g)[k] == 1
    ensures mk[k] == 1 || (k in g && measure[k] > 1.0)
  {
    RemovedAt(s, measure, Marked(measure, mk, g), g, k);
    MarkedAt(measure, mk, g, k);
  }

  /** Every subgraph node of measure > 1 that no visit clears stays in the
      set. */
  lemma UnclearedStay(s: Strength, measure: seq<real>, mk: seq<int>, g: seq<int>, k: int)
    requires WellFormed(s, |measure|) && |mk| == |measure| && InGraph(g, s) && 0 <= k < |mk|
    requires k in g && measure[k] > 1.0 && !SomeNodeClears(s, measure, g, k)
    ensures Selected(s, measure, mk, g)[k] == 1
  {
    RemovedAt(s, measure, Marked(measure, mk, g), g, k);
    MarkedAt(measure, mk, g, k);
  }

  /** The node the t-th edge of node i leads to. */
  function EdgeTo(s: Strength, measure: seq<real>, i: int, t: int): (j: int)
    requires WellFormed(s, |measure|) && 0 <= i < NumNodes(s) && 0 <= t < |Edges(s, i)|
    ensures 0 <= j < |measure|
  {
    EdgesInRange(s, |measure|, i);
    Edges(s, i)[t].col
  }

  /** Node i of the subgraph, measure > 1, and its t-th edge, leading to a
      node of measure > 1 with a nonzero value. */
  predicate LiveEdge(s: Strength, measure: seq<real>, g: seq<int>, ig: int, t: int)
    requires WellFormed(s, |measure|) && InGraph(g, s)
  {
    && 0 <= ig < |g|
    && measure[g[ig]] > 1.0
    && 0 <= t < |Edges(s, g[ig])|
    && measure[EdgeTo(s, measure, g[ig], t)] > 1.0
    && Edges(s, g[ig])[t].val != 0.0
  }

  /** Along a live edge the end of strictly smaller measure leaves the
      set; with equal measures both ends survive at least that edge, so two
      ends still in the set have equal measures. */
  lemma SmallerEndCleared(s: Strength, measure: seq<real>, mk: seq<int>, g: seq<int>, ig: int, t: int)
    requires WellFormed(s, |measure|) && |mk| == |measure| && InGraph(g, s)
    requires LiveEdge(s, measure, g, ig, t)
    ensures var i, j := g[ig], EdgeTo(s, measure, g[ig], t);
      var r := Selected(s, measure, mk, g);
      && (measure[i] > measure[j] ==> r[j] == 0)
      && (measure[j] > measure[i] ==> r[i] == 0)
      && (r[i] == 1 && r[j] == 1 ==> measure[i] == measure[j])
  {
    var i := g[ig];
    EdgesInRange(s, |measure|, i);
    var j := EdgeTo(s, measure, i, t);
    var m1 := Marked(measure, mk, g);
    if measure[i] > measure[j] {
      assert Clears(measure, i, Edges(s, i)[t], j);
      assert NodeClears(s, measure, g[ig], j);
    }
    if measure[j] > measure[i] {
      assert Clears(measure, i, Edges(s, i)[t], i);
      assert NodeClears(s, measure, g[ig], i);
    }
    RemovedAt(s, measure, m1, g, i);
    RemovedAt(s, measure, m1, g, j);
  }

  /** An edge between equal measures changes no marker. */
  lemma TieKeepsBoth(measure: seq<real>, mk: seq<int>, i: int, e: Entry)
    requires |mk| == |measure| && 0 <= i < |mk| && 0 <= e.col < |mk|
    requires measure[i] == measure[e.col]
    ensures Visit(measure, mk, i, e) == mk
  {
  }

  // ---------------------------------------------------------------------
  // The routine

  /** The linear search of col_map_offd, stopping at the first match. */
  method FindOffd(colMap: seq<int>, j: int) returns (r: Option<nat>)
    ensures r == FirstIndex(colMap, j)
  {
    var jc := 0;
    while jc < |colMap|
      invariant 0 <= jc <= |colMap|
      invariant FirstIndex(colMap, j) == FirstIndexFrom(colMap, j, jc)
    {
      if j == colMap[jc] {
        return Some(jc);
      }
      jc := jc + 1;
    }
    r := None;
  }

  /** One edge from node i to node j with value v. */
  method Compare(measure: seq<real>, marker: array<int>, i: int, j: int, v: real)
    requires marker.Length == |measure| && 0 <= i < |measure| && 0 <= j < |measure|
    modifies marker
    ensures marker[..] == Visit(measure, old(marker[..]), i, Entry(j, v))
  {
    if measure[j] > 1.0 && v != 0.0 {
      if measure[i] > measure[j] {
        marker[j] := 0;
      } else if measure[j] > measure[i] {
        marker[i] := 0;
      }
    }
  }

  /** Visiting one more edge. */
  lemma VisitAllSnoc(measure: seq<real>, mk: seq<int>, i: int, es: seq<Entry>, e: Entry)
    requires |mk| == |measure| && 0 <= i < |mk| && InRange(es + [e], |mk|)
    ensures InRange(es, |mk|) && 0 <= e.col < |mk|
    ensures VisitAll(measure, mk, i, es + [e]) == Visit(measure, VisitAll(measure, mk, i, es), i, e)
  {
    InRangeParts(es, [e], |mk|);
    assert [e][0] == e;
    assert (es + [e])[..|es|] == es;
  }

  /** One row loop of a local node: the entries of row r of m, their
      columns moved by `shift`, visited after the edges `before`. */
  method VisitRow(measure: seq<real>, marker: array<int>, i: int, m: Matrix, n: nat, r: int, shift: int,
                  ghost m0: seq<int>, ghost before: seq<Entry>)
    requires Valid(m, n) && 0 <= r < n
    requires marker.Length == |measure| && 0 <= i < |measure| && |m0| == |measure|
    requires InRange(before + Shifted(Row(m, n, r), shift), |measure|)
    requires InRange(before, |measure|) && marker[..] == VisitAll(measure, m0, i, before)
    modifies marker
    ensures marker[..] == VisitAll(measure, m0, i, before + Shifted(Row(m, n, r), shift))
  {
    var es := Shifted(Row(m, n, r), shift);
    InRangeParts(before, es, |measure|);
    RowBounds(m, n, r);
    var lo, hi := m.rowPtr[r], m.rowPtr[r + 1];
    assert before + es[..0] == before;
    ghost var done := before;
    var jS := lo;
    while jS < hi
      invariant lo <= jS <= hi
      invariant done == before + es[..jS - lo] && InRange(done, |measure|)
      invariant marker[..] == VisitAll(measure, m0, i, done)
    {
      var j := m.colIdx[jS] + shift;
      assert es[jS - lo] == Entry(j, m.vals[jS]);
      assert before + es[..jS + 1 - lo] == done + [Entry(j, m.vals[jS])];
      CompareNext(measure, marker, i, j, m.vals[jS], m0, done);
      done := done + [Entry(j, m.vals[jS])];
      jS := jS + 1;
    }
    assert es[..hi - lo] == es;
  }

  /** The diag and offd loops of a local node. */
  method VisitLocal(s: Strength, measure: seq<real>, marker: array<int>, i: int)
    requires WellFormed(s, |measure|) && marker.Length == |measure| && 0 <= i < s.localNumVars
    modifies marker
    ensures InRange(Edges(s, i), |measure|)
    ensures marker[..] == VisitAll(measure, old(marker[..]), i, Edges(s, i))
  {
    EdgesInRange(s, |measure|, i);
    var n := s.localNumVars;
    var d := Row(s.diag, n, i);
    var o := Shifted(Row(s.offd, n, i), n);
    assert Edges(s, i) == d + o;
    assert Shifted(d, 0) == d;
    assert [] + d == d;
    InRangeParts(d, o, |measure|);
    ghost var m0 := marker[..];
    VisitRow(measure, marker, i, s.diag, n, i, 0, m0, []);
    VisitRow(measure, marker, i, s.offd, n, i, n, m0, d);
  }

  /** The three cases of mapping an external entry. */
  lemma MapEntryCases(s: Strength, j: int, v: real)
    ensures s.col1 <= j < s.col1 + s.numColsDiag ==> MapEntry(s, Entry(j, v)) == [Entry(j - s.col1, v)]
    ensures !(s.col1 <= j < s.col1 + s.numColsDiag) && FirstIndex(s.colMapOffd, j).Some? ==>
      MapEntry(s, Entry(j, v)) == [Entry(s.localNumVars + FirstIndex(s.colMapOffd, j).value, v)]
    ensures !(s.col1 <= j < s.col1 + s.numColsDiag) && FirstIndex(s.colMapOffd, j).None? ==>
      MapEntry(s, Entry(j, v)) == []
  {
  }

  /** One more stored entry of an external row. */
  lemma MappedStep(s: Strength, cols: seq<int>, vals: seq<real>, lo: int, k: int)
    requires 0 <= lo <= k < |cols| && k < |vals|
    ensures Mapped(s, cols, vals, lo, k + 1) == Mapped(s, cols, vals, lo, k) + MapEntry(s, Entry(cols[k], vals[k]))
  {
  }

  /** An entry (j, v) of an external row: a column in [col_1, col_n) is
      compared directly, any other is searched for in col_map_offd and
      compared when found. */
  method VisitExtEntry(s: Strength, measure: seq<real>, marker: array<int>, i: int, j: int, v: real,
                       ghost m0: seq<int>, ghost done: seq<Entry>)
    requires marker.Length == |measure| && 0 <= i < |measure| && |m0| == |measure|
    requires InRange(done + MapEntry(s, Entry(j, v)), |measure|)
    requires InRange(done, |measure|) && marker[..] == VisitAll(measure, m0, i, done)
    modifies marker
    ensures marker[..] == VisitAll(measure, m0, i, done + MapEntry(s, Entry(j, v)))
  {
    MapEntryCases(s, j, v);
    if s.col1 <= j < s.col1 + s.numColsDiag {
      CompareNext(measure, marker, i, j - s.col1, v, m0, done);
    } else {
      var r := FindOffd(s.colMapOffd, j);
      if r.Some? {
        CompareNext(measure, marker, i, s.localNumVars + r.value, v, m0, done);
      } else {
        assert done + MapEntry(s, Entry(j, v)) == done;
      }
    }
  }

  /** Compare along edge (j, v) of node i, after the edges `done`. */
  method CompareNext(measure: seq<real>, marker: array<int>, i: int, j: int, v: real,
                     ghost m0: seq<int>, ghost done: seq<Entry>)
    requires marker.Length == |measure| && 0 <= i < |measure| && |m0| == |measure|
    requires InRange(done + [Entry(j, v)], |measure|) && InRange(done, |measure|)
    requires marker[..] == VisitAll(measure, m0, i, done)
    modifies marker
    ensures marker[..] == VisitAll(measure, m0, i, done + [Entry(j, v)])
  {
    VisitAllSnoc(measure, m0, i, done, Entry(j, v));
    Compare(measure, marker, i, j, v);
  }

  /** The S_ext loop of an external node. */
  method VisitExternal(s: Strength, measure: seq<real>, marker: array<int>, i: int)
    requires WellFormed(s, |measure|) && marker.Length == |measure|
    requires s.localNumVars <= i < NumNodes(s)
    modifies marker
    ensures InRange(Edges(s, i), |measure|)
    ensures marker[..] == VisitAll(measure, old(marker[..]), i, Edges(s, i))
  {
    EdgesInRange(s, |measure|, i);
    var ic := i - s.localNumVars;
    RowBounds(s.ext, |s.colMapOffd|, ic);
    VisitExtRow(s, measure, marker, i, s.ext.colIdx, s.ext.vals, s.ext.rowPtr[ic], s.ext.rowPtr[ic + 1]);
  }

  /** The loop over the stored entries [lo, hi) of an external row. */
  method VisitExtRow(s: Strength, measure: seq<real>, marker: array<int>, i: int,
                     cols: seq<int>, vals: seq<real>, lo: int, hi: int)
    requires TargetsFit(s, |measure|) && marker.Length == |measure| && 0 <= i < |measure|
    requires 0 <= lo <= hi <= |cols| && hi <= |vals|
    modifies marker
    ensures InRange(Mapped(s, cols, vals, lo, hi), |measure|)
    ensures marker[..] == VisitAll(measure, old(marker[..]), i, Mapped(s, cols, vals, lo, hi))
  {
    ghost var m0 := marker[..];
    var jS := lo;
    while jS < hi
      invariant lo <= jS <= hi
      invariant InRange(Mapped(s, cols, vals, lo, jS), |measure|)
      invariant marker[..] == VisitAll(measure, m0, i, Mapped(s, cols, vals, lo, jS))
    {
      VisitExtStep(s, measure, marker, i, cols, vals, lo, jS, m0);
      jS := jS + 1;
    }
  }

  /** One pass of the S_ext loop: the entry at jS extends the mapped
      entries visited so far by its own mapping. */
  method VisitExtStep(s: Strength, measure: seq<real>, marker: array<int>, i: int,
                      cols: seq<int>, vals: seq<real>, lo: int, jS: int, ghost m0: seq<int>)
    requires TargetsFit(s, |measure|) && marker.Length == |measure| && 0 <= i < |measure| && |m0| == |measure|
    requires 0 <= lo <= jS < |cols| && jS < |vals|
    requires InRange(Mapped(s, cols, vals, lo, jS), |measure|)
    requires marker[..] == VisitAll(measure, m0, i, Mapped(s, cols, vals, lo, jS))
    modifies marker
    ensures InRange(Mapped(s, cols, vals, lo, jS + 1), |measure|)
    ensures marker[..] == VisitAll(measure, m0, i, Mapped(s, cols, vals, lo, jS + 1))
  {
    MappedStep(s, cols, vals, lo, jS);
    MappedInRange(s, |measure|, cols, vals, lo, jS + 1);
    VisitExtEntry(s, measure, marker, i, cols[jS], vals[jS], m0, Mapped(s, cols, vals, lo, jS));
  }

  /** The second loop's work for subgraph node i: skipped unless its
      measure exceeds 1, then the local or the external edge loops. */
  method VisitNode(s: Strength, measure: seq<real>, marker: array<int>, i: int)
    requires WellFormed(s, |measure|) && marker.Length == |measure| && 0 <= i < NumNodes(s)
    modifies marker
    ensures marker[..] == NodeStep(s, measure, old(marker[..]), i)
  {
    if i < s.localNumVars {
      if measure[i] > 1.0 {
        VisitLocal(s, measure, marker, i);
      }
    } else {
      if measure[i] > 1.0 {
        VisitExternal(s, measure, marker, i);
      }
    }
  }

  /** The first loop over the subgraph. */
  method MarkSubgraph(measure: seq<real>, graph: seq<int>, marker: array<int>)
    requires marker.Length == |measure|
    requires forall ig :: 0 <= ig < |graph| ==> 0 <= graph[ig] < marker.Length
    modifies marker
    ensures marker[..] == Marked(measure, old(marker[..]), graph)
  {
    var ig := 0;
    while ig < |graph|
      invariant 0 <= ig <= |graph|
      invariant marker[..] == Marked(measure, old(marker[..]), graph[..ig])
    {
      assert graph[..ig + 1][..ig] == graph[..ig];
      var i := graph[ig];
      if measure[i] > 1.0 {
        marker[i] := 1;
      }
      ig := ig + 1;
    }
    assert graph[..ig] == graph;
  }

  /** One more subgraph node of the second loop. */
  lemma RemovedStep(s: Strength, measure: seq<real>, mk: seq<int>, g: seq<int>, k: int)
    requires WellFormed(s, |measure|) && |mk| == |measure| && InGraph(g, s) && 0 <= k < |g|
    ensures InGraph(g[..k], s) && InGraph(g[..k + 1], s)
    ensures Removed(s, measure, mk, g[..k + 1]) == NodeStep(s, measure, Removed(s, measure, mk, g[..k]), g[k])
  {
    assert g[..k + 1][..k] == g[..k];
  }

  /** The second loop over the subgraph. */
  method RemoveAlongEdges(s: Strength, measure: seq<real>, graph: seq<int>, marker: array<int>)
    requires WellFormed(s, |measure|) && marker.Length == |measure| && InGraph(graph, s)
    modifies marker
    ensures marker[..] == Removed(s, measure, old(marker[..]), graph)
  {
    var ig := 0;
    while ig < |graph|
      invariant 0 <= ig <= |graph|
      invariant InGraph(graph[..ig], s)
      invariant marker[..] == Removed(s, measure, old(marker[..]), graph[..ig])
    {
      RemovedStep(s, measure, old(marker[..]), graph, ig);
      VisitNode(s, measure, marker, graph[ig]);
      ig := ig + 1;
    }
    assert graph[..ig] == graph;
  }

  /** hypre_ParAMGIndepSet: the first loop marks the subgraph nodes of
      measure > 1, the second clears along the edges; the markers left are
      Selected(...), characterised by the lemmas above. */
  method ParAMGIndepSet(s: Strength, measure: seq<real>, graph: seq<int>, marker: array<int>) returns (ierr: int)
    requires WellFormed(s, |measure|) && marker.Length == |measure| && InGraph(graph, s)
    modifies marker
    ensures ierr == 0
    ensures marker[..] == Selected(s, measure, old(marker[..]), graph)
  {
    ierr := 0;
    MarkSubgraph(measure, graph, marker);
    RemoveAlongEdges(s, measure, graph, marker);
  }
}
