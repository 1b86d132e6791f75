/** Finite directed graphs over object ids, as used by the collaborative-object modules:
    paths, reachability, acyclicity, and the termination weight of a worklist walk. */
module Graph {

  /** An object id. Hashes are modelled by the numbers that name them. */
  type Id = nat

  /** Edges run from a change to a change that depends on it (parent to child). */
  type Edges = set<(Id, Id)>

  // ---------- Paths and reachability ----------

  ghost predicate IsPath(E: Edges, p: seq<Id>) {
    |p| > 0 && forall i :: 0 <= i < |p| - 1 ==> (p[i], p[i + 1]) in E
  }

  ghost predicate Joins(E: Edges, p: seq<Id>, a: Id, b: Id) {
    IsPath(E, p) && p[0] == a && p[|p| - 1] == b
  }

  /** `a` is `b` or an ancestor of `b`. */
  ghost predicate Reaches(E: Edges, a: Id, b: Id) {
    exists p :: Joins(E, p, a, b)
  }

  ghost predicate ProperlyReaches(E: Edges, a: Id, b: Id) {
    a != b && Reaches(E, a, b)
  }

  lemma ReachesSelf(E: Edges, a: Id)
    ensures Reaches(E, a, a)
  {
    assert Joins(E, [a], a, a);
  }

  lemma ReachesEdge(E: Edges, a: Id, b: Id)
    requires (a, b) in E
    ensures Reaches(E, a, b)
  {
    assert Joins(E, [a, b], a, b);
  }

  lemma ReachesTrans(E: Edges, a: Id, b: Id, c: Id)
    requires Reaches(E, a, b) && Reaches(E, b, c)
    ensures Reaches(E, a, c)
  {
    var p :| Joins(E, p, a, b);
    var q :| Joins(E, q, b, c);
    var r := p + q[1..];
    forall i | 0 <= i < |r| - 1 ensures (r[i], r[i + 1]) in E {
      if i >= |p| - 1 {
        assert r[i] == q[i - |p| + 1] && r[i + 1] == q[i - |p| + 2];
      }
    }
    assert Joins(E, r, a, c);
  }

  lemma ReachesMono(E: Edges, F: Edges, a: Id, b: Id)
    requires E <= F && Reaches(E, a, b)
    ensures Reaches(F, a, b)
  {
    var p :| Joins(E, p, a, b);
    assert Joins(F, p, a, b);
  }

  /** A proper path leaves its first node along an edge. */
  lemma FirstStep(E: Edges, a: Id, b: Id) returns (c: Id)
    requires ProperlyReaches(E, a, b)
    ensures (a, c) in E && Reaches(E, c, b)
  {
    var p :| Joins(E, p, a, b);
    c := p[1];
    assert Joins(E, p[1..], c, b);
  }

  /** A proper path enters its last node along an edge. */
  lemma LastStep(E: Edges, a: Id, b: Id) returns (c: Id)
    requires ProperlyReaches(E, a, b)
    ensures (c, b) in E && Reaches(E, a, c)
  {
    var p :| Joins(E, p, a, b);
    c := p[|p| - 2];
    assert Joins(E, p[..|p| - 1], a, c);
  }

  ghost predicate ForwardClosed(E: Edges, s: set<Id>) {
    forall e :: e in E && e.0 in s ==> e.1 in s
  }

  ghost predicate BackwardClosed(E: Edges, s: set<Id>) {
    forall e :: e in E && e.1 in s ==> e.0 in s
  }

  lemma StaysInForward(E: Edges, s: set<Id>, a: Id, b: Id)
    requires ForwardClosed(E, s) && a in s && Reaches(E, a, b)
    ensures b in s
  {
    var p :| Joins(E, p, a, b);
    for i := 0 to |p| - 1
      invariant p[i] in s
    {
      assert (p[i], p[i + 1]) in E;
    }
  }

  lemma StaysInBackward(E: Edges, s: set<Id>, a: Id, b: Id)
    requires BackwardClosed(E, s) && b in s && Reaches(E, a, b)
    ensures a in s
  {
    var p :| Joins(E, p, a, b);
    var i := |p| - 1;
    while i > 0
      invariant 0 <= i < |p|
      invariant p[i] in s
    {
      assert (p[i - 1], p[i]) in E;
      i := i - 1;
    }
  }

  /** `F` adds to `E` edges into `n` only, and nothing leaves `n`. */
  ghost predicate AddsSink(E: Edges, F: Edges, n: Id) {
    E <= F && (forall e :: e in F ==> e.0 != n && (e in E || e.1 == n))
  }

  /** A new sink changes nothing between the other nodes. */
  lemma SinkReach(E: Edges, F: Edges, n: Id, a: Id, b: Id)
    requires AddsSink(E, F, n) && b != n
    ensures Reaches(F, a, b) <==> Reaches(E, a, b)
  {
    if Reaches(E, a, b) { ReachesMono(E, F, a, b); }
    if Reaches(F, a, b) {
      var p :| Joins(F, p, a, b);
      forall i | 0 <= i < |p| - 1 ensures (p[i], p[i + 1]) in E {
        assert (p[i], p[i + 1]) in F;
        if i + 1 < |p| - 1 { assert (p[i + 1], p[i + 2]) in F; }
      }
      assert Joins(E, p, a, b);
    }
  }

  /** Nothing but a sink itself is reached from it. */
  lemma SinkReachesSelf(F: Edges, n: Id, b: Id)
    requires forall e :: e in F ==> e.0 != n
    ensures Reaches(F, n, b) <==> n == b
  {
    ReachesSelf(F, n);
    if ProperlyReaches(F, n, b) {
      var c := FirstStep(F, n, b);
    }
  }

  /** Two relations that agree keep agreeing when both get the same sink below everything. */
  lemma SinkAgree(L: Edges, L': Edges, D: Edges, D': Edges, n: Id, a: Id, b: Id)
    requires AddsSink(L, L', n) && AddsSink(D, D', n)
    requires a != n && b == n ==> Reaches(L', a, n) && Reaches(D', a, n)
    requires a != n && b != n ==> (Reaches(L, a, b) <==> Reaches(D, a, b))
    ensures Reaches(L', a, b) <==> Reaches(D', a, b)
  {
    if a == n {
      SinkReachesSelf(L', n, b);
      SinkReachesSelf(D', n, b);
    } else if b != n {
      SinkReach(L, L', n, a, b);
      SinkReach(D, D', n, a, b);
    }
  }

  /** Cutting a graph down to a backward-closed set keeps the ancestors of the nodes in it. */
  lemma RestrictReach(E: Edges, F: Edges, s: set<Id>, a: Id, b: Id)
    requires F <= E && BackwardClosed(E, s) && b in s
    requires forall e :: e in E && e.1 in s ==> e in F
    ensures Reaches(F, a, b) <==> Reaches(E, a, b)
  {
    if Reaches(F, a, b) { ReachesMono(F, E, a, b); }
    if Reaches(E, a, b) {
      var p :| Joins(E, p, a, b);
      var i := |p| - 1;
      while i > 0
        invariant 0 <= i < |p| && p[i] in s
        invariant forall k :: i <= k < |p| - 1 ==> (p[k], p[k + 1]) in F
      {
        assert (p[i - 1], p[i]) in E;
        i := i - 1;
      }
      assert Joins(F, p, a, b);
    }
  }

  /** Cutting a graph down to a forward-closed set keeps what the nodes in it lead to. */
  lemma RestrictForward(E: Edges, F: Edges, s: set<Id>, a: Id, b: Id)
    requires F <= E && ForwardClosed(E, s) && a in s
    requires forall e :: e in E && e.0 in s ==> e in F
    ensures Reaches(F, a, b) <==> Reaches(E, a, b)
  {
    if Reaches(F, a, b) { ReachesMono(F, E, a, b); }
    if Reaches(E, a, b) {
      var p :| Joins(E, p, a, b);
      for i := 0 to |p| - 1
        invariant p[i] in s && forall k :: 0 <= k < i ==> (p[k], p[k + 1]) in F
      {
        assert (p[i], p[i + 1]) in E;
      }
      assert Joins(F, p, a, b);
    }
  }

  // ---------- Acyclicity ----------

  /** `rank` strictly grows along every edge. */
  ghost predicate Ranked(E: Edges, rank: Id -> nat) {
    forall e :: e in E ==> rank(e.0) < rank(e.1)
  }

  /** A finite graph has no cycle exactly when its nodes can be ranked. */
  ghost predicate Acyclic(E: Edges) {
    exists rank :: Ranked(E, rank)
  }

  lemma AcyclicSubset(E: Edges, F: Edges)
    requires E <= F && Acyclic(F)
    ensures Acyclic(E)
  {
    var rank :| Ranked(F, rank);
    assert Ranked(E, rank);
  }

  lemma {:induction false} RankBound(s: set<Id>, rank: Id -> nat) returns (bound: nat)
    ensures forall x :: x in s ==> rank(x) <= bound
  {
    bound := 0;
    if s != {} {
      var x :| x in s;
      bound := RankBound(s - {x}, rank);
      if rank(x) > bound { bound := rank(x); }
    }
  }

  /** A rank that drops along every edge instead. */
  lemma FlipRank(E: Edges) returns (rank: Id -> nat)
    requires Acyclic(E)
    ensures forall e :: e in E ==> rank(e.1) < rank(e.0)
  {
    var up: Id -> nat :| Ranked(E, up);
    var targets := set e | e in E :: e.1;
    var bound := RankBound(targets, up);
    rank := x => if up(x) <= bound then bound - up(x) else 0;
    forall e | e in E ensures rank(e.1) < rank(e.0) {
      assert e.1 in targets && up(e.0) < up(e.1);
    }
  }

  lemma RankGrows(E: Edges, rank: Id -> nat, a: Id, b: Id)
    requires Ranked(E, rank) && ProperlyReaches(E, a, b)
    ensures rank(a) < rank(b)
  {
    var p :| Joins(E, p, a, b);
    for i := 1 to |p|
      invariant i < |p| && rank(a) < rank(p[i])
    {
      if i == |p| - 1 { break; }
      assert (p[i], p[i + 1]) in E;
    }
  }

  // ---------- Walk weight ----------

  /** `rank` strictly drops along every `next` list. */
  ghost predicate Descending(next: map<Id, seq<Id>>, rank: Id -> nat) {
    forall n, m :: n in next && m in next[n] ==> rank(m) < rank(n)
  }

  ghost function Total(w: Id -> nat, ns: seq<Id>): nat {
    if ns == [] then 0 else Total(w, ns[..|ns| - 1]) + w(ns[|ns| - 1])
  }

  lemma {:induction false} TotalConcat(w: Id -> nat, xs: seq<Id>, ys: seq<Id>)
    ensures Total(w, xs + ys) == Total(w, xs) + Total(w, ys)
  {
    if ys == [] {
      assert xs + ys == xs;
    } else {
      TotalConcat(w, xs, ys[..|ys| - 1]);
      assert (xs + ys)[..|xs + ys| - 1] == xs + ys[..|ys| - 1];
    }
  }

  /** A node weighs more than everything after it. */
  ghost predicate Heavier(next: map<Id, seq<Id>>, w: Id -> nat, n: Id) {
    n in next ==> Total(w, next[n]) < w(n)
  }

  /** Replacing any node by everything after it makes the total weight smaller. */
  ghost predicate Weighs(next: map<Id, seq<Id>>, w: Id -> nat) {
    forall n :: Heavier(next, w, n)
  }

  /** The number of nodes of the tree obtained by unfolding the graph from `n`. */
  ghost function Unfolded(next: map<Id, seq<Id>>, rank: Id -> nat, n: Id): nat
    requires Descending(next, rank)
    decreases rank(n) + 1, 0
  {
    if n in next then 1 + UnfoldedAll(next, rank, rank(n), next[n]) else 1
  }

  ghost function UnfoldedAll(next: map<Id, seq<Id>>, rank: Id -> nat, bound: nat, ns: seq<Id>): nat
    requires Descending(next, rank)
    requires forall m :: m in ns ==> rank(m) < bound
    decreases bound, |ns|
  {
    if ns == [] then 0
    else UnfoldedAll(next, rank, bound, ns[..|ns| - 1]) + Unfolded(next, rank, ns[|ns| - 1])
  }

  lemma {:induction false} UnfoldedTotal(next: map<Id, seq<Id>>, rank: Id -> nat, bound: nat, ns: seq<Id>, w: Id -> nat)
    requires Descending(next, rank)
    requires forall m :: m in ns ==> rank(m) < bound
    requires forall n :: w(n) == Unfolded(next, rank, n)
    ensures UnfoldedAll(next, rank, bound, ns) == Total(w, ns)
  {
    if ns != [] { UnfoldedTotal(next, rank, bound, ns[..|ns| - 1], w); }
  }

  /** Every acyclic `next` relation has such a weight: the size of the unfolded tree. */
  lemma WeightExists(next: map<Id, seq<Id>>, rank: Id -> nat) returns (w: Id -> nat)
    requires Descending(next, rank)
    ensures Weighs(next, w)
  {
    w := n => Unfolded(next, rank, n);
    forall n ensures Heavier(next, w, n) {
      if n in next { UnfoldedTotal(next, rank, rank(n), next[n], w); }
    }
  }
}
