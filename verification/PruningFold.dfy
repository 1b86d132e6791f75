/** Folding a topological listing of a graph while pruning everything below a rejected node
    (cob/src/pruning_fold.rs). */
module PruningFold {
  import opened Graph

  datatype Node<+D> = Node(id: Id, children: seq<Id>, data: D)

  datatype Step<+A> = Continue(state: A) | Break(state: A)

  /** The child lists of the nodes as edges. */
  ghost function ChildEdges<D>(items: seq<Node<D>>): Edges {
    set i, c | 0 <= i < |items| && c in items[i].children :: (items[i].id, c)
  }

  /** Distinct nodes, each listed before all of its children. */
  ghost predicate Topological<D>(items: seq<Node<D>>) {
    && (forall i, j :: 0 <= i < j < |items| ==> items[i].id != items[j].id)
    && (forall i, j :: 0 <= j <= i < |items| ==> items[j].id !in items[i].children)
  }

  /** `id` has a proper ancestor among the broken nodes. */
  ghost predicate Pruned(E: Edges, broken: set<Id>, id: Id) {
    exists b :: b in broken && ProperlyReaches(E, b, id)
  }

  /** The reference: the callback is applied, in order, to the nodes no proper ancestor of
      which it broke on. Returns the final state and the nodes it broke on. */
  ghost function Run<A, D>(items: seq<Node<D>>, n: nat, init: A, f: (A, Node<D>) -> Step<A>): (A, set<Id>)
    requires n <= |items|
  {
    if n == 0 then (init, {}) else
      var (s, broken) := Run(items, n - 1, init, f);
      var node := items[n - 1];
      if Pruned(ChildEdges(items), broken, node.id) then (s, broken)
      else match f(s, node)
        case Continue(s') => (s', broken)
        case Break(s') => (s', broken + {node.id})
  }

  // ---------- Listings and ancestors ----------

  ghost function Position<D>(items: seq<Node<D>>, id: Id): nat {
    if exists i :: 0 <= i < |items| && items[i].id == id
    then var i :| 0 <= i < |items| && items[i].id == id; i
    else |items|
  }

  lemma PositionOf<D>(items: seq<Node<D>>, i: nat)
    requires Topological(items) && i < |items|
    ensures Position(items, items[i].id) == i
  {
  }

  /** In a topological listing ancestors come first. */
  lemma AncestorsFirst<D>(items: seq<Node<D>>, i: nat, j: nat)
    requires Topological(items) && i < |items| && j < |items|
    requires ProperlyReaches(ChildEdges(items), items[i].id, items[j].id)
    ensures i < j
  {
    ListingRanks(items);
    RankGrows(ChildEdges(items), id => Position(items, id), items[i].id, items[j].id);
    PositionOf(items, i);
    PositionOf(items, j);
  }

  lemma ListingRanks<D>(items: seq<Node<D>>)
    requires Topological(items)
    ensures Ranked(ChildEdges(items), id => Position(items, id))
  {
    forall e | e in ChildEdges(items) ensures Position(items, e.0) < Position(items, e.1) {
      var i :| 0 <= i < |items| && items[i].id == e.0 && e.1 in items[i].children;
      PositionOf(items, i);
    }
  }

  lemma BrokenGrows<A, D>(items: seq<Node<D>>, n: nat, init: A, f: (A, Node<D>) -> Step<A>)
    requires n < |items|
    ensures Run(items, n + 1, init, f).1 == Run(items, n, init, f).1
         || Run(items, n + 1, init, f).1 == Run(items, n, init, f).1 + {items[n].id}
  {
  }

  lemma {:induction false} BrokenAreListed<A, D>(items: seq<Node<D>>, n: nat, init: A, f: (A, Node<D>) -> Step<A>,
                                                 b: Id)
    requires n <= |items| && b in Run(items, n, init, f).1
    ensures exists i :: 0 <= i < n && items[i].id == b
  {
    BrokenGrows(items, n - 1, init, f);
    if b in Run(items, n - 1, init, f).1 {
      BrokenAreListed(items, n - 1, init, f, b);
    } else {
      assert items[n - 1].id == b;
    }
  }

  lemma PrunedByOthers(E: Edges, broken: set<Id>, b: Id, id: Id)
    requires !ProperlyReaches(E, b, id)
    ensures Pruned(E, broken + {b}, id) <==> Pruned(E, broken, id)
  {
  }

  /** A node broken on later is no ancestor: what was pruned stays pruned, and no more. */
  lemma {:induction false} LaterBreaksIrrelevant<A, D>(items: seq<Node<D>>, k: nat, n: nat, init: A,
                                                       f: (A, Node<D>) -> Step<A>)
    requires Topological(items) && k <= n <= |items| && k < |items|
    ensures Pruned(ChildEdges(items), Run(items, n, init, f).1, items[k].id)
       <==> Pruned(ChildEdges(items), Run(items, k, init, f).1, items[k].id)
  {
    if k < n {
      LaterBreaksIrrelevant(items, k, n - 1, init, f);
      BrokenGrows(items, n - 1, init, f);
      NoLaterAncestor(items, n - 1, k);
      PrunedByOthers(ChildEdges(items), Run(items, n - 1, init, f).1, items[n - 1].id, items[k].id);
    }
  }

  lemma NoLaterAncestor<D>(items: seq<Node<D>>, i: nat, k: nat)
    requires Topological(items) && k <= i < |items|
    ensures !ProperlyReaches(ChildEdges(items), items[i].id, items[k].id)
  {
    if ProperlyReaches(ChildEdges(items), items[i].id, items[k].id) {
      AncestorsFirst(items, i, k);
    }
  }

  // ---------- The two maps of rejected nodes ----------

  /** `id` is broken on, or pruned. */
  ghost predicate Tainted(E: Edges, broken: set<Id>, id: Id) {
    id in broken || Pruned(E, broken, id)
  }

  /** A node is pruned exactly when one of its parents, all listed before it, is tainted. */
  lemma PrunedByParent<D>(items: seq<Node<D>>, n: nat, broken: set<Id>)
    requires Topological(items) && n < |items|
    requires forall b :: b in broken ==> b != items[n].id
    ensures Pruned(ChildEdges(items), broken, items[n].id)
       <==> exists i :: 0 <= i < n && TaintedParent(items, broken, i, items[n].id)
  {
    var E := ChildEdges(items);
    var id := items[n].id;
    if Pruned(E, broken, id) {
      var b :| b in broken && ProperlyReaches(E, b, id);
      var c := LastStep(E, b, id);
      var i :| 0 <= i < |items| && items[i].id == c && id in items[i].children;
      assert i < n && TaintedParent(items, broken, i, id);
    }
    forall i | 0 <= i < n && TaintedParent(items, broken, i, id) ensures Pruned(E, broken, id) {
      PrunedBelow(items, broken, i, id);
    }
  }

  ghost predicate TaintedParent<D>(items: seq<Node<D>>, broken: set<Id>, i: int, id: Id) {
    0 <= i < |items| && id in items[i].children && Tainted(ChildEdges(items), broken, items[i].id)
  }

  lemma PrunedBelow<D>(items: seq<Node<D>>, broken: set<Id>, i: nat, id: Id)
    requires TaintedParent(items, broken, i, id)
    requires id !in broken
    ensures Pruned(ChildEdges(items), broken, id)
  {
    var E := ChildEdges(items);
    var p := items[i].id;
    assert (p, id) in E;
    ReachesEdge(E, p, id);
    if p !in broken {
      var b :| b in broken && ProperlyReaches(E, b, p);
      ReachesTrans(E, b, p, id);
    }
  }

  /** Of the nodes still to come, exactly the children of tainted nodes are marked. */
  ghost predicate Marked<D>(items: seq<Node<D>>, n: nat, broken: set<Id>, marks: map<Id, Id>) {
    forall j :: n <= j < |items| ==>
      (items[j].id in marks <==> exists i :: 0 <= i < n && TaintedParent(items, broken, i, items[j].id))
  }

  /** Every recorded rejected ancestor is a node broken on, and a proper ancestor. */
  ghost predicate RealAncestors(E: Edges, broken: set<Id>, marks: map<Id, Id>) {
    forall x :: x in marks ==> marks[x] in broken && ProperlyReaches(E, marks[x], x)
  }

  lemma EarlierTaint<D>(items: seq<Node<D>>, i: nat, n: nat, broken: set<Id>, broken': set<Id>)
    requires Topological(items) && i < n < |items|
    requires broken' == broken || broken' == broken + {items[n].id}
    ensures Tainted(ChildEdges(items), broken', items[i].id) <==> Tainted(ChildEdges(items), broken, items[i].id)
  {
    NoLaterAncestor(items, n, i);
    PrunedByOthers(ChildEdges(items), broken, items[n].id, items[i].id);
  }

  lemma MarkStep<D>(items: seq<Node<D>>, n: nat, broken: set<Id>, broken': set<Id>, marks: map<Id, Id>,
                    marks': map<Id, Id>)
    requires Topological(items) && n < |items| && Marked(items, n, broken, marks)
    requires broken' == broken || broken' == broken + {items[n].id}
    requires forall x ::
               x in marks' <==>
               x in marks || (Tainted(ChildEdges(items), broken', items[n].id) && x in items[n].children)
    ensures Marked(items, n + 1, broken', marks')
  {
    forall j | n + 1 <= j < |items|
      ensures items[j].id in marks' <==> exists i :: 0 <= i < n + 1 && TaintedParent(items, broken', i, items[j].id)
    {
      var id := items[j].id;
      forall i | 0 <= i < n ensures TaintedParent(items, broken', i, id) <==> TaintedParent(items, broken, i, id) {
        EarlierTaint(items, i, n, broken, broken');
      }
      assert TaintedParent(items, broken', n, id)
             <==> Tainted(ChildEdges(items), broken', items[n].id) && id in items[n].children;
    }
  }

  /** Marking the children of a tainted node with its ancestor records real ancestors. */
  lemma RealStep<D>(items: seq<Node<D>>, n: nat, broken: set<Id>, marks: map<Id, Id>, marks': map<Id, Id>, ancestor: Id)
    requires Topological(items) && n < |items| && RealAncestors(ChildEdges(items), broken, marks)
    requires forall b :: b in broken ==> exists i :: 0 <= i <= n && items[i].id == b
    requires ancestor in broken && Reaches(ChildEdges(items), ancestor, items[n].id)
    requires forall x :: x in marks' <==> x in marks || x in items[n].children
    requires forall x :: x in marks' ==> marks'[x] == if x in items[n].children then ancestor else marks[x]
    ensures RealAncestors(ChildEdges(items), broken, marks')
  {
    var E := ChildEdges(items);
    forall x | x in items[n].children ensures ProperlyReaches(E, ancestor, x) {
      assert (items[n].id, x) in E;
      ReachesEdge(E, items[n].id, x);
      ReachesTrans(E, ancestor, items[n].id, x);
      var i :| 0 <= i <= n && items[i].id == ancestor;
      assert items[i].id !in items[n].children;
    }
  }

  // ---------- The fold ----------

  class RejectedNodes {
    /** Nodes the callback broke on. */
    var direct: set<Id>
    /** From a node to an ancestor of it that the callback broke on. */
    var transitive: map<Id, Id>

    constructor ()
      ensures direct == {} && transitive == map[]
    {
      direct, transitive := {}, map[];
    }

    method DirectlyReject(node: Id, children: seq<Id>)
      modifies this
      ensures direct == old(direct) + {node}
      ensures Recorded(old(transitive), children, node, transitive)
    {
      direct := direct + {node};
      RejectChildren(children, node);
    }

    /** The children of a rejected node, one by one. */
    method RejectChildren(children: seq<Id>, ancestor: Id)
      modifies this`transitive
      ensures Recorded(old(transitive), children, ancestor, transitive)
    {
      for i := 0 to |children|
        invariant Recorded(old(transitive), children[..i], ancestor, transitive)
      {
        transitive := transitive[children[i] := ancestor];
      }
      assert children[..|children|] == children;
    }
  }

  ghost predicate Recorded(marks: map<Id, Id>, children: seq<Id>, ancestor: Id, marks': map<Id, Id>) {
    && (forall x :: x in marks' <==> x in marks || x in children)
    && (forall x :: x in marks' ==> marks'[x] == if x in children then ancestor else marks[x])
  }

  ghost predicate FoldState<A, D>(items: seq<Node<D>>, n: nat, init: A, f: (A, Node<D>) -> Step<A>,
                                  state: A, direct: set<Id>, marks: map<Id, Id>)
    requires n <= |items|
  {
    && Run(items, n, init, f) == (state, direct)
    && Marked(items, n, direct, marks)
    && RealAncestors(ChildEdges(items), direct, marks)
  }

  /** What the marks say about the next node. */
  lemma NextNode<A, D>(items: seq<Node<D>>, n: nat, init: A, f: (A, Node<D>) -> Step<A>, state: A, direct: set<Id>,
                       marks: map<Id, Id>)
    requires Topological(items) && n < |items| && FoldState(items, n, init, f, state, direct, marks)
    ensures items[n].id !in direct
    ensures items[n].id in marks <==> Pruned(ChildEdges(items), direct, items[n].id)
    ensures forall b :: b in direct ==> exists i :: 0 <= i < n && items[i].id == b
  {
    forall b | b in direct ensures exists i :: 0 <= i < n && items[i].id == b {
      BrokenAreListed(items, n, init, f, b);
    }
    PrunedByParent(items, n, direct);
  }

  lemma SkippedNode<A, D>(items: seq<Node<D>>, n: nat, init: A, f: (A, Node<D>) -> Step<A>, state: A, direct: set<Id>,
                          marks: map<Id, Id>, marks': map<Id, Id>)
    requires Topological(items) && n < |items| && FoldState(items, n, init, f, state, direct, marks)
    requires items[n].id in marks && Recorded(marks, items[n].children, marks[items[n].id], marks')
    ensures FoldState(items, n + 1, init, f, state, direct, marks')
  {
    NextNode(items, n, init, f, state, direct, marks);
    MarkStep(items, n, direct, direct, marks, marks');
    RealStep(items, n, direct, marks, marks', marks[items[n].id]);
  }

  lemma BrokenNode<A, D>(items: seq<Node<D>>, n: nat, init: A, f: (A, Node<D>) -> Step<A>, state: A, direct: set<Id>,
                         marks: map<Id, Id>, marks': map<Id, Id>)
    requires Topological(items) && n < |items| && FoldState(items, n, init, f, state, direct, marks)
    requires items[n].id !in marks && f(state, items[n]).Break?
             && Recorded(marks, items[n].children, items[n].id, marks')
    ensures FoldState(items, n + 1, init, f, f(state, items[n]).state, direct + {items[n].id}, marks')
  {
    NextNode(items, n, init, f, state, direct, marks);
    var direct' := direct + {items[n].id};
    MarkStep(items, n, direct, direct', marks, marks');
    ReachesSelf(ChildEdges(items), items[n].id);
    RealStep(items, n, direct', marks, marks', items[n].id);
  }

  lemma AcceptedNode<A, D>(items: seq<Node<D>>, n: nat, init: A, f: (A, Node<D>) -> Step<A>, state: A, direct: set<Id>,
                           marks: map<Id, Id>)
    requires Topological(items) && n < |items| && FoldState(items, n, init, f, state, direct, marks)
    requires items[n].id !in marks && f(state, items[n]).Continue?
    ensures FoldState(items, n + 1, init, f, f(state, items[n]).state, direct, marks)
  {
    NextNode(items, n, init, f, state, direct, marks);
    MarkStep(items, n, direct, direct, marks, marks);
  }

  /** `ancestors` is the final record of rejected ancestors, `broken` the nodes broken on. The
      listing is expected to be topological, but nothing checks that it is. */
  method Fold<A, D>(init: A, items: seq<Node<D>>, f: (A, Node<D>) -> Step<A>)
    returns (state: A, ghost broken: set<Id>, ghost ancestors: map<Id, Id>)
    ensures Topological(items) ==> (state, broken) == Run(items, |items|, init, f)
    ensures Topological(items) ==> RealAncestors(ChildEdges(items), broken, ancestors)
  {
    var rejected := new RejectedNodes();
    state := init;
    for n := 0 to |items|
      invariant Topological(items) ==> FoldState(items, n, init, f, state, rejected.direct, rejected.transitive)
    {
      state := FoldOne(items, n, init, f, state, rejected);
    }
    broken, ancestors := rejected.direct, rejected.transitive;
  }

  /** One node of the fold. */
  method FoldOne<A, D>(items: seq<Node<D>>, n: nat, ghost init: A, f: (A, Node<D>) -> Step<A>, before: A,
                       rejected: RejectedNodes)
    returns (state: A)
    requires n < |items|
    requires Topological(items) ==> FoldState(items, n, init, f, before, rejected.direct, rejected.transitive)
    modifies rejected
    ensures Topological(items) ==> FoldState(items, n + 1, init, f, state, rejected.direct, rejected.transitive)
  {
    var node := items[n];
    ghost var marks, direct := rejected.transitive, rejected.direct;
    state := before;
    if node.id in rejected.direct {
      if Topological(items) { NextNode(items, n, init, f, before, direct, marks); }
      return;
    }
    if node.id in rejected.transitive {
      rejected.RejectChildren(node.children, rejected.transitive[node.id]);
      if Topological(items) { SkippedNode(items, n, init, f, before, direct, marks, rejected.transitive); }
      return;
    }
    match f(before, node) {
      case Continue(s) =>
        state := s;
        if Topological(items) { AcceptedNode(items, n, init, f, before, direct, marks); }
      case Break(s) =>
        rejected.DirectlyReject(node.id, node.children);
        state := s;
        if Topological(items) { BrokenNode(items, n, init, f, before, direct, marks, rejected.transitive); }
    }
  }
}
