/** The order in which a history is traversed, and what a traversal prunes after an entry was
    appended (cob/src/history.rs). */
module Traversal {
  import opened Graph
  import opened HistoryGraph
  import opened History
  import CobSpec
  import PruningFold

  // ---------- Orders with parents first ----------

  /** No entry is listed at or before a parent of it. */
  ghost predicate ParentsFirst(items: seq<PruningFold.Node<Entry>>) {
    forall i, j :: 0 <= j <= i < |items| ==> items[j].id !in items[i].children
  }

  ghost predicate AlwaysParentsFirst(g: NewGraph) {
    forall order | IsTopo(g, order) :: ParentsFirst(Items(g, order))
  }

  /** An id is listed by one entry at most. */
  ghost predicate OneParent(root: Id, entries: Entries) {
    forall m, k, m', k' ::
      (ListedAt(root, entries, m, k) && ListedAt(root, entries, m', k')
       && entries[m].children[k] == entries[m'].children[k'])
      ==> m == m'
  }

  /** An id is listed by one entry at most, and by that once if it has children. */
  ghost predicate ParentsAgree(root: Id, entries: Entries) {
    OneParent(root, entries) && BranchesOnce(root, entries)
  }

  /** Going down the edges takes the ids down as well. */
  lemma NodeRank(root: Id, entries: Entries, g: NewGraph, rank: Id -> nat, p: nat, q: nat)
    requires GraphOk(root, entries, g) && Descending(ChildLists(entries), rank)
    requires p < |g.nodes| && Reaches(g.edges, p, q)
    ensures q < |g.nodes| && (p == q || rank(g.nodes[q].id) < rank(g.nodes[p].id))
  {
    var path :| Joins(g.edges, path, p, q);
    for i := 0 to |path| - 1
      invariant path[i] < |g.nodes| && rank(g.nodes[path[i]].id) + i <= rank(g.nodes[p].id)
    {
      assert (path[i], path[i + 1]) in g.edges;
      EdgeRank(root, entries, g, rank, path[i], path[i + 1]);
    }
  }

  lemma EdgeRank(root: Id, entries: Entries, g: NewGraph, rank: Id -> nat, p: nat, q: nat)
    requires GraphOk(root, entries, g) && Descending(ChildLists(entries), rank) && (p, q) in g.edges
    ensures p < |g.nodes| && q < |g.nodes| && g.nodes[q].id in g.nodes[p].children
    ensures rank(g.nodes[q].id) < rank(g.nodes[p].id)
  {
    assert EdgeOk(g, (p, q)) && NodeOk(root, entries, g, p);
    assert g.nodes[q].id in ChildLists(entries)[g.nodes[p].id];
  }

  /** A node that is listed as a child of a node hangs below it. */
  lemma HangsBelow(root: Id, entries: Entries, g: NewGraph, visited: seq<Id>, i: nat, j: nat)
    requires Built(root, entries, g, [], visited) && AcyclicEntries(entries) && ParentsAgree(root, entries)
    requires i < |g.nodes| && j < |g.nodes| && g.nodes[j].id in g.nodes[i].children
    ensures (i, j) in g.edges
  {
    var x := g.nodes[j].id;
    NotTheRoot(root, entries, g, i, x);
    assert Entered(g, j);
    var p: nat :| (p, j) in g.edges;
    assert EdgeOk(g, (p, j)) && NodeOk(root, entries, g, p) && NodeOk(root, entries, g, i);
    var k :| 0 <= k < |g.nodes[i].children| && g.nodes[i].children[k] == x;
    var l :| 0 <= l < |g.nodes[p].children| && g.nodes[p].children[l] == x;
    assert ListedAt(root, entries, g.nodes[i].id, k) && ListedAt(root, entries, g.nodes[p].id, l);
    BranchesHaveOneNode(root, entries, g, visited, p, i);
  }

  lemma NotTheRoot(root: Id, entries: Entries, g: NewGraph, i: nat, x: Id)
    requires GraphOk(root, entries, g) && AcyclicEntries(entries) && i < |g.nodes| && x in g.nodes[i].children
    ensures x != root
  {
    var rank :| Descending(ChildLists(entries), rank);
    assert NodeOk(root, entries, g, i);
    RankDrops(entries, rank, root, g.nodes[i].id);
    assert x in ChildLists(entries)[g.nodes[i].id];
  }

  lemma AgreeParentsFirst(root: Id, entries: Entries, g: NewGraph, visited: seq<Id>, order: seq<nat>)
    requires Built(root, entries, g, [], visited) && AcyclicEntries(entries) && ParentsAgree(root, entries)
    requires IsTopo(g, order)
    ensures ParentsFirst(Items(g, order))
  {
    var items := Items(g, order);
    forall i, j | 0 <= j <= i < |items| ensures items[j].id !in items[i].children {
      if items[j].id in items[i].children {
        HangsBelow(root, entries, g, visited, order[i], order[j]);
      }
    }
  }

  // ---------- An order with a child first ----------

  /** The members of `s` below `n`, in increasing order. */
  ghost function Pick(s: set<nat>, n: nat): seq<nat> {
    if n == 0 then [] else Pick(s, n - 1) + (if n - 1 in s then [n - 1] else [])
  }

  lemma {:induction false} Picked(s: set<nat>, n: nat)
    ensures forall x :: x in Pick(s, n) <==> x in s && x < n
    ensures forall i, j :: 0 <= i < j < |Pick(s, n)| ==> Pick(s, n)[i] < Pick(s, n)[j]
  {
    if n > 0 {
      var init := Pick(s, n - 1);
      Picked(s, n - 1);
      forall i | 0 <= i < |init| ensures init[i] < n - 1 { assert init[i] in init; }
    }
  }

  lemma PickIndex(s: set<nat>, n: nat, x: nat) returns (i: nat)
    requires x in s && x < n
    ensures i < |Pick(s, n)| && Pick(s, n)[i] == x
  {
    Picked(s, n);
    i :| 0 <= i < |Pick(s, n)| && Pick(s, n)[i] == x;
  }

  /** The nodes that lead to `v`, and the others. */
  ghost function Leading(g: NewGraph, v: nat): set<nat> {
    set i: nat | i < |g.nodes| && Reaches(g.edges, i, v)
  }

  ghost function Others(g: NewGraph, v: nat): set<nat> {
    set i: nat | i < |g.nodes| && !Reaches(g.edges, i, v)
  }

  /** What leads to `v`, in the order in which the nodes were made, and then the other nodes. */
  ghost function Early(g: NewGraph, v: nat): seq<nat> {
    Pick(Leading(g, v), |g.nodes|) + Pick(Others(g, v), |g.nodes|)
  }

  lemma EarlyOrder(root: Id, g: NewGraph, v: nat)
    requires Tree(root, g)
    ensures IsTopo(g, Early(g, v))
  {
    var n, order, above := |g.nodes|, Early(g, v), Leading(g, v);
    var a, b := Pick(above, n), Pick(Others(g, v), n);
    Picked(above, n);
    Picked(Others(g, v), n);
    forall k | 0 <= k < |order| ensures order[k] < n { assert order[k] in a || order[k] in b; }
    forall i | 0 <= i < n ensures i in order { assert i in above || i in Others(g, v); }
    forall j, k | 0 <= j < k < |order| ensures order[j] != order[k] { Apart(a, b, above, j, k); }
    forall j, k | 0 <= j < |order| && 0 <= k < |order| && (order[j], order[k]) in g.edges ensures j < k {
      EdgeForward(g, v, a, b, above, j, k);
    }
  }

  ghost predicate Sorted(a: seq<nat>) {
    forall i, j :: 0 <= i < j < |a| ==> a[i] < a[j]
  }

  lemma Apart(a: seq<nat>, b: seq<nat>, above: set<nat>, j: nat, k: nat)
    requires Sorted(a) && Sorted(b) && (forall x :: x in a ==> x in above) && (forall x :: x in b ==> x !in above)
    requires j < k < |a + b|
    ensures (a + b)[j] != (a + b)[k]
  {
    if j < |a| <= k { assert a[j] in a && b[k - |a|] in b; }
  }

  lemma EdgeForward(g: NewGraph, v: nat, a: seq<nat>, b: seq<nat>, above: set<nat>, j: nat, k: nat)
    requires Sorted(a) && Sorted(b) && (forall x :: x in b ==> x !in above)
    requires forall x :: x in a <==> x in above
    requires above == Leading(g, v)
    requires forall e :: e in g.edges ==> e.0 < e.1 < |g.nodes|
    requires j < |a + b| && k < |a + b| && ((a + b)[j], (a + b)[k]) in g.edges
    ensures j < k
  {
    var p, q := (a + b)[j], (a + b)[k];
    forall i | |a| <= i < |a + b| ensures (a + b)[i] !in above { assert b[i - |a|] in b; }
    if k < |a| {
      assert a[k] in a;
      ReachesEdge(g.edges, p, q);
      ReachesTrans(g.edges, p, q, v);
      assert p in above;
    }
  }

  /** If `u` does not lead to `v`, some order has `v` first. */
  lemma SomeOrder(root: Id, g: NewGraph, u: nat, v: nat) returns (p: nat, q: nat)
    requires Tree(root, g) && u < |g.nodes| && v < |g.nodes| && !Reaches(g.edges, u, v)
    ensures IsTopo(g, Early(g, v))
    ensures p < q < |Early(g, v)| && Early(g, v)[p] == v && Early(g, v)[q] == u
  {
    EarlyOrder(root, g, v);
    ReachesSelf(g.edges, v);
    p := PickIndex(Leading(g, v), |g.nodes|, v);
    var k := PickIndex(Others(g, v), |g.nodes|, u);
    q := |Pick(Leading(g, v), |g.nodes|)| + k;
  }

  /** A node and a child of its entry that does not hang below it. */
  ghost predicate Detached(g: NewGraph, u: nat, v: nat) {
    u < |g.nodes| && v < |g.nodes| && g.nodes[v].id in g.nodes[u].children && !Reaches(g.edges, u, v)
  }

  lemma DetachedChild(root: Id, g: NewGraph, u: nat, v: nat)
    requires Tree(root, g) && Detached(g, u, v)
    ensures !AlwaysParentsFirst(g)
  {
    var p, q := SomeOrder(root, g, u, v);
    var items := Items(g, Early(g, v));
    assert items[p].id in items[q].children;
  }

  /** What leads to a node from elsewhere leads to the one node above it. */
  lemma ThroughParent(root: Id, g: NewGraph, q: nat, p: nat, w: nat)
    requires Tree(root, g) && (p, w) in g.edges && ProperlyReaches(g.edges, q, w)
    ensures Reaches(g.edges, q, p)
  {
    var c := LastStep(g.edges, q, w);
    assert (c, w) in g.edges;
  }

  /** Nodes of one id below nodes of different ids: not all of them hang below both. */
  lemma TwoParents(root: Id, entries: Entries, g: NewGraph, rank: Id -> nat, pa: nat, va: nat, pb: nat, vb: nat)
    requires Tree(root, g) && GraphOk(root, entries, g) && Descending(ChildLists(entries), rank)
    requires (pa, va) in g.edges && (pb, vb) in g.edges
    requires g.nodes[va].id == g.nodes[vb].id && g.nodes[pa].id != g.nodes[pb].id
    ensures Detached(g, pa, vb) || Detached(g, pb, va)
  {
    EdgeRank(root, entries, g, rank, pa, va);
    EdgeRank(root, entries, g, rank, pb, vb);
    if Reaches(g.edges, pa, vb) && Reaches(g.edges, pb, va) {
      ThroughParent(root, g, pa, pb, vb);
      ThroughParent(root, g, pb, pa, va);
      NodeRank(root, entries, g, rank, pa, pb);
      NodeRank(root, entries, g, rank, pb, pa);
    }
  }

  /** Of several nodes of an id only one has the children below it. */
  lemma TwoNodes(root: Id, entries: Entries, g: NewGraph, rank: Id -> nat, p: nat, w: nat, q: nat)
    requires Tree(root, g) && GraphOk(root, entries, g) && Descending(ChildLists(entries), rank)
    requires (p, w) in g.edges && q < |g.nodes| && q != p && g.nodes[q].id == g.nodes[p].id
    ensures Detached(g, q, w)
  {
    EdgeRank(root, entries, g, rank, p, w);
    assert NodeOk(root, entries, g, p) && NodeOk(root, entries, g, q);
    if Reaches(g.edges, q, w) {
      ThroughParent(root, g, q, p, w);
      NodeRank(root, entries, g, rank, q, p);
    }
  }

  lemma TwoParentsDetach(root: Id, entries: Entries, g: NewGraph, visited: seq<Id>)
    requires Built(root, entries, g, [], visited) && AcyclicEntries(entries) && !OneParent(root, entries)
    ensures exists u, v :: Detached(g, u, v)
  {
    var rank :| Descending(ChildLists(entries), rank);
    var m, k, m', k' :| ListedAt(root, entries, m, k) && ListedAt(root, entries, m', k')
                        && entries[m].children[k] == entries[m'].children[k'] && m != m';
    var p, v := EdgeFor(root, entries, g, visited, m, k);
    var p', v' := EdgeFor(root, entries, g, visited, m', k');
    TwoParents(root, entries, g, rank, p, v, p', v');
  }

  /** Every listed child has an edge into a node of it. */
  lemma EdgeFor(root: Id, entries: Entries, g: NewGraph, visited: seq<Id>, m: Id, k: nat) returns (p: nat, v: nat)
    requires Building(root, entries, g, [], visited) && ListedAt(root, entries, m, k)
    ensures (p, v) in g.edges && p < |g.nodes| && v < |g.nodes| && g.nodes[p].id == m
            && g.nodes[v].id == entries[m].children[k]
  {
    var x := entries[m].children[k];
    BuildDone(root, entries, g, visited);
    assert (m, x) in ChildLinks(entries);
    assert HasEdge(g, m, x);
    var e :| e in g.edges && e.0 < |g.nodes| && e.1 < |g.nodes| && g.nodes[e.0].id == m && g.nodes[e.1].id == x;
    p, v := e.0, e.1;
  }

  lemma TwoNodesDetach(root: Id, entries: Entries, g: NewGraph, visited: seq<Id>)
    requires Built(root, entries, g, [], visited) && AcyclicEntries(entries) && !BranchesOnce(root, entries)
    ensures exists u, v :: Detached(g, u, v)
  {
    var rank :| Descending(ChildLists(entries), rank);
    var x :| x in entries && entries[x].children != [] && !ListedOnce(root, entries, x);
    var i, j := ListedTwice(root, entries, g, visited, x);
    assert NodeOk(root, entries, g, i);
    var p, w := EdgeFor(root, entries, g, visited, x, 0);
    TwoNodes(root, entries, g, rank, p, w, if p == i then j else i);
  }

  lemma ListedTwice(root: Id, entries: Entries, g: NewGraph, visited: seq<Id>, x: Id) returns (i: nat, j: nat)
    requires Building(root, entries, g, [], visited) && !ListedOnce(root, entries, x)
    ensures i < j < |g.nodes| && g.nodes[i].id == g.nodes[j].id == x
  {
    var m, k, m', k' :| ListedAt(root, entries, m, k) && ListedAt(root, entries, m', k')
                        && entries[m].children[k] == x == entries[m'].children[k'] && !(m == m' && k == k');
    SharedCount(root, entries, g, visited, m, k, m', k');
    var ids := IdsOf(g.nodes);
    if forall i, j :: 0 <= i < j < |ids| ==> ids[i] != x || ids[j] != x { CountAtMostOne(ids, x); }
    i, j :| 0 <= i < j < |ids| && ids[i] == x && ids[j] == x;
  }

  /** Every topological order of the graph has parents first if and only if no id is listed by two
      entries, or twice by one although it has children. */
  lemma ParentsFirstIff(root: Id, entries: Entries, g: NewGraph, visited: seq<Id>)
    requires Built(root, entries, g, [], visited) && AcyclicEntries(entries)
    ensures AlwaysParentsFirst(g) <==> ParentsAgree(root, entries)
  {
    if ParentsAgree(root, entries) {
      forall order | IsTopo(g, order) ensures ParentsFirst(Items(g, order)) {
        AgreeParentsFirst(root, entries, g, visited, order);
      }
    } else {
      if !OneParent(root, entries) {
        TwoParentsDetach(root, entries, g, visited);
      } else {
        TwoNodesDetach(root, entries, g, visited);
      }
      var u, v :| Detached(g, u, v);
      DetachedChild(root, g, u, v);
    }
  }

  lemma DiamondUpward()
    ensures Upward(Diamond(), 3)
  {
  }

  lemma DiamondShares()
    ensures !ParentsAgree(0, Diamond())
  {
    var E := ChildLinks(Diamond());
    assert (0, 1) in E && (0, 2) in E;
    ReachesEdge(E, 0, 1);
    ReachesEdge(E, 0, 2);
    assert ListedAt(0, Diamond(), 1, 0) && ListedAt(0, Diamond(), 2, 0);
    assert Diamond()[1].children[0] == Diamond()[2].children[0];
  }

  /** Children have higher ids. */
  ghost predicate Upward(entries: Entries, bound: nat) {
    forall k, c :: k in entries && c in entries[k].children ==> k < c <= bound
  }

  lemma UpwardIsAcyclic(entries: Entries, bound: nat)
    requires Upward(entries, bound)
    ensures AcyclicEntries(entries)
  {
    var rank := (x: Id) => if x <= bound then bound - x else 0;
    assert Descending(ChildLists(entries), rank);
  }

  lemma UpwardOrders(root: Id, entries: Entries, bound: nat, g: NewGraph, visited: seq<Id>)
    requires Built(root, entries, g, [], visited) && Upward(entries, bound)
    ensures AlwaysParentsFirst(g) <==> ParentsAgree(root, entries)
  {
    UpwardIsAcyclic(entries, bound);
    ParentsFirstIff(root, entries, g, visited);
  }

  /** Some order of the diamond lists the last entry before one of its parents. */
  lemma DiamondOrder(g: NewGraph, visited: seq<Id>)
    requires Built(0, Diamond(), g, [], visited)
    ensures exists order :: IsTopo(g, order) && !ParentsFirst(Items(g, order))
  {
    DiamondShares();
    DiamondUpward();
    UpwardOrders(0, Diamond(), 3, g, visited);
  }

  /** One entry that lists another one twice. */
  function Twins(): Entries {
    map[0 := Entry(0, "", [1, 1], ""), 1 := Entry(1, "", [], "")]
  }

  lemma TwinsShare()
    ensures !NoSharedChild(0, Twins())
  {
    ReachesSelf(ChildLinks(Twins()), 0);
    assert ListedAt(0, Twins(), 0, 0) && ListedAt(0, Twins(), 0, 1);
    assert Twins()[0].children[0] == Twins()[0].children[1];
  }

  lemma TwinsAgree()
    ensures ParentsAgree(0, Twins()) && Upward(Twins(), 1)
  {
    forall m, k | ListedAt(0, Twins(), m, k) ensures m == 0 && Twins()[m].children[k] == 1 {}
  }

  /** A shared child alone does not spoil the order: every order of the twins has parents first. */
  lemma TwinsOrder(g: NewGraph, visited: seq<Id>)
    requires Built(0, Twins(), g, [], visited)
    ensures !NoSharedChild(0, Twins()) && AlwaysParentsFirst(g)
  {
    TwinsShare();
    TwinsAgree();
    UpwardOrders(0, Twins(), 1, g, visited);
  }

  // ---------- Traversing an extended history ----------

  /** The child lists of the nodes as edges. */
  ghost function NodeEdges(g: NewGraph): Edges {
    set i, c | 0 <= i < |g.nodes| && c in g.nodes[i].children :: (g.nodes[i].id, c)
  }

  lemma ListingEdges(g: NewGraph, order: seq<nat>)
    requires IsTopo(g, order)
    ensures PruningFold.ChildEdges(Items(g, order)) == NodeEdges(g)
  {
    var items := Items(g, order);
    forall e | e in NodeEdges(g) ensures e in PruningFold.ChildEdges(items) {
      var i :| 0 <= i < |g.nodes| && g.nodes[i].id == e.0 && e.1 in g.nodes[i].children;
      assert i in order;
      var k :| 0 <= k < |order| && order[k] == i;
      assert items[k].id == e.0 && e.1 in items[k].children;
    }
  }

  /** An entry without children that none of the entries knows. */
  ghost predicate Unknown(entries: Entries, entry: Entry) {
    entry.id !in entries && entry.children == [] && forall k :: k in entries ==> entry.id !in entries[k].children
  }

  /** A graph that was built, and can be extended by an entry. */
  ghost predicate Extensible(root: Id, entries: Entries, g: NewGraph, visited: seq<Id>, entry: Entry) {
    && Building(root, entries, g, [], visited) && AcyclicEntries(entries) && Unknown(entries, entry)
    && forall t :: t in TipsOf(g) ==> t in g.indices
  }

  lemma BuiltIsExtensible(root: Id, entries: Entries, g: NewGraph, visited: seq<Id>, entry: Entry)
    requires Building(root, entries, g, [], visited) && AcyclicEntries(entries) && Unknown(entries, entry)
    ensures Extensible(root, entries, g, visited, entry)
  {
    forall t | t in TipsOf(g) ensures t in g.indices { TipsAreNodes(root, entries, g, t); }
  }

  /** The child links after the entry was appended. */
  ghost function NewLinks(entries: Entries, g: NewGraph, entry: Entry): Edges {
    ChildLinks(Extended(entries, TipsOf(g), entry))
  }

  lemma NodeReach(root: Id, entries: Entries, g: NewGraph, visited: seq<Id>, a: Id, b: Id)
    requires Building(root, entries, g, [], visited) && a in NodeIds(g)
    ensures Reaches(NodeEdges(g), a, b) <==> Reaches(ChildLinks(entries), a, b)
  {
    var E, F, s := ChildLinks(entries), NodeEdges(g), NodeIds(g);
    BuildDone(root, entries, g, visited);
    forall e | e in F ensures e in E {
      var i :| 0 <= i < |g.nodes| && g.nodes[i].id == e.0 && e.1 in g.nodes[i].children;
      assert NodeOk(root, entries, g, i);
    }
    forall e | e in E && e.0 in s ensures e.1 in s && e in F {
      var i :| 0 <= i < |g.nodes| && g.nodes[i].id == e.0;
      assert NodeOk(root, entries, g, i);
      ReachesEdge(E, e.0, e.1);
      ReachesTrans(E, root, e.0, e.1);
    }
    RestrictForward(E, F, s, a, b);
  }

  lemma NewIsSink(root: Id, entries: Entries, g: NewGraph, visited: seq<Id>, entry: Entry)
    requires Extensible(root, entries, g, visited, entry)
    ensures AddsSink(ChildLinks(entries), NewLinks(entries, g, entry), entry.id)
    ensures TipsOf(g) <= entries.Keys && CobSpec.HoldsLeaves(root, entries, TipsOf(g))
    ensures forall e :: e in NodeEdges(g) ==> e.0 != entry.id && e.1 != entry.id
  {
    forall t | t in TipsOf(g) ensures t in entries { TipsAreNodes(root, entries, g, t); }
    forall x | x in entries && entries[x].children == [] && Reaches(ChildLinks(entries), root, x)
      ensures x in TipsOf(g)
    {
      LeavesAreTips(root, entries, g, visited, x);
    }
    CobSpec.ExtendedLinks(entries, TipsOf(g), entry);
    forall e | e in NodeEdges(g) ensures e.0 != entry.id && e.1 != entry.id {
      var i :| 0 <= i < |g.nodes| && g.nodes[i].id == e.0 && e.1 in g.nodes[i].children;
      assert NodeOk(root, entries, g, i);
    }
  }

  /** Between the entries that were there the child lists of the nodes are right. */
  lemma OldReach(root: Id, entries: Entries, g: NewGraph, visited: seq<Id>, entry: Entry, a: Id, b: Id)
    requires Extensible(root, entries, g, visited, entry) && b != entry.id && (a == entry.id || a in NodeIds(g))
    ensures Reaches(NodeEdges(g), a, b) <==> Reaches(NewLinks(entries, g, entry), a, b)
  {
    NewIsSink(root, entries, g, visited, entry);
    if a == entry.id {
      SinkReachesSelf(NodeEdges(g), a, b);
      SinkReachesSelf(NewLinks(entries, g, entry), a, b);
    } else {
      NodeReach(root, entries, g, visited, a, b);
      SinkReach(ChildLinks(entries), NewLinks(entries, g, entry), entry.id, a, b);
    }
  }

  /** Every entry leads to the new one, and no node does. */
  lemma NewReach(root: Id, entries: Entries, g: NewGraph, visited: seq<Id>, entry: Entry, a: Id)
    requires Extensible(root, entries, g, visited, entry)
    ensures !ProperlyReaches(NodeEdges(g), a, entry.id)
    ensures a in NodeIds(g) ==> ProperlyReaches(NewLinks(entries, g, entry), a, entry.id)
  {
    NewIsSink(root, entries, g, visited, entry);
    if ProperlyReaches(NodeEdges(g), a, entry.id) {
      var c := LastStep(NodeEdges(g), a, entry.id);
    }
    if a in NodeIds(g) {
      BuildDone(root, entries, g, visited);
      CobSpec.AllLeadToNew(root, entries, TipsOf(g), entry, a);
    }
  }

  ghost predicate PrunesRight(E: Edges, F: Edges, broken: set<Id>, x: Id) {
    PruningFold.Pruned(E, broken, x) <==> PruningFold.Pruned(F, broken, x)
  }

  /** A traversal of the extended graph prunes an entry that was there if and only if it broke on
      an ancestor, and never prunes the new entry. So it prunes as the entries say if and only if
      it broke on none of the entries that were there. */
  lemma ExtendedPrunes(root: Id, entries: Entries, g: NewGraph, visited: seq<Id>, entry: Entry, order: seq<nat>,
                       broken: set<Id>)
    requires Extensible(root, entries, g, visited, entry) && IsTopo(ExtendedGraph(g, entry), order)
    requires broken <= NodeIds(g) + {entry.id}
    ensures var E, F := PruningFold.ChildEdges(Items(ExtendedGraph(g, entry), order)), NewLinks(entries, g, entry);
            && (forall x | x in NodeIds(g) :: PrunesRight(E, F, broken, x))
            && !PruningFold.Pruned(E, broken, entry.id)
            && (PrunesRight(E, F, broken, entry.id) <==> broken <= {entry.id})
  {
    var E, F := NodeEdges(g), NewLinks(entries, g, entry);
    ListingEdges(ExtendedGraph(g, entry), order);
    SameEdges(g, entry);
    NewIsSink(root, entries, g, visited, entry);
    forall x | x in NodeIds(g) ensures PrunesRight(E, F, broken, x) {
      NodeIsKnown(root, entries, g, x);
      forall b | b in broken ensures ProperlyReaches(E, b, x) <==> ProperlyReaches(F, b, x) {
        OldReach(root, entries, g, visited, entry, b, x);
      }
    }
    forall b | b in broken
      ensures !ProperlyReaches(E, b, entry.id) && (ProperlyReaches(F, b, entry.id) <==> b != entry.id)
    {
      NewReach(root, entries, g, visited, entry, b);
    }
  }

  lemma NodeIsKnown(root: Id, entries: Entries, g: NewGraph, x: Id)
    requires GraphOk(root, entries, g) && x in NodeIds(g)
    ensures x in entries
  {
    var i :| 0 <= i < |g.nodes| && g.nodes[i].id == x;
    assert NodeOk(root, entries, g, i);
  }

  lemma SameEdges(g: NewGraph, entry: Entry)
    requires entry.children == [] && forall t :: t in TipsOf(g) ==> t in g.indices
    ensures NodeEdges(ExtendedGraph(g, entry)) == NodeEdges(g)
  {
    var g' := ExtendedGraph(g, entry);
    forall e | e in NodeEdges(g) ensures e in NodeEdges(g') {
      var i :| 0 <= i < |g.nodes| && g.nodes[i].id == e.0 && e.1 in g.nodes[i].children;
      assert g'.nodes[i] == g.nodes[i];
    }
  }

  /** What any traversal of an extended graph does with any function. */
  lemma ExtendedTraversal<A>(root: Id, entries: Entries, g: NewGraph, visited: seq<Id>, entry: Entry, order: seq<nat>,
                             init: A, f: (A, PruningFold.Node<Entry>) -> PruningFold.Step<A>)
    requires Extensible(root, entries, g, visited, entry) && IsTopo(ExtendedGraph(g, entry), order)
    ensures var items, F := Items(ExtendedGraph(g, entry), order), NewLinks(entries, g, entry);
            var broken := PruningFold.Run(items, |items|, init, f).1;
            && (forall x | x in NodeIds(g) :: PrunesRight(PruningFold.ChildEdges(items), F, broken, x))
            && (PrunesRight(PruningFold.ChildEdges(items), F, broken, entry.id) <==> broken <= {entry.id})
  {
    var items := Items(ExtendedGraph(g, entry), order);
    var broken := PruningFold.Run(items, |items|, init, f).1;
    forall b | b in broken ensures b in NodeIds(g) + {entry.id} {
      PruningFold.BrokenAreListed(items, |items|, init, f, b);
      var i :| 0 <= i < |items| && items[i].id == b;
      if order[i] < |g.nodes| { assert g.nodes[order[i]].id == b; }
    }
    ExtendedPrunes(root, entries, g, visited, entry, order, broken);
  }

  /** Breaking on a tip does not prune the entry appended below it. */
  lemma TipBreak(root: Id, entries: Entries, g: NewGraph, visited: seq<Id>, entry: Entry, order: seq<nat>, tip: Id)
    requires Extensible(root, entries, g, visited, entry) && IsTopo(ExtendedGraph(g, entry), order) && tip in TipsOf(g)
    ensures !PruningFold.Pruned(PruningFold.ChildEdges(Items(ExtendedGraph(g, entry), order)), {tip}, entry.id)
    ensures PruningFold.Pruned(NewLinks(entries, g, entry), {tip}, entry.id)
  {
    var i :| 0 <= i < |g.nodes| && g.nodes[i].id == tip;
    TipsAreNodes(root, entries, g, tip);
    ExtendedPrunes(root, entries, g, visited, entry, order, {tip});
  }

  /** A history of one entry. */
  function Lone(): Entries {
    map[0 := Entry(0, "", [], "")]
  }

  /** The smallest such history: breaking on its only entry does not prune the one appended. */
  lemma LoneBreak(g: NewGraph, visited: seq<Id>, entry: Entry, order: seq<nat>)
    requires Extensible(0, Lone(), g, visited, entry) && IsTopo(ExtendedGraph(g, entry), order)
    ensures !PruningFold.Pruned(PruningFold.ChildEdges(Items(ExtendedGraph(g, entry), order)), {0}, entry.id)
    ensures PruningFold.Pruned(NewLinks(Lone(), g, entry), {0}, entry.id)
  {
    ReachesSelf(ChildLinks(Lone()), 0);
    LeavesAreTips(0, Lone(), g, visited, 0);
    TipBreak(0, Lone(), g, visited, entry, order, 0);
  }

  // ---------- The order of an extended history ----------

  type Listing = seq<PruningFold.Node<Entry>>

  /** The node is not in the listing, nor a child of one that is. */
  ghost predicate Foreign(items: Listing, id: Id) {
    forall i | 0 <= i < |items| :: items[i].id != id && id !in items[i].children
  }

  lemma TopologicalFrom(items: Listing, sub: Listing, at: seq<nat>)
    requires PruningFold.Topological(items) && |at| == |sub|
    requires forall i | 0 <= i < |sub| :: at[i] < |items| && sub[i] == items[at[i]]
    requires forall i, j | 0 <= i < j < |at| :: at[i] < at[j]
    ensures PruningFold.Topological(sub)
  {
    forall i, j | 0 <= i < j < |sub| ensures sub[i].id != sub[j].id {
      assert at[i] < at[j];
    }
    forall i, j | 0 <= j <= i < |sub| ensures sub[j].id !in sub[i].children {
      assert j < i ==> at[j] < at[i];
    }
  }

  /** A node without children that no other node knows fits anywhere in a listing. */
  lemma LeafFits(a: Listing, n: PruningFold.Node<Entry>, b: Listing)
    requires n.children == [] && Foreign(a + b, n.id) && PruningFold.Topological(a + b)
    ensures PruningFold.Topological(a + [n] + b)
  {
    var with, without := a + [n] + b, a + b;
    forall i | 0 <= i < |with| && i != |a|
      ensures with[i] == without[Skip(|a|, i)] && with[i].id != n.id && n.id !in with[i].children
    {
    }
    forall i, j | 0 <= i < j < |with| ensures with[i].id != with[j].id {
      if i != |a| && j != |a| { assert Skip(|a|, i) < Skip(|a|, j); }
    }
    forall i, j | 0 <= j <= i < |with| ensures with[j].id !in with[i].children {
      if i != |a| && j != |a| { assert Skip(|a|, j) <= Skip(|a|, i); }
    }
  }

  /** The position after the one at `p` is taken out. */
  function Skip(p: nat, i: nat): nat
    requires i != p
  {
    if i < p then i else i - 1
  }

  lemma LeafLeaves(a: Listing, n: PruningFold.Node<Entry>, b: Listing)
    requires PruningFold.Topological(a + [n] + b)
    ensures PruningFold.Topological(a + b)
  {
    var at := seq(|a + b|, i requires 0 <= i < |a + b| => if i < |a| then i else i + 1);
    TopologicalFrom(a + [n] + b, a + b, at);
  }

  /** The order without the new node. */
  lemma WithoutNew(g: NewGraph, g': NewGraph, order: seq<nat>, p: nat, rest: seq<nat>)
    requires |g'.nodes| == |g.nodes| + 1 && g.edges <= g'.edges && IsTopo(g', order)
    requires p < |order| && order[p] == |g.nodes| && rest == order[..p] + order[p + 1..]
    ensures IsTopo(g, rest)
  {
    var at := seq(|rest|, k requires 0 <= k < |rest| => if k < p then k else k + 1);
    forall k | 0 <= k < |rest| ensures rest[k] == order[at[k]] && rest[k] < |g.nodes| {}
    forall i | 0 <= i < |g.nodes| ensures i in rest {
      assert i in order;
      var k :| 0 <= k < |order| && order[k] == i;
      assert rest[Skip(p, k)] == i;
    }
    forall j, k | 0 <= j < |rest| && 0 <= k < |rest| && (rest[j], rest[k]) in g.edges ensures j < k {
      assert (order[at[j]], order[at[k]]) in g'.edges;
    }
  }

  lemma ItemsSplit(g: NewGraph, entry: Entry, order: seq<nat>, p: nat, rest: seq<nat>)
    requires forall t :: t in TipsOf(g) ==> t in g.indices
    requires p < |order| && order[p] == |g.nodes| && rest == order[..p] + order[p + 1..]
    requires forall k :: 0 <= k < |order| ==> order[k] <= |g.nodes|
    requires forall k :: 0 <= k < |rest| ==> rest[k] < |g.nodes|
    ensures Items(ExtendedGraph(g, entry), order)
         == Items(g, rest)[..p] + [PruningFold.Node(entry.id, entry.children, entry)] + Items(g, rest)[p..]
  {
    var items, rested := Items(ExtendedGraph(g, entry), order), Items(g, rest);
    assert items[..p] == rested[..p];
    assert items[p + 1..] == rested[p..];
    assert items == items[..p] + [items[p]] + items[p + 1..];
  }

  /** Any topological order of the extended graph lists entries once each and parents first if and
      only if no id was listed twice as a child before. */
  lemma ExtendedParentsFirst(root: Id, entries: Entries, g: NewGraph, visited: seq<Id>, entry: Entry, order: seq<nat>)
    requires Extensible(root, entries, g, visited, entry) && IsTopo(ExtendedGraph(g, entry), order)
    ensures PruningFold.Topological(Items(ExtendedGraph(g, entry), order)) <==> NoSharedChild(root, entries)
  {
    assert |g.nodes| in order;
    var p :| 0 <= p < |order| && order[p] == |g.nodes|;
    var rest := order[..p] + order[p + 1..];
    WithoutNew(g, ExtendedGraph(g, entry), order, p, rest);
    ItemsSplit(g, entry, order, p, rest);
    TraversalParentsFirst(root, entries, g, visited, rest);
    ForeignNode(root, entries, g, entry, rest);
    LeafAnywhere(Items(g, rest), p, PruningFold.Node(entry.id, entry.children, entry));
  }

  lemma ForeignNode(root: Id, entries: Entries, g: NewGraph, entry: Entry, order: seq<nat>)
    requires GraphOk(root, entries, g) && Unknown(entries, entry) && IsTopo(g, order)
    ensures Foreign(Items(g, order), entry.id)
  {
    var items := Items(g, order);
    forall i | 0 <= i < |items| ensures items[i].id != entry.id && entry.id !in items[i].children {
      assert NodeOk(root, entries, g, order[i]);
    }
  }

  lemma LeafAnywhere(items: Listing, p: nat, n: PruningFold.Node<Entry>)
    requires p <= |items| && n.children == [] && Foreign(items, n.id)
    ensures PruningFold.Topological(items[..p] + [n] + items[p..]) <==> PruningFold.Topological(items)
  {
    var a, b := items[..p], items[p..];
    assert a + b == items;
    if PruningFold.Topological(items) { LeafFits(a, n, b); }
    if PruningFold.Topological(a + [n] + b) { LeafLeaves(a, n, b); }
  }
}
