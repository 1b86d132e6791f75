/** The live history object: its tips, its traversal, and the entry appended by an update
    (cob/src/history.rs). */
module History {
  import opened Prelude
  import opened Graph
  import opened HistoryGraph
  import PruningFold

  // ---------- Tips ----------

  /** The ids of the nodes without an outgoing edge. */
  function TipsOf(g: NewGraph): set<Id> {
    set i | 0 <= i < |g.nodes| && (forall e | e in g.edges :: e.0 != i) :: g.nodes[i].id
  }

  /** Every reachable entry without children is a tip. */
  lemma LeavesAreTips(root: Id, entries: Entries, g: NewGraph, visited: seq<Id>, x: Id)
    requires Building(root, entries, g, [], visited)
    requires x in entries && entries[x].children == [] && Reaches(ChildLinks(entries), root, x)
    ensures x in TipsOf(g)
  {
    BuildDone(root, entries, g, visited);
    var i :| 0 <= i < |g.nodes| && g.nodes[i].id == x;
    assert NodeOk(root, entries, g, i);
    forall e | e in g.edges ensures e.0 != i {
      assert EdgeOk(g, e);
    }
  }

  lemma TipsAreNodes(root: Id, entries: Entries, g: NewGraph, x: Id)
    requires GraphOk(root, entries, g) && x in TipsOf(g)
    ensures x in entries && x in g.indices && g.indices[x] < |g.nodes| && Reaches(ChildLinks(entries), root, x)
  {
    var i :| 0 <= i < |g.nodes| && g.nodes[i].id == x;
    assert NodeOk(root, entries, g, i) && IndexOk(g, x);
  }

  /** Reachable and without children. */
  ghost predicate IsLeaf(root: Id, entries: Entries, x: Id) {
    x in entries && entries[x].children == [] && Reaches(ChildLinks(entries), root, x)
  }

  ghost predicate TipsAreLeaves(root: Id, entries: Entries, g: NewGraph) {
    forall x {:trigger x in TipsOf(g)} :: x in TipsOf(g) <==> IsLeaf(root, entries, x)
  }

  /** The tips are exactly the reachable entries without children if and only if no child with
      children of its own is listed before a sibling that leads to it. */
  lemma TipsExactIff(root: Id, entries: Entries, g: NewGraph, visited: seq<Id>)
    requires Built(root, entries, g, [], visited)
    ensures TipsAreLeaves(root, entries, g) <==> NoneOvertaken(root, entries)
  {
    if NoneOvertaken(root, entries) {
      forall x
        ensures x in TipsOf(g) <==> IsLeaf(root, entries, x)
      {
        if x in TipsOf(g) { SettledTip(root, entries, g, x); }
        if IsLeaf(root, entries, x) { LeavesAreTips(root, entries, g, visited, x); }
      }
    } else {
      var m, k, j :| Overtaken(root, entries, m, k, j);
      OvertakenIsTip(root, entries, g, visited, m, k, j);
      assert !IsLeaf(root, entries, entries[m].children[k]);
    }
  }

  lemma SettledTip(root: Id, entries: Entries, g: NewGraph, x: Id)
    requires GraphOk(root, entries, g) && AllSettled(g, []) && x in TipsOf(g)
    ensures IsLeaf(root, entries, x)
  {
    var i :| 0 <= i < |g.nodes| && g.nodes[i].id == x && forall e | e in g.edges :: e.0 != i;
    assert NodeOk(root, entries, g, i) && Settled(g, [], i);
  }

  /** A child that is overtaken is a tip although it has children. */
  lemma OvertakenIsTip(root: Id, entries: Entries, g: NewGraph, visited: seq<Id>, m: Id, k: int, j: int)
    requires Built(root, entries, g, [], visited) && Overtaken(root, entries, m, k, j)
    ensures entries[m].children[k] in TipsOf(g)
  {
    BuildDone(root, entries, g, visited);
    AllVisited(root, entries, g, visited, m);
    assert Loses(root, entries, g, [], visited, m, k, j);
    var i :| Lost(entries, g, [], entries[m].children[k], i);
    assert forall e | e in g.edges :: e.0 != i;
  }

  /** 0 above 3 and 1, 1 above 3 as well, and 3 above 4: node and children of 3 come apart. */
  function Shortcut(): Entries {
    map[0 := Entry(0, "", [3, 1], ""), 1 := Entry(1, "", [3], ""), 3 := Entry(3, "", [4], ""),
        4 := Entry(4, "", [], "")]
  }

  /** The tips of this history are not its only entry without children. */
  lemma ShortcutTips(g: NewGraph, visited: seq<Id>)
    requires Built(0, Shortcut(), g, [], visited)
    ensures 3 in TipsOf(g) && Shortcut()[3].children != []
  {
    var E := ChildLinks(Shortcut());
    assert (1, 3) in E;
    ReachesEdge(E, 1, 3);
    ReachesSelf(E, 0);
    assert Overtaken(0, Shortcut(), 0, 0, 1);
    OvertakenIsTip(0, Shortcut(), g, visited, 0, 0, 1);
  }

  /** A shared child alone does not spoil the tips: those of the diamond are exact. */
  lemma DiamondTips(g: NewGraph, visited: seq<Id>)
    requires Built(0, Diamond(), g, [], visited)
    ensures TipsAreLeaves(0, Diamond(), g)
  {
    var E := ChildLinks(Diamond());
    forall m, k, j
      ensures !Overtaken(0, Diamond(), m, k, j)
    {
      if Overtaken(0, Diamond(), m, k, j) {
        assert m == 0 && k == 0 && j == 1;
        StaysInForward(E, {2, 3}, 2, 1);
      }
    }
    TipsExactIff(0, Diamond(), g, visited);
  }

  // ---------- Traversal ----------

  /** Any topological order of the nodes of the graph. */
  ghost predicate IsTopo(g: NewGraph, order: seq<nat>) {
    && (forall k :: 0 <= k < |order| ==> order[k] < |g.nodes|)
    && (forall j, k :: 0 <= j < k < |order| ==> order[j] != order[k])
    && (forall i :: 0 <= i < |g.nodes| ==> i in order)
    && (forall j, k :: 0 <= j < |order| && 0 <= k < |order| && (order[j], order[k]) in g.edges ==> j < k)
  }

  function Items(g: NewGraph, order: seq<nat>): seq<PruningFold.Node<Entry>>
    requires forall k :: 0 <= k < |order| ==> order[k] < |g.nodes|
  {
    seq(|order|, k requires 0 <= k < |order| =>
      PruningFold.Node(g.nodes[order[k]].id, g.nodes[order[k]].children, g.nodes[order[k]]))
  }

  /** A traversal lists every entry below the root, and lists each once with its parents before it
      if and only if no id is listed twice as a child. */
  lemma TraversalParentsFirst(root: Id, entries: Entries, g: NewGraph, visited: seq<Id>, order: seq<nat>)
    requires Building(root, entries, g, [], visited) && AcyclicEntries(entries) && IsTopo(g, order)
    ensures PruningFold.Topological(Items(g, order)) <==> NoSharedChild(root, entries)
    ensures forall x ::
              Reaches(ChildLinks(entries), root, x) <==> exists k :: 0 <= k < |order| && Items(g, order)[k].id == x
  {
    OneNodeIffUnshared(root, entries, g, visited);
    if OneNodePerId(g) { OneNodeTopological(root, entries, g, visited, order); }
    if PruningFold.Topological(Items(g, order)) { TopologicalOneNode(g, order); }
    TraversalComplete(root, entries, g, visited, order);
  }

  lemma OneNodeTopological(root: Id, entries: Entries, g: NewGraph, visited: seq<Id>, order: seq<nat>)
    requires Building(root, entries, g, [], visited) && OneNodePerId(g) && IsTopo(g, order)
    ensures PruningFold.Topological(Items(g, order))
  {
    var items := Items(g, order);
    forall i, j | 0 <= j <= i < |items| ensures items[j].id !in items[i].children {
      ChildComesLater(root, entries, g, visited, order, i, j);
    }
  }

  lemma TopologicalOneNode(g: NewGraph, order: seq<nat>)
    requires IsTopo(g, order) && PruningFold.Topological(Items(g, order))
    ensures OneNodePerId(g)
  {
    var items := Items(g, order);
    forall i, j | 0 <= i < j < |g.nodes| ensures g.nodes[i].id != g.nodes[j].id {
      assert i in order && j in order;
      var p :| 0 <= p < |order| && order[p] == i;
      var q :| 0 <= q < |order| && order[q] == j;
      assert items[p].id == g.nodes[i].id && items[q].id == g.nodes[j].id;
    }
  }

  lemma TraversalComplete(root: Id, entries: Entries, g: NewGraph, visited: seq<Id>, order: seq<nat>)
    requires Building(root, entries, g, [], visited) && IsTopo(g, order)
    ensures forall x ::
              Reaches(ChildLinks(entries), root, x) <==> exists k :: 0 <= k < |order| && Items(g, order)[k].id == x
  {
    var items := Items(g, order);
    BuildDone(root, entries, g, visited);
    forall x ensures Reaches(ChildLinks(entries), root, x) <==> exists k :: 0 <= k < |order| && items[k].id == x {
      forall i | 0 <= i < |g.nodes| && g.nodes[i].id == x ensures exists k :: 0 <= k < |order| && items[k].id == x {
        assert i in order;
        var k :| 0 <= k < |order| && order[k] == i;
        assert items[k].id == x;
      }
    }
  }

  lemma ChildComesLater(root: Id, entries: Entries, g: NewGraph, visited: seq<Id>, order: seq<nat>, i: nat, j: nat)
    requires Building(root, entries, g, [], visited) && OneNodePerId(g) && IsTopo(g, order)
    requires j <= i < |order|
    ensures g.nodes[order[j]].id !in g.nodes[order[i]].children
  {
    var a, b := g.nodes[order[i]], g.nodes[order[j]].id;
    assert NodeOk(root, entries, g, order[i]);
    AllVisited(root, entries, g, visited, a.id);
    var k :| 0 <= k < |visited| && visited[k] == a.id;
    assert VisitOk(entries, g, visited, k);
    EdgeBetween(g, order[i], order[j]);
  }

  lemma EdgeBetween(g: NewGraph, i: nat, j: nat)
    requires OneNodePerId(g) && i < |g.nodes| && j < |g.nodes|
    ensures HasEdge(g, g.nodes[i].id, g.nodes[j].id) <==> (i, j) in g.edges
  {
    if HasEdge(g, g.nodes[i].id, g.nodes[j].id) {
      var e :| e in g.edges && e.0 < |g.nodes| && e.1 < |g.nodes| && g.nodes[e.0].id == g.nodes[i].id
        && g.nodes[e.1].id == g.nodes[j].id;
      assert e == (i, j);
    }
  }

  // ---------- The object ----------

  datatype CreateError = MissingRoot

  /** The entries after appending an entry below the given tips. */
  function Extended(entries: Entries, tips: set<Id>, entry: Entry): Entries {
    map k | k in entries.Keys + {entry.id} ::
      if k == entry.id then entry
      else if k in tips then entries[k].(children := entries[k].children + [entry.id])
      else entries[k]
  }

  lemma ExtendedStep(entries: Entries, done: set<Id>, entry: Entry, tip: Id)
    requires entry.id !in entries && tip !in done && tip != entry.id
    ensures Extended(entries, done + {tip}, entry)
         == var m := Extended(entries, done, entry);
            if tip in m then m[tip := m[tip].(children := m[tip].children + [entry.id])] else m
  {
  }

  /** The edges from the nodes of the given tips to a new node. */
  function TipEdges(g: NewGraph, tips: set<Id>): set<(nat, nat)>
    requires forall t :: t in tips ==> t in g.indices
  {
    set t | t in tips :: (g.indices[t], |g.nodes|)
  }

  /** The graph after appending an entry below all tips. The nodes keep the child lists they were
      made with, and the new node is not registered. */
  function ExtendedGraph(g: NewGraph, entry: Entry): NewGraph
    requires forall t :: t in TipsOf(g) ==> t in g.indices
  {
    NewGraph(g.nodes + [entry], g.edges + TipEdges(g, TipsOf(g)), g.indices)
  }

  lemma TipEdgesStep(g: NewGraph, tips: set<Id>, tip: Id)
    requires tip in g.indices && forall t :: t in tips ==> t in g.indices
    ensures TipEdges(g, tips + {tip}) == TipEdges(g, tips) + {(g.indices[tip], |g.nodes|)}
  {
  }

  class History {
    var root: Id
    var entries: Entries
    var graph: NewGraph

    constructor (root: Id, entries: Entries, graph: NewGraph)
      ensures this.root == root && this.entries == entries && this.graph == graph
    {
      this.root, this.entries, this.graph := root, entries, graph;
    }

    /** Appends an entry below all tips, and panics at a tip without a registered node. The new
        node is not registered itself. */
    method Extend(entry: Entry) returns (r: Outcome<()>)
      requires Linked(graph) && entry.id !in entries && entry.id !in TipsOf(graph)
      modifies this
      ensures r.Panicked? <==> exists t :: t in TipsOf(old(graph)) && t !in old(graph).indices
      ensures r.Returned? ==>
                && root == old(root) && entries == Extended(old(entries), TipsOf(old(graph)), entry)
                && graph == ExtendedGraph(old(graph), entry)
                && Linked(graph) && entry.id in TipsOf(graph) && TipsOf(graph) <= TipsOf(old(graph)) + {entry.id}
    {
      ghost var g, all := graph, TipsOf(graph);
      var tips := TipsOf(graph);
      graph := graph.(nodes := graph.nodes + [entry]);
      entries := entries[entry.id := entry];
      assert entries == Extended(old(entries), {}, entry);
      while tips != {}
        invariant tips <= all && root == old(root) && Linking(g, old(entries), entry, all - tips)
        decreases tips
      {
        var tip :| tip in tips;
        var linked := LinkTip(tip, entry, g, old(entries), all - tips);
        if !linked { return Panicked; }
        assert all - (tips - {tip}) == all - tips + {tip};
        tips := tips - {tip};
      }
      assert all - {} == all;
      ExtendedTips(g, entry);
      r := Returned(());
    }

    /** The state between: the new entry is below the tips in `done`. */
    ghost predicate Linking(g: NewGraph, before: Entries, entry: Entry, done: set<Id>)
      reads this
    {
      && graph.indices == g.indices && graph.nodes == g.nodes + [entry]
      && (forall t :: t in done ==> t in g.indices)
      && graph.edges == g.edges + TipEdges(g, done)
      && entries == Extended(before, done, entry)
    }

    method LinkTip(tip: Id, entry: Entry, ghost g: NewGraph, ghost before: Entries, ghost done: set<Id>)
      returns (linked: bool)
      requires Linking(g, before, entry, done) && entry.id !in before && tip !in done && tip != entry.id
      modifies this
      ensures root == old(root) && (linked <==> tip in g.indices)
      ensures linked ==> Linking(g, before, entry, done + {tip})
    {
      ExtendedStep(before, done, entry, tip);
      if tip in entries {
        entries := entries[tip := entries[tip].(children := entries[tip].children + [entry.id])];
      }
      if tip !in graph.indices { return false; }
      TipEdgesStep(g, done, tip);
      graph := graph.(edges := graph.edges + {(graph.indices[tip], |graph.nodes| - 1)});
      linked := true;
    }
  }

  lemma ExtendedTips(g: NewGraph, entry: Entry)
    requires Linked(g) && forall t :: t in TipsOf(g) ==> t in g.indices
    ensures var g' := ExtendedGraph(g, entry);
            Linked(g') && entry.id in TipsOf(g') && TipsOf(g') <= TipsOf(g) + {entry.id}
  {
    var g' := ExtendedGraph(g, entry);
    assert g'.nodes[|g.nodes|].id == entry.id;
    FewerTips(g, g', entry);
  }

  lemma FewerTips(g: NewGraph, g': NewGraph, entry: Entry)
    requires g'.nodes == g.nodes + [entry] && g.edges <= g'.edges
    ensures TipsOf(g') <= TipsOf(g) + {entry.id}
  {
  }

  /** The nodes that edges leave and that ids stand for exist. */
  ghost predicate Linked(g: NewGraph) {
    && (forall id :: id in g.indices ==> g.indices[id] < |g.nodes|)
    && (forall e :: e in g.edges ==> e.0 < |g.nodes|)
  }

  /** An object can be extended once: by then it has a tip that is not registered. */
  method ExtendTwice(h: History, a: Entry, b: Entry) returns (second: Outcome<()>)
    requires Linked(h.graph) && forall t :: t in TipsOf(h.graph) ==> t in h.graph.indices
    requires a.id !in h.entries && a.id !in h.graph.indices
    requires b.id !in h.entries && b.id !in h.graph.indices && b.id != a.id
    modifies h
    ensures second == Panicked
  {
    var _ := h.Extend(a);
    second := h.Extend(b);
  }

  /** A history over the entries. A missing root is an error; a reachable id without entry makes
      the lookup while building the graph panic. */
  method New(root: Id, entries: Entries) returns (r: Outcome<Result<History, CreateError>>, ghost visited: seq<Id>)
    requires Keyed(entries) && AcyclicEntries(entries)
    ensures root !in entries ==> r == Returned(Err(MissingRoot))
    ensures root in entries ==> (r.Returned? <==> RootClosed(root, entries)) && (r.Returned? ==> r.value.Ok?)
    ensures r.Returned? && r.value.Ok? ==>
              && fresh(r.value.value) && r.value.value.root == root && r.value.value.entries == entries
              && Built(root, entries, r.value.value.graph, [], visited)
  {
    visited := [];
    if root !in entries {
      return Returned(Err(MissingRoot)), visited;
    }
    var g;
    g, visited := CreatePetgraph(root, entries);
    if g.Panicked? {
      return Panicked, visited;
    }
    var h := new History(root, entries, g.value);
    r := Returned(Ok(h));
  }
}
