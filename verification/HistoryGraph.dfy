/** The history of a collaborative object: its entries, and the graph rebuilt from their child
    lists (cob/src/history.rs). */
module HistoryGraph {
  import opened Prelude
  import opened Graph

  datatype Entry = Entry(id: Id, author: string, children: seq<Id>, contents: string)

  type Entries = map<Id, Entry>

  ghost predicate Keyed(entries: Entries) {
    forall k :: k in entries ==> entries[k].id == k
  }

  ghost function ChildLinks(entries: Entries): Edges {
    set k, c | k in entries.Keys && c in entries[k].children :: (k, c)
  }

  function ChildLists(entries: Entries): map<Id, seq<Id>> {
    map k | k in entries :: entries[k].children
  }

  ghost predicate AcyclicEntries(entries: Entries) {
    exists rank :: Descending(ChildLists(entries), rank)
  }

  /** Every id reachable from the root has an entry. */
  ghost predicate RootClosed(root: Id, entries: Entries) {
    forall x :: Reaches(ChildLinks(entries), root, x) ==> x in entries
  }

  // ---------- The graph ----------

  /** The petgraph graph, with node weights in insertion order, and the latest node of an id. */
  datatype NewGraph = NewGraph(nodes: seq<Entry>, edges: set<(nat, nat)>, indices: map<Id, nat>)

  function IdsOf(nodes: seq<Entry>): seq<Id> {
    seq(|nodes|, i requires 0 <= i < |nodes| => nodes[i].id)
  }

  /** All child occurrences below the listed entries. */
  ghost function ChildrenOf(entries: Entries, ids: seq<Id>): multiset<Id> {
    if ids == [] then multiset{} else
      ChildrenOf(entries, ids[..|ids| - 1]) + ChildBag(entries, ids[|ids| - 1])
  }

  ghost function ChildBag(entries: Entries, id: Id): multiset<Id> {
    if id in entries then multiset(entries[id].children) else multiset{}
  }

  // The build invariant, per node, per id, per edge and per visited entry.

  ghost predicate NodeOk(root: Id, entries: Entries, g: NewGraph, i: int) {
    0 <= i < |g.nodes| ==>
      && g.nodes[i].id in entries && g.nodes[i] == entries[g.nodes[i].id]
      && Reaches(ChildLinks(entries), root, g.nodes[i].id)
      && g.nodes[i].id in g.indices
  }

  ghost predicate IndexOk(g: NewGraph, id: Id) {
    id in g.indices ==> g.indices[id] < |g.nodes| && g.nodes[g.indices[id]].id == id
  }

  ghost predicate EdgeOk(g: NewGraph, e: (nat, nat)) {
    e in g.edges ==> e.0 < |g.nodes| && e.1 < |g.nodes| && g.nodes[e.1].id in g.nodes[e.0].children
  }

  ghost predicate HasEdge(g: NewGraph, a: Id, b: Id) {
    exists e :: e in g.edges && e.0 < |g.nodes| && e.1 < |g.nodes| && g.nodes[e.0].id == a && g.nodes[e.1].id == b
  }

  ghost predicate VisitOk(entries: Entries, g: NewGraph, visited: seq<Id>, k: int) {
    0 <= k < |visited| ==>
      visited[k] in entries && forall c :: c in entries[visited[k]].children ==> HasEdge(g, visited[k], c)
  }

  ghost predicate GraphOk(root: Id, entries: Entries, g: NewGraph) {
    && (forall i {:trigger NodeOk(root, entries, g, i)} :: NodeOk(root, entries, g, i))
    && (forall id {:trigger IndexOk(g, id)} :: IndexOk(g, id))
    && (forall e {:trigger EdgeOk(g, e)} :: EdgeOk(g, e))
  }

  /** Every arrival at an id is a node; every visited node has accounted for its children. */
  ghost predicate Conserved(root: Id, entries: Entries, g: NewGraph, stack: seq<Id>, visited: seq<Id>) {
    && multiset(IdsOf(g.nodes)) == multiset(visited) + multiset(stack)
    && multiset(IdsOf(g.nodes)) == multiset{root} + ChildrenOf(entries, visited)
  }

  ghost predicate Building(root: Id, entries: Entries, g: NewGraph, stack: seq<Id>, visited: seq<Id>) {
    && GraphOk(root, entries, g)
    && (forall k {:trigger VisitOk(entries, g, visited, k)} :: VisitOk(entries, g, visited, k))
    && Conserved(root, entries, g, stack, visited)
  }

  /** The graph after adding the children of a visited entry as fresh nodes. */
  function AddChildren(entries: Entries, g: NewGraph, from: nat, children: seq<Id>): (g': NewGraph)
    requires forall c :: c in children ==> c in entries
  {
    NewGraph(
      g.nodes + seq(|children|, i requires 0 <= i < |children| => entries[children[i]]),
      g.edges + (set j | |g.nodes| <= j < |g.nodes| + |children| :: (from, j)),
      IndexAll(g.indices, children, |g.nodes|))
  }

  /** Each child now stands for the node added last for it. */
  function IndexAll(indices: map<Id, nat>, children: seq<Id>, base: nat): map<Id, nat> {
    if children == [] then indices
    else IndexAll(indices, children[..|children| - 1], base)[children[|children| - 1] := base + |children| - 1]
  }

  lemma {:induction false} IndexAllKeys(indices: map<Id, nat>, children: seq<Id>, base: nat, id: Id)
    ensures id in IndexAll(indices, children, base) <==> id in indices || id in children
    ensures id in children ==> base <= IndexAll(indices, children, base)[id] < base + |children|
                               && children[IndexAll(indices, children, base)[id] - base] == id
    ensures id !in children && id in indices ==> IndexAll(indices, children, base)[id] == indices[id]
  {
    if children != [] {
      var init := children[..|children| - 1];
      IndexAllKeys(indices, init, base, id);
      assert children == init + [children[|children| - 1]];
    }
  }

  lemma {:induction false} NewNodeOk(root: Id, entries: Entries, g: NewGraph, from: nat, i: int)
    requires GraphOk(root, entries, g) && from < |g.nodes| && Keyed(entries)
    requires forall c :: c in g.nodes[from].children ==> c in entries
    ensures NodeOk(root, entries, AddChildren(entries, g, from, g.nodes[from].children), i)
  {
    var cs := g.nodes[from].children;
    var g' := AddChildren(entries, g, from, cs);
    assert NodeOk(root, entries, g, i) && NodeOk(root, entries, g, from);
    if 0 <= i < |g'.nodes| {
      IndexAllKeys(g.indices, cs, |g.nodes|, g'.nodes[i].id);
      if i >= |g.nodes| {
        var E := ChildLinks(entries);
        var c := cs[i - |g.nodes|];
        assert g'.nodes[i] == entries[c];
        assert (g.nodes[from].id, c) in E;
        ReachesEdge(E, g.nodes[from].id, c);
        ReachesTrans(E, root, g.nodes[from].id, c);
      }
    }
  }

  lemma NewIndexOk(root: Id, entries: Entries, g: NewGraph, from: nat, id: Id)
    requires GraphOk(root, entries, g) && from < |g.nodes| && Keyed(entries)
    requires forall c :: c in g.nodes[from].children ==> c in entries
    ensures IndexOk(AddChildren(entries, g, from, g.nodes[from].children), id)
  {
    var cs := g.nodes[from].children;
    assert IndexOk(g, id);
    IndexAllKeys(g.indices, cs, |g.nodes|, id);
    if id in cs {
      var j := IndexAll(g.indices, cs, |g.nodes|)[id];
      assert AddChildren(entries, g, from, cs).nodes[j] == entries[cs[j - |g.nodes|]];
    }
  }

  lemma NewEdgeOk(root: Id, entries: Entries, g: NewGraph, from: nat, e: (nat, nat))
    requires GraphOk(root, entries, g) && from < |g.nodes| && Keyed(entries)
    requires forall c :: c in g.nodes[from].children ==> c in entries
    ensures EdgeOk(AddChildren(entries, g, from, g.nodes[from].children), e)
  {
    var cs := g.nodes[from].children;
    assert EdgeOk(g, e);
    if e !in g.edges && e in AddChildren(entries, g, from, cs).edges {
      assert AddChildren(entries, g, from, cs).nodes[e.1] == entries[cs[e.1 - |g.nodes|]];
    }
  }

  lemma GraphStep(root: Id, entries: Entries, g: NewGraph, from: nat)
    requires GraphOk(root, entries, g) && from < |g.nodes| && Keyed(entries)
    requires forall c :: c in g.nodes[from].children ==> c in entries
    ensures GraphOk(root, entries, AddChildren(entries, g, from, g.nodes[from].children))
  {
    var g' := AddChildren(entries, g, from, g.nodes[from].children);
    forall i ensures NodeOk(root, entries, g', i) { NewNodeOk(root, entries, g, from, i); }
    forall id ensures IndexOk(g', id) { NewIndexOk(root, entries, g, from, id); }
    forall e ensures EdgeOk(g', e) { NewEdgeOk(root, entries, g, from, e); }
  }

  lemma EdgesKept(entries: Entries, g: NewGraph, from: nat, children: seq<Id>, a: Id, b: Id)
    requires forall c :: c in children ==> c in entries
    requires HasEdge(g, a, b)
    ensures HasEdge(AddChildren(entries, g, from, children), a, b)
  {
    var e :| e in g.edges && e.0 < |g.nodes| && e.1 < |g.nodes| && g.nodes[e.0].id == a && g.nodes[e.1].id == b;
    var g' := AddChildren(entries, g, from, children);
    assert e in g'.edges && g'.nodes[e.0] == g.nodes[e.0] && g'.nodes[e.1] == g.nodes[e.1];
  }

  lemma EdgesAdded(entries: Entries, g: NewGraph, from: nat, children: seq<Id>, b: Id)
    requires Keyed(entries) && from < |g.nodes| && (forall c :: c in children ==> c in entries)
    requires b in children
    ensures HasEdge(AddChildren(entries, g, from, children), g.nodes[from].id, b)
  {
    var k :| 0 <= k < |children| && children[k] == b;
    var g' := AddChildren(entries, g, from, children);
    var e := (from, |g.nodes| + k);
    assert e in g'.edges && g'.nodes[e.1] == entries[b] && g'.nodes[from] == g.nodes[from];
  }

  lemma VisitStep(root: Id, entries: Entries, g: NewGraph, from: nat, visited: seq<Id>, k: int)
    requires GraphOk(root, entries, g) && from < |g.nodes| && Keyed(entries)
    requires forall c :: c in g.nodes[from].children ==> c in entries
    requires VisitOk(entries, g, visited, k)
    ensures VisitOk(entries, AddChildren(entries, g, from, g.nodes[from].children), visited + [g.nodes[from].id], k)
  {
    var cs := g.nodes[from].children;
    var g' := AddChildren(entries, g, from, cs);
    assert NodeOk(root, entries, g, from);
    var visited' := visited + [g.nodes[from].id];
    if 0 <= k < |visited'| {
      forall c | c in entries[visited'[k]].children ensures HasEdge(g', visited'[k], c) {
        if k < |visited| {
          EdgesKept(entries, g, from, cs, visited[k], c);
        } else {
          EdgesAdded(entries, g, from, cs, c);
        }
      }
    }
  }

  lemma MovedToVisited(ids: seq<Id>, cs: seq<Id>, rest: seq<Id>, visited: seq<Id>, id: Id)
    requires multiset(ids) == multiset(visited) + multiset(rest + [id])
    ensures multiset(ids + cs) == multiset(visited + [id]) + multiset(rest + cs)
  {
  }

  lemma ChildrenAppend(entries: Entries, visited: seq<Id>, id: Id)
    ensures ChildrenOf(entries, visited + [id]) == ChildrenOf(entries, visited) + ChildBag(entries, id)
  {
    assert (visited + [id])[..|visited|] == visited;
  }

  lemma ConserveStep(root: Id, entries: Entries, g: NewGraph, from: nat, rest: seq<Id>, visited: seq<Id>)
    requires GraphOk(root, entries, g) && from < |g.nodes| && Keyed(entries)
    requires forall c :: c in g.nodes[from].children ==> c in entries
    requires Conserved(root, entries, g, rest + [g.nodes[from].id], visited)
    ensures Conserved(root, entries, AddChildren(entries, g, from, g.nodes[from].children),
                      rest + g.nodes[from].children, visited + [g.nodes[from].id])
  {
    var cs := g.nodes[from].children;
    assert IdsOf(AddChildren(entries, g, from, cs).nodes) == IdsOf(g.nodes) + cs;
    assert NodeOk(root, entries, g, from);
    MovedToVisited(IdsOf(g.nodes), cs, rest, visited, g.nodes[from].id);
    ChildrenAppend(entries, visited, g.nodes[from].id);
  }

  /** Visiting one entry keeps the build invariant. */
  lemma BuildStep(root: Id, entries: Entries, g: NewGraph, from: nat, rest: seq<Id>, visited: seq<Id>)
    requires Keyed(entries) && from < |g.nodes|
    requires forall c :: c in g.nodes[from].children ==> c in entries
    requires Building(root, entries, g, rest + [g.nodes[from].id], visited)
    ensures Building(root, entries, AddChildren(entries, g, from, g.nodes[from].children),
                     rest + g.nodes[from].children, visited + [g.nodes[from].id])
  {
    var g' := AddChildren(entries, g, from, g.nodes[from].children);
    var visited' := visited + [g.nodes[from].id];
    GraphStep(root, entries, g, from);
    ConserveStep(root, entries, g, from, rest, visited);
    forall k ensures VisitOk(entries, g', visited', k) {
      assert VisitOk(entries, g, visited, k);
      VisitStep(root, entries, g, from, visited, k);
    }
  }

  ghost function NodeIds(g: NewGraph): set<Id> {
    set i | 0 <= i < |g.nodes| :: g.nodes[i].id
  }

  lemma StackedAreNodes(root: Id, entries: Entries, g: NewGraph, stack: seq<Id>, visited: seq<Id>, id: Id)
    requires Building(root, entries, g, stack, visited) && (id in stack || id in visited)
    ensures id in g.indices && id in entries && id in NodeIds(g) && Reaches(ChildLinks(entries), root, id)
  {
    assert id in multiset(IdsOf(g.nodes));
    var i :| 0 <= i < |g.nodes| && IdsOf(g.nodes)[i] == id;
    assert NodeOk(root, entries, g, i);
  }

  /** Adds the children of `entry` node by node; looking up a child without entry panics. */
  method VisitChildren(entries: Entries, g: NewGraph, from: nat, children: seq<Id>) returns (r: Outcome<NewGraph>)
    ensures r.Panicked? <==> exists c :: c in children && c !in entries
    ensures r.Returned? ==> r.value == AddChildren(entries, g, from, children)
  {
    var nodes, edges := g.nodes, g.edges;
    var indices: map<Id, nat> := g.indices;
    for k := 0 to |children|
      invariant forall c :: c in children[..k] ==> c in entries
      invariant NewGraph(nodes, edges, indices) == AddChildren(entries, g, from, children[..k])
    {
      var c := children[k];
      if c !in entries {
        return Panicked;
      }
      assert children[..k + 1][..k] == children[..k];
      nodes := nodes + [entries[c]];
      indices := indices[c := |nodes| - 1];
      edges := edges + {(from, |nodes| - 1)};
    }
    assert children[..|children|] == children;
    r := Returned(NewGraph(nodes, edges, indices));
  }

  lemma BuildStart(root: Id, entries: Entries)
    requires root in entries && Keyed(entries)
    ensures Building(root, entries, NewGraph([entries[root]], {}, map[root := 0]), [root], [])
  {
    var g := NewGraph([entries[root]], {}, map[root := 0]);
    ReachesSelf(ChildLinks(entries), root);
    assert IdsOf(g.nodes) == [root];
  }

  lemma EdgesProject(root: Id, entries: Entries, g: NewGraph, visited: seq<Id>)
    requires Building(root, entries, g, [], visited)
    ensures forall a: Id, b: Id ::
              HasEdge(g, a, b) ==> (a, b) in ChildLinks(entries) && Reaches(ChildLinks(entries), root, a)
  {
    forall a: Id, b: Id | HasEdge(g, a, b)
      ensures (a, b) in ChildLinks(entries) && Reaches(ChildLinks(entries), root, a)
    {
      var e :| e in g.edges && e.0 < |g.nodes| && e.1 < |g.nodes| && g.nodes[e.0].id == a && g.nodes[e.1].id == b;
      assert EdgeOk(g, e) && NodeOk(root, entries, g, e.0);
    }
  }

  lemma LinksCovered(root: Id, entries: Entries, g: NewGraph, visited: seq<Id>, a: Id, b: Id)
    requires Building(root, entries, g, [], visited) && (a, b) in ChildLinks(entries) && a in NodeIds(g)
    ensures HasEdge(g, a, b)
  {
    var i :| 0 <= i < |g.nodes| && g.nodes[i].id == a;
    assert IdsOf(g.nodes)[i] in multiset(IdsOf(g.nodes));
    var k :| 0 <= k < |visited| && visited[k] == a;
    assert VisitOk(entries, g, visited, k);
  }

  /** When nothing is left to visit, the nodes are the ids reachable from the root. */
  lemma BuildDone(root: Id, entries: Entries, g: NewGraph, visited: seq<Id>)
    requires Building(root, entries, g, [], visited)
    ensures forall x :: Reaches(ChildLinks(entries), root, x) <==> x in NodeIds(g)
    ensures forall a: Id, b: Id ::
              HasEdge(g, a, b) <==> (a, b) in ChildLinks(entries) && Reaches(ChildLinks(entries), root, a)
    ensures RootClosed(root, entries)
  {
    EdgesProject(root, entries, g, visited);
    var E := ChildLinks(entries);
    assert root in multiset(IdsOf(g.nodes));
    var r :| 0 <= r < |g.nodes| && IdsOf(g.nodes)[r] == root;
    forall e | e in E && e.0 in NodeIds(g) ensures e.1 in NodeIds(g) && HasEdge(g, e.0, e.1) {
      LinksCovered(root, entries, g, visited, e.0, e.1);
    }
    forall x ensures Reaches(E, root, x) <==> x in NodeIds(g) {
      if Reaches(E, root, x) { StaysInForward(E, NodeIds(g), root, x); }
      if x in NodeIds(g) {
        var i :| 0 <= i < |g.nodes| && g.nodes[i].id == x;
        assert NodeOk(root, entries, g, i);
      }
    }
    forall x | Reaches(E, root, x) ensures x in entries {
      var i :| 0 <= i < |g.nodes| && g.nodes[i].id == x;
      assert NodeOk(root, entries, g, i);
    }
  }

  lemma MissingChild(root: Id, entries: Entries, id: Id, c: Id)
    requires id in entries && Reaches(ChildLinks(entries), root, id) && c in entries[id].children && c !in entries
    ensures !RootClosed(root, entries)
  {
    var E := ChildLinks(entries);
    assert (id, c) in E;
    ReachesEdge(E, id, c);
    ReachesTrans(E, root, id, c);
  }

  // ---------- The order of the visits ----------

  ghost predicate ListedAt(root: Id, entries: Entries, m: Id, k: int) {
    m in entries && Reaches(ChildLinks(entries), root, m) && 0 <= k < |entries[m].children|
  }

  /** A child that has children itself is listed before a sibling that leads to it. The sibling
      and all below it is visited first, and gives the child another node. */
  ghost predicate Overtaken(root: Id, entries: Entries, m: Id, k: int, j: int) {
    && ListedAt(root, entries, m, k) && ListedAt(root, entries, m, j) && k < j
    && Reaches(ChildLinks(entries), entries[m].children[j], entries[m].children[k])
    && entries[m].children[k] in entries && entries[entries[m].children[k]].children != []
  }

  ghost predicate NoneOvertaken(root: Id, entries: Entries) {
    forall m, k, j {:trigger Overtaken(root, entries, m, k, j)} :: !Overtaken(root, entries, m, k, j)
  }

  /** What lies above `a` on the stack is at or below a later sibling of it. */
  ghost predicate Above(root: Id, entries: Entries, a: Id, b: Id) {
    exists m, k, j :: ListedAt(root, entries, m, k) && ListedAt(root, entries, m, j) && k < j
                      && entries[m].children[k] == a && Reaches(ChildLinks(entries), entries[m].children[j], b)
  }

  ghost predicate StackOrder(root: Id, entries: Entries, stack: seq<Id>) {
    forall p, q {:trigger Above(root, entries, stack[p], stack[q])} | 0 <= p < q < |stack| ::
      Above(root, entries, stack[p], stack[q])
  }

  ghost predicate HasOut(g: NewGraph, i: int) {
    exists e :: e in g.edges && e.0 == i
  }

  /** A node with children to come has its edges, or will get them. */
  ghost predicate Settled(g: NewGraph, stack: seq<Id>, i: int) {
    0 <= i < |g.nodes| && g.nodes[i].children != [] ==>
      HasOut(g, i) || (g.nodes[i].id in stack && g.nodes[i].id in g.indices && g.indices[g.nodes[i].id] == i)
  }

  ghost predicate AllSettled(g: NewGraph, stack: seq<Id>) {
    forall i {:trigger Settled(g, stack, i)} :: Settled(g, stack, i)
  }

  /** From `h` on the stack leads to `x` before it gets to it. */
  ghost predicate Ahead(entries: Entries, stack: seq<Id>, x: Id, h: int, b: int) {
    0 <= h <= b < |stack| && x !in stack[h..] && Reaches(ChildLinks(entries), stack[b], x)
  }

  ghost predicate Covered(entries: Entries, stack: seq<Id>, x: Id) {
    exists h, b :: Ahead(entries, stack, x, h, b)
  }

  /** A node with children that will never get an edge: another node stands for its id, or will. */
  ghost predicate Lost(entries: Entries, g: NewGraph, stack: seq<Id>, x: Id, i: int) {
    && 0 <= i < |g.nodes| && g.nodes[i].id == x && g.nodes[i].children != [] && !HasOut(g, i)
    && x in g.indices && (g.indices[x] != i || Covered(entries, stack, x))
  }

  ghost predicate SomeLost(entries: Entries, g: NewGraph, stack: seq<Id>, x: Id) {
    exists i :: Lost(entries, g, stack, x, i)
  }

  ghost predicate Loses(root: Id, entries: Entries, g: NewGraph, stack: seq<Id>, visited: seq<Id>, m: Id, k: int,
                        j: int)
  {
    m in visited && Overtaken(root, entries, m, k, j) ==> SomeLost(entries, g, stack, entries[m].children[k])
  }

  /** What the order of the visits brings about. */
  ghost predicate Walked(root: Id, entries: Entries, g: NewGraph, stack: seq<Id>, visited: seq<Id>) {
    && StackOrder(root, entries, stack)
    && (NoneOvertaken(root, entries) ==> AllSettled(g, stack))
    && forall m, k, j {:trigger Loses(root, entries, g, stack, visited, m, k, j)} ::
         Loses(root, entries, g, stack, visited, m, k, j)
  }

  lemma AboveStep(root: Id, entries: Entries, a: Id, id: Id, c: Id)
    requires Above(root, entries, a, id) && id in entries && c in entries[id].children
    ensures Above(root, entries, a, c)
  {
    var E := ChildLinks(entries);
    var m, k, j :| ListedAt(root, entries, m, k) && ListedAt(root, entries, m, j) && k < j
                   && entries[m].children[k] == a && Reaches(E, entries[m].children[j], id);
    assert (id, c) in E;
    ReachesEdge(E, id, c);
    ReachesTrans(E, entries[m].children[j], id, c);
  }

  lemma OrderStep(root: Id, entries: Entries, rest: seq<Id>, id: Id)
    requires StackOrder(root, entries, rest + [id]) && id in entries && Reaches(ChildLinks(entries), root, id)
    ensures StackOrder(root, entries, rest + entries[id].children)
  {
    var cs := entries[id].children;
    var old_, new_ := rest + [id], rest + cs;
    forall p, q | 0 <= p < q < |new_|
      ensures Above(root, entries, new_[p], new_[q])
    {
      if q < |rest| {
        assert Above(root, entries, old_[p], old_[q]);
      } else if p < |rest| {
        assert Above(root, entries, old_[p], old_[|rest|]);
        AboveStep(root, entries, rest[p], id, cs[q - |rest|]);
      } else {
        assert ListedAt(root, entries, id, p - |rest|) && ListedAt(root, entries, id, q - |rest|);
        ReachesSelf(ChildLinks(entries), cs[q - |rest|]);
      }
    }
  }

  /** The state before a visit: `id` is on top of the stack, and its latest node is `from`. */
  ghost predicate Visiting(root: Id, entries: Entries, g: NewGraph, rest: seq<Id>, id: Id, from: nat) {
    && Keyed(entries) && GraphOk(root, entries, g)
    && id in entries && Reaches(ChildLinks(entries), root, id)
    && id in g.indices && g.indices[id] == from && from < |g.nodes| && g.nodes[from] == entries[id]
    && forall c :: c in entries[id].children ==> c in entries
  }

  lemma EdgesGrow(entries: Entries, g: NewGraph, from: nat, children: seq<Id>, i: int)
    requires forall c :: c in children ==> c in entries
    ensures HasOut(g, i) || (i == from && children != []) ==> HasOut(AddChildren(entries, g, from, children), i)
    ensures HasOut(AddChildren(entries, g, from, children), i) ==> HasOut(g, i) || i == from
  {
    var g' := AddChildren(entries, g, from, children);
    if HasOut(g, i) {
      var e :| e in g.edges && e.0 == i;
      assert e in g'.edges;
    }
    if i == from && children != [] { assert (from, |g.nodes|) in g'.edges; }
  }

  /** A child listed twice, or one still on the stack, is overtaken if it has children. */
  lemma TwiceOvertaken(root: Id, entries: Entries, id: Id, k: nat, j: nat)
    requires ListedAt(root, entries, id, k) && ListedAt(root, entries, id, j) && k < j
    requires entries[id].children[k] == entries[id].children[j] && entries[id].children[k] in entries
    requires entries[entries[id].children[k]].children != []
    ensures Overtaken(root, entries, id, k, j)
  {
    ReachesSelf(ChildLinks(entries), entries[id].children[j]);
  }

  lemma StackedOvertaken(root: Id, entries: Entries, rest: seq<Id>, id: Id, x: Id)
    requires StackOrder(root, entries, rest + [id]) && x in rest && id in entries && x in entries[id].children
    requires x in entries && entries[x].children != []
    ensures !NoneOvertaken(root, entries)
  {
    var p :| 0 <= p < |rest| && rest[p] == x;
    var stack := rest + [id];
    assert Above(root, entries, stack[p], stack[|rest|]);
    AboveStep(root, entries, x, id, x);
    var m, k, j :| ListedAt(root, entries, m, k) && ListedAt(root, entries, m, j) && k < j
                   && entries[m].children[k] == x && Reaches(ChildLinks(entries), entries[m].children[j], x);
    assert Overtaken(root, entries, m, k, j);
  }

  lemma OldSettled(root: Id, entries: Entries, g: NewGraph, rest: seq<Id>, id: Id, from: nat, i: int)
    requires Visiting(root, entries, g, rest, id, from) && StackOrder(root, entries, rest + [id])
    requires NoneOvertaken(root, entries) && Settled(g, rest + [id], i) && i < |g.nodes|
    ensures Settled(AddChildren(entries, g, from, entries[id].children), rest + entries[id].children, i)
  {
    var cs := entries[id].children;
    EdgesGrow(entries, g, from, cs, i);
    if 0 <= i && g.nodes[i].children != [] && !HasOut(g, i) {
      var x := g.nodes[i].id;
      assert NodeOk(root, entries, g, i);
      if x != id {
        assert x in rest;
        if x in cs { StackedOvertaken(root, entries, rest, id, x); }
        IndexAllKeys(g.indices, cs, |g.nodes|, x);
      }
    }
  }

  lemma NewSettled(root: Id, entries: Entries, g: NewGraph, rest: seq<Id>, id: Id, from: nat, k: nat)
    requires Visiting(root, entries, g, rest, id, from) && NoneOvertaken(root, entries) && k < |entries[id].children|
    ensures Settled(AddChildren(entries, g, from, entries[id].children), rest + entries[id].children, |g.nodes| + k)
  {
    var cs := entries[id].children;
    var x := cs[k];
    var g' := AddChildren(entries, g, from, cs);
    assert g'.nodes[|g.nodes| + k] == entries[x];
    if entries[x].children != [] {
      IndexAllLast(g.indices, cs, |g.nodes|, k);
      var j := g'.indices[x] - |g.nodes|;
      if j > k { TwiceOvertaken(root, entries, id, k, j); }
    }
  }

  /** The node that stands for a child is the one of its last occurrence. */
  lemma {:induction false} IndexAllLast(indices: map<Id, nat>, children: seq<Id>, base: nat, k: nat)
    requires k < |children|
    ensures children[k] in IndexAll(indices, children, base)
    ensures base + k <= IndexAll(indices, children, base)[children[k]] < base + |children|
    ensures children[IndexAll(indices, children, base)[children[k]] - base] == children[k]
  {
    if k < |children| - 1 { IndexAllLast(indices, children[..|children| - 1], base, k); }
  }

  lemma SettledStep(root: Id, entries: Entries, g: NewGraph, rest: seq<Id>, id: Id, from: nat)
    requires Visiting(root, entries, g, rest, id, from) && StackOrder(root, entries, rest + [id])
    requires NoneOvertaken(root, entries) && AllSettled(g, rest + [id])
    ensures AllSettled(AddChildren(entries, g, from, entries[id].children), rest + entries[id].children)
  {
    var cs := entries[id].children;
    forall i
      ensures Settled(AddChildren(entries, g, from, cs), rest + cs, i)
    {
      if 0 <= i < |g.nodes| {
        assert Settled(g, rest + [id], i);
        OldSettled(root, entries, g, rest, id, from, i);
      } else if |g.nodes| <= i < |g.nodes| + |cs| {
        NewSettled(root, entries, g, rest, id, from, i - |g.nodes|);
      }
    }
  }

  lemma AheadStep(entries: Entries, rest: seq<Id>, id: Id, x: Id)
    requires Covered(entries, rest + [id], x) && id in entries && x !in entries[id].children
    ensures id != x && Covered(entries, rest + entries[id].children, x)
  {
    var cs := entries[id].children;
    var stack, next := rest + [id], rest + cs;
    var h, b :| Ahead(entries, stack, x, h, b);
    assert stack[h..][|rest| - h] == id;
    assert stack[h..] == rest[h..] + [id] && next[h..] == rest[h..] + cs;
    if b < |rest| {
      assert Ahead(entries, next, x, h, b);
    } else {
      var c := FirstStep(ChildLinks(entries), id, x);
      var j :| 0 <= j < |cs| && cs[j] == c;
      assert Ahead(entries, next, x, h, |rest| + j);
    }
  }

  lemma LostStep(root: Id, entries: Entries, g: NewGraph, rest: seq<Id>, id: Id, from: nat, x: Id, i: int)
    requires Visiting(root, entries, g, rest, id, from) && Lost(entries, g, rest + [id], x, i)
    ensures Lost(entries, AddChildren(entries, g, from, entries[id].children), rest + entries[id].children, x, i)
  {
    var cs := entries[id].children;
    EdgesGrow(entries, g, from, cs, i);
    IndexAllKeys(g.indices, cs, |g.nodes|, x);
    if g.indices[x] == i {
      CoveredBelow(entries, rest, id, x);
      if x !in cs { AheadStep(entries, rest, id, x); }
    }
  }

  lemma CoveredBelow(entries: Entries, rest: seq<Id>, id: Id, x: Id)
    requires Covered(entries, rest + [id], x)
    ensures id != x
  {
    var stack := rest + [id];
    var h, b :| Ahead(entries, stack, x, h, b);
    assert stack[h..][|rest| - h] == id;
  }

  lemma NewLost(root: Id, entries: Entries, g: NewGraph, rest: seq<Id>, id: Id, from: nat, k: nat, j: nat)
    requires Visiting(root, entries, g, rest, id, from) && Overtaken(root, entries, id, k, j)
    ensures Lost(entries, AddChildren(entries, g, from, entries[id].children), rest + entries[id].children,
                 entries[id].children[k], |g.nodes| + k)
  {
    var cs := entries[id].children;
    var x, i := cs[k], |g.nodes| + k;
    var g', next := AddChildren(entries, g, from, cs), rest + cs;
    assert g'.nodes[i] == entries[x];
    EdgesGrow(entries, g, from, cs, i);
    forall e | e in g.edges ensures e.0 != i { assert EdgeOk(g, e); }
    IndexAllLast(g.indices, cs, |g.nodes|, k);
    if g'.indices[x] == i {
      forall l | k < l < |cs| ensures cs[l] != x { IndexAllLast(g.indices, cs, |g.nodes|, l); }
      assert next[|rest| + k + 1..] == cs[k + 1..];
      assert Ahead(entries, next, x, |rest| + k + 1, |rest| + j);
    }
  }

  /** A visit keeps what the order of the visits brings about. */
  lemma WalkStep(root: Id, entries: Entries, g: NewGraph, rest: seq<Id>, visited: seq<Id>, id: Id, from: nat)
    requires Visiting(root, entries, g, rest, id, from) && Walked(root, entries, g, rest + [id], visited)
    ensures Walked(root, entries, AddChildren(entries, g, from, entries[id].children), rest + entries[id].children,
                   visited + [id])
  {
    var cs := entries[id].children;
    var g', stack', visited' := AddChildren(entries, g, from, cs), rest + cs, visited + [id];
    OrderStep(root, entries, rest, id);
    if NoneOvertaken(root, entries) { SettledStep(root, entries, g, rest, id, from); }
    forall m, k, j
      ensures Loses(root, entries, g', stack', visited', m, k, j)
    {
      if m in visited' && Overtaken(root, entries, m, k, j) {
        if m in visited {
          assert Loses(root, entries, g, rest + [id], visited, m, k, j);
          var i :| Lost(entries, g, rest + [id], entries[m].children[k], i);
          LostStep(root, entries, g, rest, id, from, entries[m].children[k], i);
        } else {
          NewLost(root, entries, g, rest, id, from, k, j);
        }
      }
    }
  }

  lemma WalkStart(root: Id, entries: Entries)
    requires root in entries && Keyed(entries)
    ensures Walked(root, entries, NewGraph([entries[root]], {}, map[root := 0]), [root], [])
  {
  }

  // ---------- The nodes as a tree ----------

  ghost predicate Entered(g: NewGraph, j: nat) {
    exists i: nat :: (i, j) in g.edges
  }

  /** The first node is the root, and every other one has one edge into it, from an earlier one. */
  ghost predicate Tree(root: Id, g: NewGraph) {
    && g.nodes != [] && g.nodes[0].id == root
    && (forall e :: e in g.edges ==> e.0 < e.1 < |g.nodes|)
    && (forall e, f :: e in g.edges && f in g.edges && e.1 == f.1 ==> e == f)
    && (forall j: nat {:trigger Entered(g, j)} | 0 < j < |g.nodes| :: Entered(g, j))
  }

  lemma TreeStep(root: Id, entries: Entries, g: NewGraph, from: nat, children: seq<Id>)
    requires Tree(root, g) && from < |g.nodes| && forall c :: c in children ==> c in entries
    ensures Tree(root, AddChildren(entries, g, from, children))
  {
    var g' := AddChildren(entries, g, from, children);
    forall j: nat | 0 < j < |g'.nodes| ensures Entered(g', j) {
      if j < |g.nodes| {
        assert Entered(g, j);
        var i: nat :| (i, j) in g.edges;
        assert (i, j) in g'.edges;
      } else {
        assert (from, j) in g'.edges;
      }
    }
  }

  /** The invariant of the build: what there is, and what the order of the visits brings about. */
  ghost predicate Built(root: Id, entries: Entries, g: NewGraph, stack: seq<Id>, visited: seq<Id>) {
    Building(root, entries, g, stack, visited) && Walked(root, entries, g, stack, visited) && Tree(root, g)
  }

  lemma BuiltStart(root: Id, entries: Entries)
    requires root in entries && Keyed(entries)
    ensures Built(root, entries, NewGraph([entries[root]], {}, map[root := 0]), [root], [])
  {
    BuildStart(root, entries);
    WalkStart(root, entries);
  }

  lemma Poppable(root: Id, entries: Entries, g: NewGraph, rest: seq<Id>, visited: seq<Id>, id: Id)
    requires Built(root, entries, g, rest + [id], visited) && Keyed(entries)
    ensures id in g.indices && id in entries && Reaches(ChildLinks(entries), root, id)
    ensures g.indices[id] < |g.nodes| && g.nodes[g.indices[id]] == entries[id]
  {
    StackedAreNodes(root, entries, g, rest + [id], visited, id);
    assert IndexOk(g, id) && NodeOk(root, entries, g, g.indices[id]);
  }

  /** Visiting one entry keeps the invariant. */
  lemma VisitKeeps(root: Id, entries: Entries, g: NewGraph, rest: seq<Id>, visited: seq<Id>, id: Id)
    requires Built(root, entries, g, rest + [id], visited) && Keyed(entries)
    requires id in g.indices && id in entries && forall c :: c in entries[id].children ==> c in entries
    ensures Built(root, entries, AddChildren(entries, g, g.indices[id], entries[id].children),
                  rest + entries[id].children, visited + [id])
  {
    Poppable(root, entries, g, rest, visited, id);
    BuildStep(root, entries, g, g.indices[id], rest, visited);
    WalkStep(root, entries, g, rest, visited, id, g.indices[id]);
    TreeStep(root, entries, g, g.indices[id], entries[id].children);
  }

  /** Builds the graph from the root with a stack of entries to visit. A visit adds a fresh node
      for every child, whether or not the child has one; `visited` is the order of visits. */
  method CreatePetgraph(root: Id, entries: Entries) returns (r: Outcome<NewGraph>, ghost visited: seq<Id>)
    requires root in entries && Keyed(entries) && AcyclicEntries(entries)
    ensures r.Returned? <==> RootClosed(root, entries)
    ensures r.Returned? ==> Built(root, entries, r.value, [], visited)
  {
    ghost var rank: Id -> nat :| Descending(ChildLists(entries), rank);
    ghost var weight := WeightExists(ChildLists(entries), rank);
    var g := NewGraph([entries[root]], {}, map[root := 0]);
    var stack := [root];
    visited := [];
    BuiltStart(root, entries);
    while stack != []
      invariant Built(root, entries, g, stack, visited)
      decreases Total(weight, stack)
    {
      var id, rest := stack[|stack| - 1], stack[..|stack| - 1];
      assert stack == rest + [id];
      Poppable(root, entries, g, rest, visited, id);
      var from := g.indices[id];
      var children := entries[id].children;
      var more := VisitChildren(entries, g, from, children);
      if more.Panicked? {
        ghost var c :| c in children && c !in entries;
        MissingChild(root, entries, id, c);
        return Panicked, visited;
      }
      VisitKeeps(root, entries, g, rest, visited, id);
      assert Heavier(ChildLists(entries), weight, id);
      TotalConcat(weight, rest, children);
      g, stack, visited := more.value, rest + children, visited + [id];
    }
    BuildDone(root, entries, g, visited);
    r := Returned(g);
  }

  // ---------- How many nodes an id gets ----------

  ghost predicate OneNodePerId(g: NewGraph) {
    forall i, j :: 0 <= i < j < |g.nodes| ==> g.nodes[i].id != g.nodes[j].id
  }

  /** Below the root no id is listed twice as a child. */
  ghost predicate NoSharedChild(root: Id, entries: Entries) {
    forall m, k, m', k' ::
      (ListedAt(root, entries, m, k) && ListedAt(root, entries, m', k')
       && entries[m].children[k] == entries[m'].children[k'])
      ==> m == m' && k == k'
  }

  /** `x` is listed in one place at most. */
  ghost predicate ListedOnce(root: Id, entries: Entries, x: Id) {
    forall m, k, m', k' ::
      (ListedAt(root, entries, m, k) && ListedAt(root, entries, m', k')
       && entries[m].children[k] == x == entries[m'].children[k'])
      ==> m == m' && k == k'
  }

  /** Every entry that has children is listed in one place at most. */
  ghost predicate BranchesOnce(root: Id, entries: Entries) {
    forall m {:trigger ListedOnce(root, entries, m)} | m in entries && entries[m].children != [] ::
      ListedOnce(root, entries, m)
  }

  /** When only `m` lists `x`, and once, the visits of `m` bound the arrivals at `x`. */
  lemma {:induction false} OneLister(entries: Entries, visited: seq<Id>, x: Id, m: Id)
    requires forall k :: 0 <= k < |visited| && visited[k] != m ==> ChildBag(entries, visited[k])[x] == 0
    requires ChildBag(entries, m)[x] <= 1
    ensures ChildrenOf(entries, visited)[x] <= multiset(visited)[m]
  {
    if visited != [] {
      var init, last := visited[..|visited| - 1], visited[|visited| - 1];
      assert visited == init + [last];
      OneLister(entries, init, x, m);
    }
  }

  lemma {:induction false} NoLister(entries: Entries, visited: seq<Id>, x: Id)
    requires forall k :: 0 <= k < |visited| ==> ChildBag(entries, visited[k])[x] == 0
    ensures ChildrenOf(entries, visited)[x] == 0
  {
    if visited != [] {
      NoLister(entries, visited[..|visited| - 1], x);
    }
  }

  /** A visited entry that lists `x` accounts for at least its own occurrences. */
  lemma {:induction false} ListerCounts(entries: Entries, visited: seq<Id>, x: Id, m: Id)
    requires m in visited
    ensures ChildrenOf(entries, visited)[x] >= ChildBag(entries, m)[x]
  {
    var init, last := visited[..|visited| - 1], visited[|visited| - 1];
    assert visited == init + [last];
    if last != m { ListerCounts(entries, init, x, m); }
  }

  lemma {:induction false} TwoListersCount(entries: Entries, visited: seq<Id>, x: Id, m: Id, m': Id)
    requires m in visited && m' in visited && m != m'
    ensures ChildrenOf(entries, visited)[x] >= ChildBag(entries, m)[x] + ChildBag(entries, m')[x]
  {
    var init, last := visited[..|visited| - 1], visited[|visited| - 1];
    assert visited == init + [last];
    if last == m {
      ListerCounts(entries, init, x, m');
    } else if last == m' {
      ListerCounts(entries, init, x, m);
    } else {
      TwoListersCount(entries, init, x, m, m');
    }
  }

  lemma {:induction false} CountAtMostOne(s: seq<Id>, x: Id)
    requires forall i, j :: 0 <= i < j < |s| ==> s[i] != x || s[j] != x
    ensures multiset(s)[x] <= 1
  {
    if s != [] {
      var init, last := s[..|s| - 1], s[|s| - 1];
      assert s == init + [last];
      CountAtMostOne(init, x);
      if last == x {
        assert x !in init;
      }
    }
  }

  lemma CountAtLeastTwo(s: seq<Id>, i: nat, j: nat)
    requires i < j < |s| && s[i] == s[j]
    ensures multiset(s)[s[i]] >= 2
  {
    assert s == s[..j] + [s[j]] + s[j + 1..];
    assert s[i] in s[..j];
  }

  lemma RankDrops(entries: Entries, rank: Id -> nat, a: Id, b: Id)
    requires Descending(ChildLists(entries), rank) && Reaches(ChildLinks(entries), a, b)
    ensures rank(b) <= rank(a)
  {
    var E := ChildLinks(entries);
    var p :| Joins(E, p, a, b);
    for i := 0 to |p| - 1
      invariant rank(p[i]) <= rank(a)
    {
      assert (p[i], p[i + 1]) in E;
      assert p[i + 1] in ChildLists(entries)[p[i]];
    }
  }

  /** The number of nodes of `x`: one if it is the root, plus one for every time a visit lists it. */
  lemma NodeCount(root: Id, entries: Entries, g: NewGraph, visited: seq<Id>, x: Id)
    requires Building(root, entries, g, [], visited)
    ensures multiset(IdsOf(g.nodes))[x] == (if x == root then 1 else 0) + ChildrenOf(entries, visited)[x]
    ensures multiset(visited)[x] == multiset(IdsOf(g.nodes))[x]
  {
    assert multiset(visited) + multiset([]) == multiset(visited);
  }

  lemma {:induction false} UnsharedCount(root: Id, entries: Entries, g: NewGraph, visited: seq<Id>, rank: Id -> nat,
                                         x: Id)
    requires Building(root, entries, g, [], visited)
    requires Descending(ChildLists(entries), rank) && BranchesOnce(root, entries) && ListedOnce(root, entries, x)
    requires rank(x) <= rank(root)
    ensures multiset(IdsOf(g.nodes))[x] <= 1
    decreases rank(root) - rank(x)
  {
    NodeCount(root, entries, g, visited, x);
    if k :| 0 <= k < |visited| && ChildBag(entries, visited[k])[x] > 0 {
      var m := visited[k];
      ListerAbove(root, entries, g, visited, rank, x, m);
      assert ListedOnce(root, entries, m);
      UnsharedCount(root, entries, g, visited, rank, m);
      NodeCount(root, entries, g, visited, m);
      SoleLister(root, entries, g, visited, x, m);
      OneLister(entries, visited, x, m);
    } else {
      NoLister(entries, visited, x);
    }
  }

  lemma ListerAbove(root: Id, entries: Entries, g: NewGraph, visited: seq<Id>, rank: Id -> nat, x: Id, m: Id)
    requires Building(root, entries, g, [], visited) && Descending(ChildLists(entries), rank)
    requires m in visited && ChildBag(entries, m)[x] > 0
    ensures rank(x) < rank(m) <= rank(root) && m in entries && entries[m].children != []
  {
    StackedAreNodes(root, entries, g, [], visited, m);
    RankDrops(entries, rank, root, m);
    assert x in ChildLists(entries)[m];
  }

  lemma SoleLister(root: Id, entries: Entries, g: NewGraph, visited: seq<Id>, x: Id, m: Id)
    requires Building(root, entries, g, [], visited) && ListedOnce(root, entries, x)
    requires m in visited && ChildBag(entries, m)[x] > 0
    ensures ChildBag(entries, m)[x] <= 1
    ensures forall k :: 0 <= k < |visited| && visited[k] != m ==> ChildBag(entries, visited[k])[x] == 0
  {
    StackedAreNodes(root, entries, g, [], visited, m);
    var cs := entries[m].children;
    var a :| 0 <= a < |cs| && cs[a] == x;
    assert ListedAt(root, entries, m, a);
    forall i, j | 0 <= i < j < |cs| ensures cs[i] != x || cs[j] != x {
      assert ListedAt(root, entries, m, i) && ListedAt(root, entries, m, j);
    }
    CountAtMostOne(cs, x);
    forall k | 0 <= k < |visited| && visited[k] != m ensures ChildBag(entries, visited[k])[x] == 0 {
      StackedAreNodes(root, entries, g, [], visited, visited[k]);
      var ds := entries[visited[k]].children;
      forall b | 0 <= b < |ds| ensures ds[b] != x {
        assert ListedAt(root, entries, visited[k], b);
      }
    }
  }

  /** A second place listing `x` makes a second node for it. */
  lemma SharedCount(root: Id, entries: Entries, g: NewGraph, visited: seq<Id>, m: Id, k: nat, m': Id, k': nat)
    requires Building(root, entries, g, [], visited)
    requires ListedAt(root, entries, m, k) && ListedAt(root, entries, m', k') && (m != m' || k != k')
    requires entries[m].children[k] == entries[m'].children[k']
    ensures multiset(IdsOf(g.nodes))[entries[m].children[k]] >= 2
  {
    var x := entries[m].children[k];
    NodeCount(root, entries, g, visited, x);
    AllVisited(root, entries, g, visited, m);
    AllVisited(root, entries, g, visited, m');
    if m != m' {
      TwoListersCount(entries, visited, x, m, m');
    } else {
      ListerCounts(entries, visited, x, m);
      if k < k' {
        CountAtLeastTwo(entries[m].children, k, k');
      } else {
        CountAtLeastTwo(entries[m].children, k', k);
      }
    }
  }

  lemma AllVisited(root: Id, entries: Entries, g: NewGraph, visited: seq<Id>, m: Id)
    requires Building(root, entries, g, [], visited) && Reaches(ChildLinks(entries), root, m)
    ensures m in visited
  {
    BuildDone(root, entries, g, visited);
    var i :| 0 <= i < |g.nodes| && g.nodes[i].id == m;
    assert IdsOf(g.nodes)[i] in multiset(IdsOf(g.nodes));
    NodeCount(root, entries, g, visited, m);
  }

  lemma CountsDecide(g: NewGraph)
    ensures OneNodePerId(g) <==> forall x :: multiset(IdsOf(g.nodes))[x] <= 1
  {
    var ids := IdsOf(g.nodes);
    if OneNodePerId(g) {
      forall x ensures multiset(ids)[x] <= 1 { CountAtMostOne(ids, x); }
    }
    forall i, j | 0 <= i < j < |g.nodes| && g.nodes[i].id == g.nodes[j].id ensures multiset(ids)[ids[i]] >= 2 {
      CountAtLeastTwo(ids, i, j);
    }
  }

  /** Every id has one node exactly when no id below the root is listed twice as a child. */
  lemma OneNodeIffUnshared(root: Id, entries: Entries, g: NewGraph, visited: seq<Id>)
    requires Building(root, entries, g, [], visited) && AcyclicEntries(entries)
    ensures OneNodePerId(g) <==> NoSharedChild(root, entries)
  {
    CountsDecide(g);
    if NoSharedChild(root, entries) {
      UnsharedMeansOne(root, entries, g, visited);
    }
    if OneNodePerId(g) {
      forall m, k, m', k' | ListedAt(root, entries, m, k) && ListedAt(root, entries, m', k')
        && entries[m].children[k] == entries[m'].children[k'] ensures m == m' && k == k'
      {
        if m != m' || k != k' {
          SharedCount(root, entries, g, visited, m, k, m', k');
        }
      }
    }
  }

  lemma UnsharedMeansOne(root: Id, entries: Entries, g: NewGraph, visited: seq<Id>)
    requires Building(root, entries, g, [], visited) && AcyclicEntries(entries) && NoSharedChild(root, entries)
    ensures forall x :: multiset(IdsOf(g.nodes))[x] <= 1
  {
    var rank :| Descending(ChildLists(entries), rank);
    forall x ensures multiset(IdsOf(g.nodes))[x] <= 1 {
      if x in multiset(IdsOf(g.nodes)) {
        var i :| 0 <= i < |g.nodes| && IdsOf(g.nodes)[i] == x;
        assert NodeOk(root, entries, g, i);
        RankDrops(entries, rank, root, x);
        assert ListedOnce(root, entries, x);
        UnsharedCount(root, entries, g, visited, rank, x);
      }
    }
  }

  /** If every entry that has children is listed once, it has one node. */
  lemma BranchesHaveOneNode(root: Id, entries: Entries, g: NewGraph, visited: seq<Id>, i: nat, j: nat)
    requires Building(root, entries, g, [], visited) && AcyclicEntries(entries) && BranchesOnce(root, entries)
    requires i < |g.nodes| && j < |g.nodes| && g.nodes[i].id == g.nodes[j].id && g.nodes[i].children != []
    ensures i == j
  {
    var rank :| Descending(ChildLists(entries), rank);
    var x := g.nodes[i].id;
    assert NodeOk(root, entries, g, i) && ListedOnce(root, entries, x);
    RankDrops(entries, rank, root, x);
    UnsharedCount(root, entries, g, visited, rank, x);
    if i < j { CountAtLeastTwo(IdsOf(g.nodes), i, j); }
    if j < i { CountAtLeastTwo(IdsOf(g.nodes), j, i); }
  }

  /** Two branches that meet again: 0 above 1 and 2, both above 3. */
  function Diamond(): Entries {
    map[0 := Entry(0, "", [1, 2], ""), 1 := Entry(1, "", [3], ""), 2 := Entry(2, "", [3], ""),
        3 := Entry(3, "", [], "")]
  }

  /** The entry below both branches gets two nodes. */
  lemma DiamondDuplicates(g: NewGraph, visited: seq<Id>)
    requires Building(0, Diamond(), g, [], visited)
    ensures !OneNodePerId(g)
  {
    var E := ChildLinks(Diamond());
    assert (0, 1) in E && (0, 2) in E;
    ReachesEdge(E, 0, 1);
    ReachesEdge(E, 0, 2);
    SharedCount(0, Diamond(), g, visited, 1, 0, 2, 0);
    CountsDecide(g);
  }
}
