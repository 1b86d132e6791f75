/** Loading the change graph of a collaborative object by walking commits backwards from
    the references to it (cob/src/change_graph.rs). */
module ChangeGraph {
  import opened Prelude
  import opened Graph

  /** A change as read from its commit. Three of the commit's parents may be bookkeeping:
      the author, the authorizing identity and, in old histories, a schema. */
  datatype Change = Change(
    commit: Id,
    authorCommit: Id,
    schemaCommit: Option<Id>,
    authorizerCommit: Id,
    typename: string,
    contents: string)

  /** `parents` lists the parents of every commit; `changes` holds the commits from which a
      change can be loaded. */
  datatype Repo = Repo(parents: map<Id, seq<Id>>, changes: map<Id, Change>)

  ghost predicate AcyclicCommits(r: Repo) {
    exists rank :: Descending(r.parents, rank)
  }

  /** A commit's parents are commits, and a change carries the id of its commit. */
  ghost predicate CommitOk(r: Repo, c: Id) {
    && (c in r.parents ==> forall p :: p in r.parents[c] ==> p in r.parents)
    && (c in r.changes ==> c in r.parents && r.changes[c].commit == c)
  }

  /** What git guarantees of its object store. */
  ghost predicate WellFormed(r: Repo) {
    && (forall c {:trigger CommitOk(r, c)} :: CommitOk(r, c))
    && AcyclicCommits(r)
  }

  predicate IsDependency(change: Change, p: Id) {
    p != change.authorCommit && Some(p) != change.schemaCommit && p != change.authorizerCommit
  }

  /** `p` is a change that the change `c` was made on top of. */
  predicate DependsOn(r: Repo, c: Id, p: Id) {
    c in r.changes && p in r.changes && c in r.parents && p in r.parents[c] && IsDependency(r.changes[c], p)
  }

  /** Every commit parent that is not bookkeeping, loadable or not. */
  ghost function ParentLinks(r: Repo): Edges {
    set c, p | c in r.changes.Keys && c in r.parents && p in r.parents[c] && IsDependency(r.changes[c], p) :: (p, c)
  }

  ghost function DependencyEdges(r: Repo): Edges {
    set c, p | c in r.changes.Keys && p in r.changes.Keys && DependsOn(r, c, p) :: (p, c)
  }

  /** Everything the loadable `tips` were made on top of, the tips included. */
  ghost function Ancestry(r: Repo, tips: set<Id>): set<Id> {
    set n | n in r.changes.Keys && ReachesSome(r, tips, n)
  }

  ghost predicate ReachesSome(r: Repo, tips: set<Id>, n: Id) {
    exists t :: t in tips && t in r.changes && Reaches(DependencyEdges(r), n, t)
  }

  ghost function AncestryEdges(r: Repo, tips: set<Id>): Edges {
    set e | e in DependencyEdges(r) && e.1 in Ancestry(r, tips)
  }

  /** The dependency relation of a well-formed repository has no cycle. */
  lemma DependenciesAcyclic(r: Repo)
    requires WellFormed(r)
    ensures Acyclic(DependencyEdges(r))
  {
    var rank :| Descending(r.parents, rank);
    assert Ranked(DependencyEdges(r), rank);
  }

  lemma AncestryBackwardClosed(r: Repo, tips: set<Id>)
    ensures BackwardClosed(DependencyEdges(r), Ancestry(r, tips))
  {
    var E := DependencyEdges(r);
    forall e | e in E && e.1 in Ancestry(r, tips) ensures e.0 in Ancestry(r, tips) {
      var t :| t in tips && t in r.changes && Reaches(E, e.1, t);
      ReachesEdge(E, e.0, e.1);
      ReachesTrans(E, e.0, e.1, t);
    }
  }

  // ---------- The graph ----------

  /** A petgraph graph: node weights in insertion order, and edges between node indices. */
  datatype ChangeGraph = ChangeGraph(nodes: seq<Change>, edges: set<(nat, nat)>) {
    ghost predicate Valid() {
      && (forall i, j :: 0 <= i < j < |nodes| ==> nodes[i].commit != nodes[j].commit)
      && (forall e :: e in edges ==> e.0 < |nodes| && e.1 < |nodes|)
    }

    ghost function Ids(): set<Id> {
      set i | 0 <= i < |nodes| :: nodes[i].commit
    }

    ghost function EdgeIds(): Edges {
      set e | e in edges && e.0 < |nodes| && e.1 < |nodes| :: (nodes[e.0].commit, nodes[e.1].commit)
    }
  }

  /** The nodes without an outgoing edge (`externals(Outgoing)`). */
  function Tips(g: ChangeGraph): (s: set<Id>)
    requires g.Valid()
    ensures forall n :: n in s <==> n in g.Ids() && forall e :: e in g.EdgeIds() ==> e.0 != n
  {
    var s := set i | 0 <= i < |g.nodes| && (forall e | e in g.edges :: e.0 != i) :: g.nodes[i].commit;
    assert forall n :: n in s <==> n in g.Ids() && forall e :: e in g.EdgeIds() ==> e.0 != n by {
      forall n ensures n in s <==> n in g.Ids() && forall e :: e in g.EdgeIds() ==> e.0 != n {
        TipIff(g, n);
      }
    }
    s
  }

  lemma TipIff(g: ChangeGraph, n: Id)
    requires g.Valid()
    ensures (exists i :: 0 <= i < |g.nodes| && g.nodes[i].commit == n && forall e :: e in g.edges ==> e.0 != i)
       <==> (n in g.Ids() && forall e :: e in g.EdgeIds() ==> e.0 != n)
  {
    if n in g.Ids() && forall e :: e in g.EdgeIds() ==> e.0 != n {
      var i :| 0 <= i < |g.nodes| && g.nodes[i].commit == n;
      forall e | e in g.edges ensures e.0 != i {
        assert (g.nodes[e.0].commit, g.nodes[e.1].commit) in g.EdgeIds();
      }
    }
  }

  /** The node has no incoming edge (`externals(Incoming)`). */
  predicate IsRoot(g: ChangeGraph, i: nat) {
    i < |g.nodes| && forall e | e in g.edges :: e.1 != i
  }

  /** A non-empty acyclic graph has a node without incoming edges. */
  lemma HasRoot(g: ChangeGraph)
    requires g.Valid() && g.nodes != [] && Acyclic(g.EdgeIds())
    ensures exists i :: 0 <= i < |g.nodes| && IsRoot(g, i)
  {
    var rank :| Ranked(g.EdgeIds(), rank);
    var i: nat := 0;
    while !IsRoot(g, i)
      invariant i < |g.nodes|
      decreases rank(g.nodes[i].commit)
    {
      var e :| e in g.edges && e.1 == i;
      assert (g.nodes[e.0].commit, g.nodes[e.1].commit) in g.EdgeIds();
      i := e.0;
    }
  }

  // ---------- Building it ----------

  /** The parents waiting on the stack. */
  ghost function Parents(s: seq<(Id, Id)>): seq<Id> {
    seq(|s|, i requires 0 <= i < |s| => s[i].0)
  }

  lemma TotalStep(weight: Id -> nat, ps: seq<Id>, i: nat)
    requires i < |ps|
    ensures Total(weight, ps[..i + 1]) == Total(weight, ps[..i]) + weight(ps[i])
  {
    assert ps[..i + 1][..i] == ps[..i];
  }

  lemma ParentsStep(weight: Id -> nat, s: seq<(Id, Id)>, p: Id, c: Id)
    ensures Total(weight, Parents(s + [(p, c)])) == Total(weight, Parents(s)) + weight(p)
  {
    assert Parents(s + [(p, c)])[..|s|] == Parents(s);
  }

  lemma ParentsConcat(weight: Id -> nat, s: seq<(Id, Id)>, t: seq<(Id, Id)>)
    ensures Total(weight, Parents(s + t)) == Total(weight, Parents(s)) + Total(weight, Parents(t))
  {
    TotalConcat(weight, Parents(s), Parents(t));
    assert Parents(s + t) == Parents(s) + Parents(t);
  }

  // The representation invariant of the builder, per commit, per node and per edge.

  ghost predicate IndexOk(nodes: seq<Change>, indices: map<Id, nat>, c: Id) {
    c in indices ==> indices[c] < |nodes| && nodes[indices[c]].commit == c
  }

  ghost predicate NodeOk(nodes: seq<Change>, indices: map<Id, nat>, i: int) {
    0 <= i < |nodes| ==> nodes[i].commit in indices && indices[nodes[i].commit] == i
  }

  ghost predicate EdgeOk(nodes: seq<Change>, edges: set<(nat, nat)>, e: (nat, nat)) {
    e in edges ==> e.0 < |nodes| && e.1 < |nodes|
  }

  ghost predicate LinkRep(indices: map<Id, nat>, edges: set<(nat, nat)>, links: Edges, a: Id, b: Id) {
    (a, b) in links <==> a in indices && b in indices && (indices[a], indices[b]) in edges
  }

  class GraphBuilder {
    var nodes: seq<Change>
    var indices: map<Id, nat>
    var edges: set<(nat, nat)>
    ghost var ids: set<Id>
    ghost var links: Edges

    /** `ids` and `links` are the graph in terms of commits instead of node indices. */
    ghost predicate Valid()
      reads this
    {
      && (forall c {:trigger IndexOk(nodes, indices, c)} :: IndexOk(nodes, indices, c))
      && (forall i {:trigger NodeOk(nodes, indices, i)} :: NodeOk(nodes, indices, i))
      && (forall e {:trigger EdgeOk(nodes, edges, e)} :: EdgeOk(nodes, edges, e))
      && ids == indices.Keys
      && (forall a, b {:trigger LinkRep(indices, edges, links, a, b)} :: LinkRep(indices, edges, links, a, b))
    }

    constructor ()
      ensures Valid() && ids == {} && links == {} && nodes == []
    {
      nodes, indices, edges, ids, links := [], map[], {}, {}, {};
    }

    /** Adds the change of a commit with parents `ps`, unless the commit is known, and returns
        the edges to its parents that are still to be walked. */
    method AddChange(ps: seq<Id>, change: Change, ghost all: Edges, ghost weight: Id -> nat)
      returns (todo: seq<(Id, Id)>)
      requires Valid() && AreParentLinks(all, ps, change)
      modifies this
      ensures Valid()
      ensures nodes == old(nodes) + if change.commit in old(ids) then [] else [change]
      ensures ids == old(ids) + {change.commit} && links == old(links)
      ensures IsTodo(all, links, change.commit, todo)
      ensures Total(weight, Parents(todo)) <= Total(weight, ps)
    {
      AddNode(change);
      todo := ParentEdges(ps, change, all, weight);
    }

    method AddNode(change: Change)
      requires Valid()
      modifies this
      ensures Valid()
      ensures nodes == old(nodes) + if change.commit in old(ids) then [] else [change]
      ensures ids == old(ids) + {change.commit} && links == old(links)
    {
      if change.commit !in indices {
        ghost var nodes0, indices0 := nodes, indices;
        indices := indices[change.commit := |nodes|];
        nodes := nodes + [change];
        ids := ids + {change.commit};
        forall c ensures IndexOk(nodes, indices, c) { assert IndexOk(nodes0, indices0, c); }
        forall i ensures NodeOk(nodes, indices, i) { assert NodeOk(nodes0, indices0, i); }
        forall e ensures EdgeOk(nodes, edges, e) { assert EdgeOk(nodes0, edges, e); }
        forall a, b ensures LinkRep(indices, edges, links, a, b) {
          assert LinkRep(indices0, edges, links, a, b);
          assert forall e :: e in edges ==> EdgeOk(nodes0, edges, e);
        }
      }
    }

    method ParentEdges(ps: seq<Id>, change: Change, ghost all: Edges, ghost weight: Id -> nat)
      returns (todo: seq<(Id, Id)>)
      requires Valid() && AreParentLinks(all, ps, change)
      ensures IsTodo(all, links, change.commit, todo)
      ensures Total(weight, Parents(todo)) <= Total(weight, ps)
    {
      todo := [];
      for i := 0 to |ps|
        invariant forall e :: e in todo ==>
                    e.1 == change.commit && e.0 in ps && IsDependency(change, e.0) && e !in links
        invariant forall j :: 0 <= j < i && IsDependency(change, ps[j]) && (ps[j], change.commit) !in links ==>
                    (ps[j], change.commit) in todo
        invariant Total(weight, Parents(todo)) <= Total(weight, ps[..i])
      {
        var p := ps[i];
        TotalStep(weight, ps, i);
        var known := HasEdge(p, change.commit);
        if IsDependency(change, p) && !known {
          ParentsStep(weight, todo, p, change.commit);
          todo := todo + [(p, change.commit)];
        }
      }
      assert ps[..|ps|] == ps;
    }

    method HasEdge(parent: Id, child: Id) returns (b: bool)
      requires Valid()
      ensures b == ((parent, child) in links)
    {
      assert LinkRep(indices, edges, links, parent, child);
      b := parent in indices && child in indices && (indices[parent], indices[child]) in edges;
    }

    /** Both ends must be known: the original looks them up without a check. */
    method AddEdge(child: Id, parent: Id)
      requires Valid()
      requires child in ids && parent in ids
      modifies this
      ensures Valid() && nodes == old(nodes) && ids == old(ids)
      ensures links == old(links) + {(parent, child)}
    {
      var e := (indices[parent], indices[child]);
      assert IndexOk(nodes, indices, parent) && IndexOk(nodes, indices, child);
      ghost var edges0 := edges;
      edges := edges + {e};
      links := links + {(parent, child)};
      forall f ensures EdgeOk(nodes, edges, f) { assert EdgeOk(nodes, edges0, f); }
      forall a, b ensures LinkRep(indices, edges, links, a, b) {
        assert LinkRep(indices, edges0, old(links), a, b);
        assert IndexOk(nodes, indices, a) && IndexOk(nodes, indices, b);
      }
    }

    /** The graph, provided some node has no incoming edge. */
    method Build() returns (g: Option<ChangeGraph>)
      requires Valid() && Acyclic(links)
      ensures g.None? <==> ids == {}
      ensures g.Some? ==>
                g.value.Valid() && g.value.nodes == nodes && g.value.Ids() == ids && g.value.EdgeIds() == links
    {
      var graph := ChangeGraph(nodes, edges);
      AsGraph();
      if nodes != [] {
        HasRoot(graph);
        assert NodeOk(nodes, indices, 0);
      }
      if exists i | 0 <= i < |nodes| :: IsRoot(graph, i) {
        g := Some(graph);
      } else {
        g := None;
      }
    }

    lemma AsGraph()
      requires Valid()
      ensures ChangeGraph(nodes, edges).Valid() && ChangeGraph(nodes, edges).Ids() == ids
      ensures ChangeGraph(nodes, edges).EdgeIds() == links
    {
      var E := ChangeGraph(nodes, edges).EdgeIds();
      forall e | e in links ensures e in E {
        assert LinkRep(indices, edges, links, e.0, e.1);
        assert IndexOk(nodes, indices, e.0) && IndexOk(nodes, indices, e.1);
      }
      forall f | f in edges ensures EdgeOk(nodes, edges, f) && (nodes[f.0].commit, nodes[f.1].commit) in links {
        assert EdgeOk(nodes, edges, f) && NodeOk(nodes, indices, f.0) && NodeOk(nodes, indices, f.1);
        assert LinkRep(indices, edges, links, nodes[f.0].commit, nodes[f.1].commit);
      }
      forall i, j | 0 <= i < j < |nodes| ensures nodes[i].commit != nodes[j].commit {
        assert NodeOk(nodes, indices, i) && NodeOk(nodes, indices, j);
      }
      assert forall e :: e in edges ==> EdgeOk(nodes, edges, e);
      forall i | 0 <= i < |nodes| ensures nodes[i].commit in ids {
        assert NodeOk(nodes, indices, i);
      }
      forall c | c in ids ensures c in ChangeGraph(nodes, edges).Ids() {
        assert IndexOk(nodes, indices, c);
      }
    }
  }

  /** Among `all` links, those into `change` come from its parents that are not bookkeeping. */
  ghost predicate AreParentLinks(all: Edges, ps: seq<Id>, change: Change) {
    forall e :: e in all && e.1 == change.commit <==> e.1 == change.commit && e.0 in ps && IsDependency(change, e.0)
  }

  /** `todo` holds the parent links of `n`, except the ones in `E` already. */
  ghost predicate IsTodo(all: Edges, E: Edges, n: Id, todo: seq<(Id, Id)>) {
    forall e :: e in todo <==> e in all && e.1 == n && e !in E
  }

  // ---------- The backward walk ----------

  /** What a walk looks at: all parent links, those of them that lead to a loadable change,
      and the ids it is meant to find. */
  datatype Walk = Walk(all: Edges, deps: Edges, goal: set<Id>)

  ghost function WalkOf(r: Repo, tips: set<Id>): Walk {
    Walk(ParentLinks(r), DependencyEdges(r), Ancestry(r, tips))
  }

  /** What holds between two steps of the walk over the `w.all` parent links, of which the `deps`
      lead to a loadable change: every dependency of a node found so far is an edge already,
      or waits on the stack. */
  ghost predicate Walking(w: Walk, ids: set<Id>, E: Edges, stack: seq<(Id, Id)>) {
    && ids <= w.goal
    && E <= w.deps
    && (forall e :: e in E ==> e.0 in ids && e.1 in ids)
    && (forall e :: e in w.deps && e.1 in ids ==> e in E || e in stack)
    && (forall e :: e in stack ==> e in w.all && e.1 in ids)
  }

  /** Adding a node together with its pending parent edges keeps the walk invariant. */
  lemma WalkNode(w: Walk, ids: set<Id>, E: Edges, stack: seq<(Id, Id)>, n: Id, todo: seq<(Id, Id)>)
    requires Walking(w, ids, E, stack) && n in w.goal
    requires IsTodo(w.all, E, n, todo)
    requires w.deps <= w.all
    ensures Walking(w, ids + {n}, E, stack + todo)
  {
  }

  /** Popping an edge whose parent loads: node, pending parents, then the edge itself. */
  lemma WalkStep(w: Walk, ids: set<Id>, E: Edges, stack: seq<(Id, Id)>, p: Id, c: Id, todo: seq<(Id, Id)>)
    requires Walking(w, ids, E, stack + [(p, c)])
    requires (p, c) in w.deps && w.deps <= w.all && BackwardClosed(w.deps, w.goal)
    requires IsTodo(w.all, E, p, todo)
    ensures Walking(w, ids + {p}, E + {(p, c)}, stack + todo)
  {
    assert (p, c) in stack + [(p, c)];
    WalkNode(w, ids, E, stack + [(p, c)], p, todo);
    assert forall e :: e in stack + [(p, c)] + todo ==> e in stack + todo || e == (p, c);
    assert forall e :: e in stack + todo ==> e in stack + [(p, c)] + todo;
  }

  /** Popping an edge whose parent does not load drops it. */
  lemma WalkSkip(w: Walk, ids: set<Id>, E: Edges, stack: seq<(Id, Id)>, p: Id, c: Id)
    requires Walking(w, ids, E, stack + [(p, c)])
    requires (p, c) !in w.deps
    ensures Walking(w, ids, E, stack)
  {
    assert forall e :: e in stack + [(p, c)] ==> e in stack || e == (p, c);
    assert forall e :: e in stack ==> e in stack + [(p, c)];
  }

  /** When nothing is left to walk, the graph is the whole history of the tips. */
  lemma WalkDone(r: Repo, tips: set<Id>, ids: set<Id>, E: Edges)
    requires Walking(WalkOf(r, tips), ids, E, [])
    requires forall t :: t in tips && t in r.changes ==> t in ids
    ensures ids == Ancestry(r, tips) && E == AncestryEdges(r, tips)
  {
    var D := DependencyEdges(r);
    assert BackwardClosed(D, ids);
    forall n | n in Ancestry(r, tips) ensures n in ids {
      var t :| t in tips && t in r.changes && Reaches(D, n, t);
      StaysInBackward(D, ids, n, t);
    }
  }

  // What the walk methods use of the repository, per change and per link.

  ghost predicate ChangeOk(w: Walk, r: Repo, c: Id) {
    c in r.changes ==> c in r.parents && r.changes[c].commit == c && AreParentLinks(w.all, r.parents[c], r.changes[c])
  }

  ghost predicate LinkOk(w: Walk, r: Repo, e: (Id, Id)) {
    (e in w.deps <==> e in w.all && e.0 in r.changes) && (e in w.all ==> e.0 in r.parents)
  }

  ghost predicate IsWalkOver(w: Walk, r: Repo) {
    && (forall c {:trigger ChangeOk(w, r, c)} :: ChangeOk(w, r, c))
    && (forall e {:trigger LinkOk(w, r, e)} :: LinkOk(w, r, e))
    && w.deps <= w.all
    && BackwardClosed(w.deps, w.goal)
  }

  lemma WalkOfIsWalk(r: Repo, tips: set<Id>) returns (weight: Id -> nat)
    requires WellFormed(r)
    ensures IsWalkOver(WalkOf(r, tips), r) && Weighs(r.parents, weight)
    ensures forall t :: t in tips && t in r.changes ==> t in WalkOf(r, tips).goal
  {
    var rank: Id -> nat :| Descending(r.parents, rank);
    weight := WeightExists(r.parents, rank);
    AncestryBackwardClosed(r, tips);
    forall t | t in tips && t in r.changes ensures t in Ancestry(r, tips) {
      ReachesSelf(DependencyEdges(r), t);
    }
    LinksOfRepo(r);
    var w := WalkOf(r, tips);
    forall c ensures ChangeOk(w, r, c) { assert CommitOk(r, c); }
    forall e ensures LinkOk(w, r, e) {}
  }

  lemma LinksOfRepo(r: Repo)
    requires WellFormed(r)
    ensures forall c :: c in r.changes ==> c in r.parents && AreParentLinks(ParentLinks(r), r.parents[c], r.changes[c])
    ensures forall e :: e in DependencyEdges(r) <==> e in ParentLinks(r) && e.0 in r.changes
    ensures forall e :: e in ParentLinks(r) ==> e.0 in r.parents
  {
    forall e | e in ParentLinks(r) && e.0 in r.changes ensures e in DependencyEdges(r) {
      assert DependsOn(r, e.1, e.0);
    }
    assert forall c :: c in r.changes ==> CommitOk(r, c);
  }

  ghost function SetOf(s: seq<Id>): set<Id> {
    set x | x in s
  }

  ghost predicate Loaded(r: Repo, nodes: seq<Change>) {
    forall i :: 0 <= i < |nodes| ==> nodes[i].commit in r.changes && nodes[i] == r.changes[nodes[i].commit]
  }

  ghost function LoadableTips(r: Repo, tips: seq<Id>, n: nat): (s: set<Id>)
    requires n <= |tips|
    ensures forall i :: 0 <= i < n && tips[i] in r.changes ==> tips[i] in s
  {
    if n == 0 then {} else
      LoadableTips(r, tips, n - 1) + if tips[n - 1] in r.changes then {tips[n - 1]} else {}
  }

  /** The walk invariant, read off the builder. */
  ghost predicate WalkState(w: Walk, b: GraphBuilder, stack: seq<(Id, Id)>)
    reads b
  {
    b.Valid() && Walking(w, b.ids, b.links, stack)
  }

  /** Puts the loadable references into the graph and their parent edges on the stack. */
  method AddTips(r: Repo, tips: seq<Id>, b: GraphBuilder, ghost w: Walk) returns (stack: seq<(Id, Id)>)
    requires IsWalkOver(w, r)
    requires forall t :: t in tips && t in r.changes ==> t in w.goal
    requires b.Valid() && b.ids == {} && b.links == {} && b.nodes == []
    modifies b
    ensures WalkState(w, b, stack) && Loaded(r, b.nodes)
    ensures LoadableTips(r, tips, |tips|) <= b.ids
  {
    stack := [];
    for i := 0 to |tips|
      invariant WalkState(w, b, stack) && Loaded(r, b.nodes)
      invariant LoadableTips(r, tips, i) <= b.ids
    {
      if tips[i] in r.changes {
        stack := AddTip(r, tips[i], b, stack, w);
      }
    }
  }

  method AddTip(r: Repo, tip: Id, b: GraphBuilder, stack: seq<(Id, Id)>, ghost w: Walk) returns (stack': seq<(Id, Id)>)
    requires IsWalkOver(w, r) && tip in r.changes && tip in w.goal
    requires WalkState(w, b, stack) && Loaded(r, b.nodes)
    modifies b
    ensures WalkState(w, b, stack') && Loaded(r, b.nodes) && b.ids == old(b.ids) + {tip}
  {
    ghost var ids, E := b.ids, b.links;
    assert ChangeOk(w, r, tip);
    var todo := b.AddChange(r.parents[tip], r.changes[tip], w.all, _ => 0);
    WalkNode(w, ids, E, stack, tip, todo);
    stack' := stack + todo;
  }

  /** One popped edge: the pending edges that replace it weigh less than it did. */
  method WalkOne(r: Repo, b: GraphBuilder, rest: seq<(Id, Id)>, p: Id, c: Id, ghost w: Walk, ghost weight: Id -> nat)
    returns (stack: seq<(Id, Id)>)
    requires IsWalkOver(w, r)
    requires WalkState(w, b, rest + [(p, c)]) && Loaded(r, b.nodes)
    requires p in r.parents ==> Total(weight, r.parents[p]) < weight(p)
    modifies b
    ensures WalkState(w, b, stack) && Loaded(r, b.nodes)
    ensures old(b.ids) <= b.ids
    ensures Total(weight, Parents(stack)) < Total(weight, Parents(rest)) + weight(p)
  {
    ghost var ids, E := b.ids, b.links;
    assert (p, c) in rest + [(p, c)];
    assert ChangeOk(w, r, p) && LinkOk(w, r, (p, c));
    if p in r.changes {
      var more := b.AddChange(r.parents[p], r.changes[p], w.all, weight);
      b.AddEdge(c, p);
      WalkStep(w, ids, E, rest, p, c, more);
      ParentsConcat(weight, rest, more);
      stack := rest + more;
    } else {
      WalkSkip(w, ids, E, rest, p, c);
      stack := rest;
    }
  }

  /** Processes the stack until it is empty. Edges can be on it more than once; the weight of
      the unfolded graph bounds the work all the same. */
  method WalkAll(r: Repo, b: GraphBuilder, todo: seq<(Id, Id)>, ghost w: Walk, ghost weight: Id -> nat)
    requires IsWalkOver(w, r)
    requires WalkState(w, b, todo) && Loaded(r, b.nodes) && Weighs(r.parents, weight)
    modifies b
    ensures WalkState(w, b, []) && Loaded(r, b.nodes)
    ensures old(b.ids) <= b.ids
  {
    var stack := todo;
    while stack != []
      invariant WalkState(w, b, stack) && Loaded(r, b.nodes)
      invariant old(b.ids) <= b.ids
      decreases Total(weight, Parents(stack))
    {
      var (p, c) := stack[|stack| - 1];
      var rest := stack[..|stack| - 1];
      assert stack == rest + [(p, c)];
      assert Parents(stack)[..|rest|] == Parents(rest);
      assert Heavier(r.parents, weight, p);
      stack := WalkOne(r, b, rest, p, c, w, weight);
    }
  }

  /** Walks backwards from the references and returns the graph found, or `None` when no
      reference leads to a change. */
  method Load(r: Repo, tips: seq<Id>) returns (g: Option<ChangeGraph>)
    requires WellFormed(r)
    requires forall t :: t in tips ==> t in r.parents
    ensures g.None? <==> Ancestry(r, SetOf(tips)) == {}
    ensures g.Some? ==>
              && g.value.Valid()
              && g.value.Ids() == Ancestry(r, SetOf(tips))
              && g.value.EdgeIds() == AncestryEdges(r, SetOf(tips))
              && Loaded(r, g.value.nodes)
  {
    ghost var w := WalkOf(r, SetOf(tips));
    ghost var weight := WalkOfIsWalk(r, SetOf(tips));
    var b := new GraphBuilder();
    var stack := AddTips(r, tips, b, w);
    WalkAll(r, b, stack, w, weight);
    WalkDone(r, SetOf(tips), b.ids, b.links);
    DependenciesAcyclic(r);
    AcyclicSubset(b.links, DependencyEdges(r));
    g := b.Build();
  }

  // ---------- What the graph says about the references ----------

  /** The result depends on the set of references only, not on their order or multiplicity: the
      graphs have the same nodes in some order, the same edges and the same tips. */
  lemma LoadOrderIrrelevant(r: Repo, tips: seq<Id>, tips': seq<Id>, g: ChangeGraph, g': ChangeGraph)
    requires SetOf(tips) == SetOf(tips') && Loaded(r, g.nodes) && Loaded(r, g'.nodes)
    requires g.Valid() && g.Ids() == Ancestry(r, SetOf(tips)) && g.EdgeIds() == AncestryEdges(r, SetOf(tips))
    requires g'.Valid() && g'.Ids() == Ancestry(r, SetOf(tips')) && g'.EdgeIds() == AncestryEdges(r, SetOf(tips'))
    ensures multiset(g.nodes) == multiset(g'.nodes) && g.EdgeIds() == g'.EdgeIds() && Tips(g) == Tips(g')
  {
    forall n ensures multiset(g.nodes)[n] == multiset(g'.nodes)[n] {
      CountDistinct(g.nodes, n);
      CountDistinct(g'.nodes, n);
      SameNodes(r, g, g', n);
      SameNodes(r, g', g, n);
    }
  }

  lemma SameNodes(r: Repo, g: ChangeGraph, g': ChangeGraph, n: Change)
    requires Loaded(r, g.nodes) && Loaded(r, g'.nodes) && g.Ids() == g'.Ids()
    ensures n in g.nodes ==> n in g'.nodes
  {
    if n in g.nodes {
      assert n.commit in g.Ids();
      var j :| 0 <= j < |g'.nodes| && g'.nodes[j].commit == n.commit;
    }
  }

  lemma {:induction false} CountDistinct<T>(s: seq<T>, x: T)
    requires forall i, j :: 0 <= i < j < |s| ==> s[i] != s[j]
    ensures multiset(s)[x] == if x in s then 1 else 0
  {
    if s != [] {
      var init, last := s[..|s| - 1], s[|s| - 1];
      assert s == init + [last];
      CountDistinct(init, x);
    }
  }

  /** The tips of a loaded graph are always among the referenced commits. */
  lemma TipsAreReferenced(r: Repo, tips: set<Id>, g: ChangeGraph)
    requires g.Valid() && g.Ids() == Ancestry(r, tips) && g.EdgeIds() == AncestryEdges(r, tips)
    ensures Tips(g) <= tips
  {
    forall n | n in Tips(g) ensures n in tips {
      var E := DependencyEdges(r);
      var t :| t in tips && t in r.changes && Reaches(E, n, t);
      if n != t {
        var m := FirstStep(E, n, t);
        assert (n, m) in AncestryEdges(r, tips);
      }
    }
  }
}
