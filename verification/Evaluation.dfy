/** Evaluating a change graph: every change is checked in topological order, rejected branches
    are pruned, and the accepted changes become a history (cob/src/change_graph.rs and
    cob/src/change_graph/evaluation.rs). */
module Evaluation {
  import opened Prelude
  import opened Graph
  import opened ChangeGraph
  import opened HistoryGraph
  import opened PruningFold
  import History

  /** The verdict on a change: its author if it is accepted. Signatures, the authorizing
      identity and the author are looked up outside this model. */
  type Check = Change -> Option<string>

  function EntryOf(check: Check, node: Node<Change>): Entry
    requires check(node.data).Some?
  {
    Entry(node.id, check(node.data).value, node.children, node.data.contents)
  }

  /** The fold callback: insert an accepted change, break on a rejected one. */
  function Insert(check: Check): (Entries, Node<Change>) -> Step<Entries> {
    (entries: Entries, node: Node<Change>) =>
      if check(node.data).Some? then Continue(entries[node.id := EntryOf(check, node)]) else Break(entries)
  }

  ghost predicate Fails(items: seq<Node<Change>>, check: Check, i: int) {
    0 <= i < |items| && check(items[i].data).None?
  }

  /** No change `id` depends on, itself included, is rejected. */
  ghost predicate Clean(items: seq<Node<Change>>, check: Check, id: Id) {
    forall i :: Fails(items, check, i) ==> !Reaches(ChildEdges(items), items[i].id, id)
  }

  ghost function RunBroken(items: seq<Node<Change>>, check: Check, n: nat): set<Id>
    requires n <= |items|
  {
    Run(items, n, map[], Insert(check)).1
  }

  lemma {:induction false} BrokenFail(items: seq<Node<Change>>, check: Check, n: nat, b: Id)
    requires n <= |items| && b in RunBroken(items, check, n)
    ensures exists i :: 0 <= i < n && items[i].id == b && Fails(items, check, i)
  {
    if n > 0 && b in RunBroken(items, check, n - 1) {
      BrokenFail(items, check, n - 1, b);
    } else {
      assert items[n - 1].id == b && Fails(items, check, n - 1);
    }
  }

  lemma {:induction false} BrokenStays(items: seq<Node<Change>>, check: Check, k: nat, n: nat)
    requires k <= n <= |items|
    ensures RunBroken(items, check, k) <= RunBroken(items, check, n)
  {
    if k < n { BrokenStays(items, check, k, n - 1); }
  }

  /** A node is pruned exactly when a proper ancestor is rejected. */
  lemma PrunedIffRejectedAncestor(items: seq<Node<Change>>, check: Check, n: nat)
    requires Topological(items) && n < |items|
    ensures Pruned(ChildEdges(items), RunBroken(items, check, n), items[n].id)
       <==> exists j :: Fails(items, check, j) && ProperlyReaches(ChildEdges(items), items[j].id, items[n].id)
  {
    var E, id := ChildEdges(items), items[n].id;
    if Pruned(E, RunBroken(items, check, n), id) {
      var b :| b in RunBroken(items, check, n) && ProperlyReaches(E, b, id);
      BrokenFail(items, check, n, b);
    }
    forall j | Fails(items, check, j) && ProperlyReaches(E, items[j].id, id)
      ensures Pruned(E, RunBroken(items, check, n), id)
    {
      AncestorsFirst(items, j, n);
      RejectedPrunes(items, check, j, n);
    }
  }

  lemma RejectedPrunes(items: seq<Node<Change>>, check: Check, j: nat, n: nat)
    requires Topological(items) && j < n < |items| && Fails(items, check, j)
    requires ProperlyReaches(ChildEdges(items), items[j].id, items[n].id)
    ensures Pruned(ChildEdges(items), RunBroken(items, check, n), items[n].id)
  {
    var E := ChildEdges(items);
    if Pruned(E, RunBroken(items, check, j), items[j].id) {
      var b :| b in RunBroken(items, check, j) && ProperlyReaches(E, b, items[j].id);
      ReachesTrans(E, b, items[j].id, items[n].id);
      BrokenAreListed(items, j, map[], Insert(check), b);
      BrokenStays(items, check, j, n);
    } else {
      assert items[j].id in RunBroken(items, check, j + 1);
      BrokenStays(items, check, j + 1, n);
    }
  }

  ghost function RunEntries(items: seq<Node<Change>>, check: Check, n: nat): Entries
    requires n <= |items|
  {
    Run(items, n, map[], Insert(check)).0
  }

  lemma CleanStep(items: seq<Node<Change>>, check: Check, n: nat)
    requires Topological(items) && n < |items|
    ensures Clean(items, check, items[n].id)
       <==> check(items[n].data).Some? && !Pruned(ChildEdges(items), RunBroken(items, check, n), items[n].id)
  {
    PrunedIffRejectedAncestor(items, check, n);
    ReachesSelf(ChildEdges(items), items[n].id);
    if Fails(items, check, n) {
      assert !Clean(items, check, items[n].id);
    } else {
      forall i | Fails(items, check, i) && Reaches(ChildEdges(items), items[i].id, items[n].id)
        ensures ProperlyReaches(ChildEdges(items), items[i].id, items[n].id)
      {
      }
    }
  }

  ghost predicate ResultOk(items: seq<Node<Change>>, check: Check, n: int, entries: Entries, k: int) {
    0 <= k < n <= |items| ==>
      && (items[k].id in entries <==> Clean(items, check, items[k].id))
      && (items[k].id in entries ==> check(items[k].data).Some? && entries[items[k].id] == EntryOf(check, items[k]))
  }

  /** The entries of the fold: exactly the clean changes, whatever the order of the listing. */
  lemma {:induction false} AcceptedEntries(items: seq<Node<Change>>, check: Check, n: nat)
    requires Topological(items) && n <= |items|
    ensures forall k {:trigger ResultOk(items, check, n, RunEntries(items, check, n), k)} ::
              ResultOk(items, check, n, RunEntries(items, check, n), k)
    ensures forall id :: id in RunEntries(items, check, n) ==> exists k :: 0 <= k < n && items[k].id == id
  {
    if n > 0 {
      AcceptedEntries(items, check, n - 1);
      CleanStep(items, check, n - 1);
      var before, after := RunEntries(items, check, n - 1), RunEntries(items, check, n);
      forall k ensures ResultOk(items, check, n, after, k) {
        assert ResultOk(items, check, n - 1, before, k);
      }
    }
  }

  // ---------- Listing the graph ----------

  /** A topological order of the nodes, as `Topo` yields one. */
  ghost predicate IsTopo(g: ChangeGraph, order: seq<nat>) {
    && IsTopoPrefix(g, order)
    && forall i :: 0 <= i < |g.nodes| ==> i in order
  }

  ghost predicate IsTopoPrefix(g: ChangeGraph, order: seq<nat>) {
    && (forall k :: 0 <= k < |order| ==> order[k] < |g.nodes|)
    && (forall j, k :: 0 <= j < k < |order| ==> order[j] != order[k])
    && (forall k, e :: 0 <= k < |order| && e in g.edges && e.1 == order[k] ==> e.0 in order[..k])
  }

  predicate IsReady(g: ChangeGraph, order: seq<nat>, i: nat) {
    i < |g.nodes| && i !in order && forall e | e in g.edges :: e.1 == i ==> e.0 in order
  }

  /** In an acyclic graph some unlisted node has all its predecessors listed. */
  lemma SomeReady(g: ChangeGraph, order: seq<nat>, start: nat)
    requires g.Valid() && Acyclic(g.EdgeIds())
    requires start < |g.nodes| && start !in order
    ensures exists i :: 0 <= i < |g.nodes| && IsReady(g, order, i)
  {
    var rank :| Ranked(g.EdgeIds(), rank);
    var i: nat := start;
    while !IsReady(g, order, i)
      invariant i < |g.nodes| && i !in order
      decreases rank(g.nodes[i].commit)
    {
      var e :| e in g.edges && e.1 == i && e.0 !in order;
      assert (g.nodes[e.0].commit, g.nodes[e.1].commit) in g.EdgeIds();
      i := e.0;
    }
  }

  function Below(n: nat): (s: set<nat>)
    ensures forall i :: i in s <==> 0 <= i < n
  {
    if n == 0 then {} else Below(n - 1) + {n - 1}
  }

  /** Lists ready nodes, any of them, until none is left. */
  method Topo(g: ChangeGraph) returns (order: seq<nat>)
    requires g.Valid() && Acyclic(g.EdgeIds())
    ensures IsTopo(g, order)
  {
    order := [];
    var left := Below(|g.nodes|);
    while left != {}
      invariant IsTopoPrefix(g, order)
      invariant forall i :: 0 <= i < |g.nodes| ==> (i in left <==> i !in order)
      invariant forall i :: i in left ==> 0 <= i < |g.nodes|
      decreases left
    {
      ghost var start :| start in left;
      SomeReady(g, order, start);
      var i :| 0 <= i < |g.nodes| && IsReady(g, order, i);
      TopoAppend(g, order, i);
      order := order + [i];
      left := left - {i};
    }
  }

  lemma TopoAppend(g: ChangeGraph, order: seq<nat>, i: nat)
    requires IsTopoPrefix(g, order) && IsReady(g, order, i)
    ensures IsTopoPrefix(g, order + [i])
  {
    var order' := order + [i];
    forall k, e | 0 <= k < |order'| && e in g.edges && e.1 == order'[k] ensures e.0 in order'[..k] {
      if k < |order| {
        assert order'[..k] == order[..k];
      } else {
        assert order'[..k] == order;
      }
    }
  }

  /** `cs` lists the targets of the edges out of node `i`. */
  ghost predicate IsChildList(g: ChangeGraph, i: nat, cs: seq<Id>) {
    i < |g.nodes| && forall c :: c in cs <==> (g.nodes[i].commit, c) in g.EdgeIds()
  }

  method ChildList(g: ChangeGraph, i: nat) returns (cs: seq<Id>)
    requires g.Valid() && i < |g.nodes|
    ensures IsChildList(g, i, cs)
  {
    cs := [];
    var left := set e | e in g.edges && e.0 == i;
    ghost var seen: set<(nat, nat)> := {};
    while left != {}
      invariant forall e :: e in left || e in seen <==> e in g.edges && e.0 == i
      invariant forall e :: e in seen ==> e.1 < |g.nodes| && g.nodes[e.1].commit in cs
      invariant forall c :: c in cs ==> (g.nodes[i].commit, c) in g.EdgeIds()
      decreases left
    {
      var e :| e in left;
      assert (g.nodes[e.0].commit, g.nodes[e.1].commit) in g.EdgeIds();
      cs := cs + [g.nodes[e.1].commit];
      left, seen := left - {e}, seen + {e};
    }
    ChildrenSeen(g, i, cs, seen);
  }

  lemma ChildrenSeen(g: ChangeGraph, i: nat, cs: seq<Id>, seen: set<(nat, nat)>)
    requires g.Valid() && i < |g.nodes|
    requires forall e :: e in seen <==> e in g.edges && e.0 == i
    requires forall e :: e in seen ==> e.1 < |g.nodes| && g.nodes[e.1].commit in cs
    requires forall c :: c in cs ==> (g.nodes[i].commit, c) in g.EdgeIds()
    ensures IsChildList(g, i, cs)
  {
    forall c | (g.nodes[i].commit, c) in g.EdgeIds() ensures c in cs {
      var e :| e in g.edges && e.0 < |g.nodes| && e.1 < |g.nodes|
        && (g.nodes[e.0].commit, g.nodes[e.1].commit) == (g.nodes[i].commit, c);
      assert e.0 == i;
    }
  }

  function ItemsOf(g: ChangeGraph, order: seq<nat>, kids: seq<seq<Id>>): seq<Node<Change>>
    requires |kids| == |order| && forall k :: 0 <= k < |order| ==> order[k] < |g.nodes|
  {
    seq(|order|, k requires 0 <= k < |order| => Node(g.nodes[order[k]].commit, kids[k], g.nodes[order[k]]))
  }

  /** The graph in topological order, each node with the commits of its children. */
  ghost predicate IsListing(g: ChangeGraph, order: seq<nat>, kids: seq<seq<Id>>) {
    IsTopo(g, order) && |kids| == |order| && forall k :: 0 <= k < |order| ==> IsChildList(g, order[k], kids[k])
  }

  method ListGraph(g: ChangeGraph) returns (order: seq<nat>, kids: seq<seq<Id>>)
    requires g.Valid() && Acyclic(g.EdgeIds())
    ensures IsListing(g, order, kids)
  {
    order := Topo(g);
    kids := [];
    for k := 0 to |order|
      invariant |kids| == k && forall j :: 0 <= j < k ==> IsChildList(g, order[j], kids[j])
    {
      var cs := ChildList(g, order[k]);
      kids := kids + [cs];
    }
  }

  lemma EdgeBetween(g: ChangeGraph, i: nat, j: nat)
    requires g.Valid() && i < |g.nodes| && j < |g.nodes|
    ensures (g.nodes[i].commit, g.nodes[j].commit) in g.EdgeIds() <==> (i, j) in g.edges
  {
    if (g.nodes[i].commit, g.nodes[j].commit) in g.EdgeIds() {
      var e :| e in g.edges && e.0 < |g.nodes| && e.1 < |g.nodes|
        && (g.nodes[e.0].commit, g.nodes[e.1].commit) == (g.nodes[i].commit, g.nodes[j].commit);
      assert e == (i, j);
    }
  }

  lemma ListingTopological(g: ChangeGraph, order: seq<nat>, kids: seq<seq<Id>>)
    requires g.Valid() && IsListing(g, order, kids)
    ensures Topological(ItemsOf(g, order, kids))
  {
    var items := ItemsOf(g, order, kids);
    forall i, j | 0 <= j <= i < |items| ensures items[j].id !in items[i].children {
      assert IsChildList(g, order[i], kids[i]);
      EdgeBetween(g, order[i], order[j]);
      assert order[i] !in order[..j];
    }
  }

  lemma ListingEdges(g: ChangeGraph, order: seq<nat>, kids: seq<seq<Id>>)
    requires g.Valid() && IsListing(g, order, kids)
    ensures ChildEdges(ItemsOf(g, order, kids)) == g.EdgeIds()
  {
    var items := ItemsOf(g, order, kids);
    forall x | x in ChildEdges(items) ensures x in g.EdgeIds() {
      var k :| 0 <= k < |items| && items[k].id == x.0 && x.1 in items[k].children;
      assert IsChildList(g, order[k], kids[k]);
    }
    forall x | x in g.EdgeIds() ensures x in ChildEdges(items) {
      var e :| e in g.edges && e.0 < |g.nodes| && e.1 < |g.nodes| && (g.nodes[e.0].commit, g.nodes[e.1].commit) == x;
      assert e.0 in order;
      var k :| 0 <= k < |order| && order[k] == e.0;
      assert IsChildList(g, order[k], kids[k]);
      assert items[k].id == x.0 && x.1 in items[k].children;
    }
  }

  // ---------- Evaluating it ----------

  /** No change of the graph that `id` depends on, itself included, is rejected. */
  ghost predicate CleanIn(g: ChangeGraph, check: Check, id: Id) {
    forall i :: 0 <= i < |g.nodes| && check(g.nodes[i]).None? ==> !Reaches(g.EdgeIds(), g.nodes[i].commit, id)
  }

  lemma CleanInListing(g: ChangeGraph, order: seq<nat>, kids: seq<seq<Id>>, check: Check, id: Id)
    requires g.Valid() && IsListing(g, order, kids)
    ensures Clean(ItemsOf(g, order, kids), check, id) <==> CleanIn(g, check, id)
  {
    var items := ItemsOf(g, order, kids);
    ListingEdges(g, order, kids);
    if Clean(items, check, id) {
      forall i | 0 <= i < |g.nodes| && check(g.nodes[i]).None? ensures !Reaches(g.EdgeIds(), g.nodes[i].commit, id) {
        assert i in order;
        var k :| 0 <= k < |order| && order[k] == i;
        assert Fails(items, check, k);
      }
    }
  }

  /** What the entry of an accepted change says. */
  ghost predicate EntryFor(g: ChangeGraph, check: Check, i: nat, entry: Entry) {
    && i < |g.nodes|
    && entry.id == g.nodes[i].commit
    && check(g.nodes[i]) == Some(entry.author)
    && entry.contents == g.nodes[i].contents
    && IsChildList(g, i, entry.children)
  }

  ghost predicate NodeEvaluated(g: ChangeGraph, check: Check, entries: Entries, i: nat) {
    i < |g.nodes| ==>
      && (g.nodes[i].commit in entries <==> CleanIn(g, check, g.nodes[i].commit))
      && (g.nodes[i].commit in entries ==> EntryFor(g, check, i, entries[g.nodes[i].commit]))
  }

  /** The entries of an evaluation, independent of the order in which the graph was listed. */
  ghost predicate Evaluated(g: ChangeGraph, check: Check, entries: Entries) {
    && (forall i: nat {:trigger NodeEvaluated(g, check, entries, i)} :: NodeEvaluated(g, check, entries, i))
    && entries.Keys <= g.Ids()
  }

  lemma EvaluatedListing(g: ChangeGraph, order: seq<nat>, kids: seq<seq<Id>>, check: Check)
    requires g.Valid() && IsListing(g, order, kids)
    ensures Evaluated(g, check, RunEntries(ItemsOf(g, order, kids), check, |order|))
  {
    var items := ItemsOf(g, order, kids);
    var entries := RunEntries(items, check, |order|);
    ListingTopological(g, order, kids);
    AcceptedEntries(items, check, |order|);
    forall i: nat ensures NodeEvaluated(g, check, entries, i) {
      if i < |g.nodes| {
        assert i in order;
        var k :| 0 <= k < |order| && order[k] == i;
        assert ResultOk(items, check, |order|, entries, k);
        CleanInListing(g, order, kids, check, g.nodes[i].commit);
        assert IsChildList(g, order[k], kids[k]);
      }
    }
    forall id | id in entries ensures id in g.Ids() {
      var k :| 0 <= k < |items| && items[k].id == id;
    }
  }

  lemma EvaluatedEntry(g: ChangeGraph, check: Check, entries: Entries, k: Id) returns (i: nat)
    requires g.Valid() && Evaluated(g, check, entries) && k in entries
    ensures i < |g.nodes| && g.nodes[i].commit == k && EntryFor(g, check, i, entries[k])
  {
    assert k in g.Ids();
    i :| 0 <= i < |g.nodes| && g.nodes[i].commit == k;
    assert NodeEvaluated(g, check, entries, i);
  }

  lemma EvaluatedLinks(g: ChangeGraph, check: Check, entries: Entries)
    requires g.Valid() && Evaluated(g, check, entries)
    ensures Keyed(entries)
    ensures forall e :: e in ChildLinks(entries) <==> e in g.EdgeIds() && e.0 in entries
  {
    forall k | k in entries ensures entries[k].id == k {
      var i := EvaluatedEntry(g, check, entries, k);
    }
    forall e ensures e in ChildLinks(entries) <==> e in g.EdgeIds() && e.0 in entries {
      if e.0 in entries {
        var i := EvaluatedEntry(g, check, entries, e.0);
        assert e == (e.0, e.1);
      }
    }
  }

  lemma EvaluatedAcyclic(g: ChangeGraph, check: Check, entries: Entries)
    requires g.Valid() && Evaluated(g, check, entries) && Acyclic(g.EdgeIds())
    ensures AcyclicEntries(entries)
  {
    EvaluatedLinks(g, check, entries);
    var rank := FlipRank(g.EdgeIds());
    forall n, m | n in ChildLists(entries) && m in ChildLists(entries)[n] ensures rank(m) < rank(n) {
      assert (n, m) in ChildLinks(entries);
    }
    assert Descending(ChildLists(entries), rank);
  }

  lemma CleanIffEntry(g: ChangeGraph, check: Check, entries: Entries, x: Id)
    requires g.Valid() && Evaluated(g, check, entries) && x in g.Ids()
    ensures x in entries <==> CleanIn(g, check, x)
  {
    var i :| 0 <= i < |g.nodes| && g.nodes[i].commit == x;
    assert NodeEvaluated(g, check, entries, i);
  }

  lemma ReachedAreNodes(g: ChangeGraph, a: Id, b: Id)
    requires g.Valid() && a in g.Ids() && Reaches(g.EdgeIds(), a, b)
    ensures b in g.Ids()
  {
    StaysInForward(g.EdgeIds(), g.Ids(), a, b);
  }

  /** Rebuilding the history from the entries works exactly when everything below the root is
      clean: the child lists name rejected changes too, and those have no entry. */
  lemma HistoryIffAllClean(g: ChangeGraph, check: Check, entries: Entries, root: Id)
    requires g.Valid() && Evaluated(g, check, entries) && root in g.Ids()
    ensures (root in entries && RootClosed(root, entries))
       <==> forall x :: Reaches(g.EdgeIds(), root, x) ==> CleanIn(g, check, x)
  {
    var E, L := g.EdgeIds(), ChildLinks(entries);
    EvaluatedLinks(g, check, entries);
    if root in entries && RootClosed(root, entries) {
      var s := set x | x in entries.Keys && Reaches(L, root, x);
      ReachesSelf(L, root);
      forall e | e in E && e.0 in s ensures e.1 in s {
        ReachesEdge(L, e.0, e.1);
        ReachesTrans(L, root, e.0, e.1);
      }
      forall x | Reaches(E, root, x) ensures CleanIn(g, check, x) {
        StaysInForward(E, s, root, x);
        CleanIffEntry(g, check, entries, x);
      }
    }
    if forall x :: Reaches(E, root, x) ==> CleanIn(g, check, x) {
      forall x | Reaches(L, root, x) ensures x in entries {
        ReachesMono(L, E, root, x);
        ReachedAreNodes(g, root, x);
        CleanIffEntry(g, check, entries, x);
      }
      ReachesSelf(L, root);
    }
  }

  /** The first node without incoming edges. */
  method FirstRoot(g: ChangeGraph) returns (i: nat)
    requires exists j :: 0 <= j < |g.nodes| && IsRoot(g, j)
    ensures i < |g.nodes| && IsRoot(g, i) && forall j: nat :: j < i ==> !IsRoot(g, j)
  {
    i := 0;
    while !IsRoot(g, i)
      invariant i < |g.nodes| && forall j: nat :: j < i ==> !IsRoot(g, j)
      decreases |g.nodes| - i
    {
      i := i + 1;
    }
  }

  /** Checks and prunes the graph, then rebuilds a history from its first root. `root` is that
      root. The call panics unless every change below the root is clean. */
  method Evaluate(g: ChangeGraph, check: Check) returns (r: Outcome<History.History>, root: Id, ghost visited: seq<Id>)
    requires g.Valid() && Acyclic(g.EdgeIds()) && g.nodes != []
    ensures root in g.Ids() && exists i :: 0 <= i < |g.nodes| && IsRoot(g, i) && g.nodes[i].commit == root
    ensures r.Returned? <==> forall x :: Reaches(g.EdgeIds(), root, x) ==> CleanIn(g, check, x)
    ensures r.Returned? ==>
              && fresh(r.value) && r.value.root == root && Evaluated(g, check, r.value.entries)
              && Built(root, r.value.entries, r.value.graph, [], visited)
  {
    HasRoot(g);
    var i := FirstRoot(g);
    root := g.nodes[i].commit;
    var order, kids := ListGraph(g);
    var entries, _, _ := Fold(map[], ItemsOf(g, order, kids), Insert(check));
    ListingTopological(g, order, kids);
    EvaluatedListing(g, order, kids, check);
    EvaluatedLinks(g, check, entries);
    EvaluatedAcyclic(g, check, entries);
    HistoryIffAllClean(g, check, entries, root);
    var h;
    h, visited := History.New(root, entries);
    if h.Panicked? || h.value.Err? {
      r := Panicked;
    } else {
      r := Returned(h.value.value);
    }
  }

  // ---------- What evaluation amounts to ----------

  /** Two evaluations agree on everything but the order of child lists. */
  lemma EvaluationOrderIrrelevant(g: ChangeGraph, check: Check, entries: Entries, entries': Entries)
    requires g.Valid() && Evaluated(g, check, entries) && Evaluated(g, check, entries')
    ensures entries.Keys == entries'.Keys
    ensures forall k :: k in entries ==>
              && entries[k].id == entries'[k].id && entries[k].author == entries'[k].author
              && entries[k].contents == entries'[k].contents
              && forall c :: c in entries[k].children <==> c in entries'[k].children
  {
    forall x | x in g.Ids() ensures x in entries <==> x in entries' {
      CleanIffEntry(g, check, entries, x);
      CleanIffEntry(g, check, entries', x);
    }
    forall k | k in entries
      ensures entries[k].id == entries'[k].id && entries[k].author == entries'[k].author
              && entries[k].contents == entries'[k].contents
      ensures forall c :: c in entries[k].children <==> c in entries'[k].children
    {
      var i := EvaluatedEntry(g, check, entries, k);
      var j := EvaluatedEntry(g, check, entries', k);
    }
  }

  ghost predicate SingleRoot(g: ChangeGraph) {
    forall i, j :: 0 <= i < |g.nodes| && 0 <= j < |g.nodes| && IsRoot(g, i) && IsRoot(g, j) ==> i == j
  }

  lemma {:induction false} RootAbove(g: ChangeGraph, rank: Id -> nat, i: nat) returns (r: nat)
    requires g.Valid() && Ranked(g.EdgeIds(), rank) && i < |g.nodes|
    ensures r < |g.nodes| && IsRoot(g, r) && Reaches(g.EdgeIds(), g.nodes[r].commit, g.nodes[i].commit)
    decreases rank(g.nodes[i].commit)
  {
    if IsRoot(g, i) {
      ReachesSelf(g.EdgeIds(), g.nodes[i].commit);
      r := i;
    } else {
      var e :| e in g.edges && e.1 == i;
      assert (g.nodes[e.0].commit, g.nodes[e.1].commit) in g.EdgeIds();
      r := RootAbove(g, rank, e.0);
      ReachesEdge(g.EdgeIds(), g.nodes[e.0].commit, g.nodes[i].commit);
      ReachesTrans(g.EdgeIds(), g.nodes[r].commit, g.nodes[e.0].commit, g.nodes[i].commit);
    }
  }

  /** With a single root, evaluation succeeds exactly when no change at all is rejected. */
  lemma SingleRootAllAccepted(g: ChangeGraph, check: Check, r: nat)
    requires g.Valid() && Acyclic(g.EdgeIds()) && SingleRoot(g) && IsRoot(g, r)
    ensures (forall x :: Reaches(g.EdgeIds(), g.nodes[r].commit, x) ==> CleanIn(g, check, x))
       <==> forall i :: 0 <= i < |g.nodes| ==> check(g.nodes[i]).Some?
  {
    var rank :| Ranked(g.EdgeIds(), rank);
    if forall x :: Reaches(g.EdgeIds(), g.nodes[r].commit, x) ==> CleanIn(g, check, x) {
      forall i | 0 <= i < |g.nodes| ensures check(g.nodes[i]).Some? {
        var r' := RootAbove(g, rank, i);
        ReachesSelf(g.EdgeIds(), g.nodes[i].commit);
        assert CleanIn(g, check, g.nodes[i].commit);
      }
    }
  }

  /** A root with one rejected child: the rejected branch is not filtered out, because the root's
      entry still lists it and the history cannot be rebuilt. */
  lemma RejectedChildNotFiltered(root: Change, child: Change, check: Check)
    requires root.commit != child.commit && check(root).Some? && check(child).None?
    ensures var g := ChangeGraph([root, child], {(0, 1)});
            g.Valid() && IsRoot(g, 0) && !forall x :: Reaches(g.EdgeIds(), root.commit, x) ==> CleanIn(g, check, x)
  {
    var g := ChangeGraph([root, child], {(0, 1)});
    assert (0, 1) in g.edges && g.nodes[0] == root && g.nodes[1] == child;
    assert (root.commit, child.commit) in g.EdgeIds();
    ReachesEdge(g.EdgeIds(), root.commit, child.commit);
    ReachesSelf(g.EdgeIds(), child.commit);
    assert !CleanIn(g, check, child.commit);
  }
}
