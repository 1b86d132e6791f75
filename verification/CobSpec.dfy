/** What a stored history must agree with: the object a fresh load and evaluation of the
    current references would give (cob/src/lib.rs, cob/src/cache.rs). */
module CobSpec {
  import opened Prelude
  import opened Graph
  import opened ChangeGraph
  import opened HistoryGraph
  import opened Evaluation
  import opened History

  // ---------- Agreement with a fresh evaluation ----------

  ghost predicate EntryAgrees(r: Repo, check: Check, entries: Entries, k: Id) {
    k in entries ==>
      && entries[k].id == k && k in r.changes
      && check(r.changes[k]) == Some(entries[k].author) && entries[k].contents == r.changes[k].contents
  }

  ghost predicate ReachAgrees(r: Repo, entries: Entries, a: Id, b: Id) {
    a in entries && b in entries ==> (Reaches(ChildLinks(entries), a, b) <==> Reaches(DependencyEdges(r), a, b))
  }

  ghost predicate Below(entries: Entries, root: Id, a: Id) {
    a in entries ==> Reaches(ChildLinks(entries), root, a)
  }

  /** The history has the ids, the contents, the authors and the ancestor relation of the changes
      that the references lead to, all of them below its root. */
  ghost predicate Agrees(r: Repo, check: Check, tips: set<Id>, root: Id, entries: Entries) {
    && entries.Keys == Ancestry(r, tips)
    && root in entries
    && (forall k {:trigger EntryAgrees(r, check, entries, k)} :: EntryAgrees(r, check, entries, k))
    && (forall a, b {:trigger ReachAgrees(r, entries, a, b)} :: ReachAgrees(r, entries, a, b))
    && (forall a {:trigger Below(entries, root, a)} :: Below(entries, root, a))
  }

  ghost predicate Heads(r: Repo, tips: set<Id>, root: Id, a: Id) {
    a in Ancestry(r, tips) ==> Reaches(DependencyEdges(r), root, a)
  }

  ghost predicate IsRootOf(r: Repo, tips: set<Id>, root: Id) {
    root in Ancestry(r, tips) && forall a {:trigger Heads(r, tips, root, a)} :: Heads(r, tips, root, a)
  }

  ghost predicate Passes(r: Repo, check: Check, tips: set<Id>, k: Id) {
    k in Ancestry(r, tips) ==> check(r.changes[k]).Some?
  }

  ghost predicate Rooted(r: Repo, tips: set<Id>) {
    exists root :: IsRootOf(r, tips, root)
  }

  /** The references lead to an object with one root and no rejected change. */
  ghost predicate Good(r: Repo, check: Check, tips: set<Id>) {
    && (forall k {:trigger Passes(r, check, tips, k)} :: Passes(r, check, tips, k))
    && Rooted(r, tips)
  }

  // ---------- A fresh evaluation agrees ----------

  ghost predicate IsLoaded(r: Repo, tips: set<Id>, g: ChangeGraph) {
    && g.Valid() && g.Ids() == Ancestry(r, tips) && g.EdgeIds() == AncestryEdges(r, tips) && Loaded(r, g.nodes)
  }

  lemma LoadedReach(r: Repo, tips: set<Id>, a: Id, b: Id)
    requires b in Ancestry(r, tips)
    ensures Reaches(AncestryEdges(r, tips), a, b) <==> Reaches(DependencyEdges(r), a, b)
  {
    AncestryBackwardClosed(r, tips);
    RestrictReach(DependencyEdges(r), AncestryEdges(r, tips), Ancestry(r, tips), a, b);
  }

  /** On good references nothing is rejected, so nothing is pruned. */
  lemma GoodIsClean(r: Repo, check: Check, tips: set<Id>, g: ChangeGraph)
    requires Good(r, check, tips) && IsLoaded(r, tips, g)
    ensures forall x :: CleanIn(g, check, x)
  {
    forall i | 0 <= i < |g.nodes| ensures check(g.nodes[i]).Some? {
      assert g.nodes[i].commit in g.Ids() && Passes(r, check, tips, g.nodes[i].commit);
    }
  }

  /** A node without incoming edges is the root. */
  lemma TheRoot(r: Repo, tips: set<Id>, g: ChangeGraph, i: nat, root: Id)
    requires IsLoaded(r, tips, g) && IsRoot(g, i) && IsRootOf(r, tips, root)
    ensures g.nodes[i].commit == root
  {
    var id := g.nodes[i].commit;
    assert id in g.Ids() && Heads(r, tips, root, id);
    LoadedReach(r, tips, root, id);
    NothingIntoRoot(g, i);
    if root != id {
      var c := LastStep(g.EdgeIds(), root, id);
    }
  }

  lemma NothingIntoRoot(g: ChangeGraph, i: nat)
    requires g.Valid() && IsRoot(g, i)
    ensures forall e :: e in g.EdgeIds() ==> e.1 != g.nodes[i].commit
  {
    forall e | e in g.EdgeIds() ensures e.1 != g.nodes[i].commit {
      var f :| f in g.edges && f.0 < |g.nodes| && f.1 < |g.nodes| && (g.nodes[f.0].commit, g.nodes[f.1].commit) == e;
      assert f.1 != i;
    }
  }

  /** With one root, everything below it is clean only if nothing is rejected. */
  lemma CleanIsGood(r: Repo, check: Check, tips: set<Id>, g: ChangeGraph, i: nat)
    requires Rooted(r, tips) && IsLoaded(r, tips, g) && IsRoot(g, i)
    requires forall x :: Reaches(g.EdgeIds(), g.nodes[i].commit, x) ==> CleanIn(g, check, x)
    ensures Good(r, check, tips)
  {
    var root :| IsRootOf(r, tips, root);
    TheRoot(r, tips, g, i, root);
    forall k ensures Passes(r, check, tips, k) {
      if k in Ancestry(r, tips) {
        assert Heads(r, tips, root, k);
        LoadedReach(r, tips, root, k);
        CleanAccepted(r, check, tips, g, k);
      }
    }
  }

  lemma CleanAccepted(r: Repo, check: Check, tips: set<Id>, g: ChangeGraph, k: Id)
    requires IsLoaded(r, tips, g) && k in g.Ids() && CleanIn(g, check, k)
    ensures check(r.changes[k]).Some?
  {
    var j :| 0 <= j < |g.nodes| && g.nodes[j].commit == k;
    ReachesSelf(g.EdgeIds(), k);
  }

  lemma FreshAgrees(r: Repo, check: Check, tips: set<Id>, g: ChangeGraph, i: nat, entries: Entries)
    requires Good(r, check, tips) && IsLoaded(r, tips, g) && IsRoot(g, i) && Evaluated(g, check, entries)
    ensures Agrees(r, check, tips, g.nodes[i].commit, entries)
  {
    var root :| IsRootOf(r, tips, root);
    TheRoot(r, tips, g, i, root);
    GoodIsClean(r, check, tips, g);
    EvaluatedLinks(g, check, entries);
    forall x | x in g.Ids() ensures x in entries { CleanIffEntry(g, check, entries, x); }
    assert ChildLinks(entries) == g.EdgeIds() by {
      forall e | e in g.EdgeIds() ensures e.0 in entries { assert e.0 in g.Ids(); }
    }
    forall k ensures EntryAgrees(r, check, entries, k) {
      if k in entries { var j := EvaluatedEntry(g, check, entries, k); }
    }
    forall a, b ensures ReachAgrees(r, entries, a, b) {
      if b in entries { LoadedReach(r, tips, a, b); }
    }
    forall a ensures Below(entries, root, a) {
      assert Heads(r, tips, root, a);
      if a in entries { LoadedReach(r, tips, root, a); }
    }
  }

  // ---------- The repository only grows ----------

  /** Commits are added, none is changed. */
  ghost predicate Grows(r: Repo, r': Repo) {
    && (forall c :: c in r.parents ==> c in r'.parents && r'.parents[c] == r.parents[c])
    && (forall c :: c in r.parents ==> (c in r'.changes <==> c in r.changes))
    && (forall c :: c in r.changes ==> c in r'.changes && r'.changes[c] == r.changes[c])
  }

  lemma GrownEdges(r: Repo, r': Repo)
    requires WellFormed(r) && WellFormed(r') && Grows(r, r')
    ensures DependencyEdges(r) <= DependencyEdges(r')
    ensures BackwardClosed(DependencyEdges(r'), r.changes.Keys)
    ensures forall e :: e in DependencyEdges(r') && e.1 in r.changes ==> e in DependencyEdges(r)
  {
    forall e | e in DependencyEdges(r) ensures e in DependencyEdges(r') {
      assert DependsOn(r, e.1, e.0) && DependsOn(r', e.1, e.0);
    }
    forall e | e in DependencyEdges(r') && e.1 in r.changes ensures e in DependencyEdges(r) {
      assert DependsOn(r', e.1, e.0) && CommitOk(r, e.1);
      assert e.0 in r.parents;
      assert DependsOn(r, e.1, e.0);
    }
  }

  lemma GrownReach(r: Repo, r': Repo, a: Id, b: Id)
    requires WellFormed(r) && WellFormed(r') && Grows(r, r') && b in r.changes
    ensures Reaches(DependencyEdges(r'), a, b) <==> Reaches(DependencyEdges(r), a, b)
    ensures Reaches(DependencyEdges(r'), a, b) ==> a in r.changes
  {
    GrownEdges(r, r');
    RestrictReach(DependencyEdges(r'), DependencyEdges(r), r.changes.Keys, a, b);
    if Reaches(DependencyEdges(r'), a, b) {
      StaysInBackward(DependencyEdges(r'), r.changes.Keys, a, b);
    }
  }

  lemma GrownAncestry(r: Repo, r': Repo, tips: set<Id>)
    requires WellFormed(r) && WellFormed(r') && Grows(r, r')
    requires tips <= r.parents.Keys
    ensures Ancestry(r', tips) == Ancestry(r, tips)
  {
    forall n | n in Ancestry(r, tips) ensures n in Ancestry(r', tips) {
      var t :| t in tips && t in r.changes && Reaches(DependencyEdges(r), n, t);
      GrownReach(r, r', n, t);
      assert ReachesSome(r', tips, n);
    }
    forall n | n in Ancestry(r', tips) ensures n in Ancestry(r, tips) {
      var t :| t in tips && t in r'.changes && Reaches(DependencyEdges(r'), n, t);
      GrownReach(r, r', n, t);
      assert ReachesSome(r, tips, n);
    }
  }

  /** New commits do not change what old references lead to. */
  lemma GrownGood(r: Repo, r': Repo, check: Check, tips: set<Id>)
    requires WellFormed(r) && WellFormed(r') && Grows(r, r')
    requires tips <= r.parents.Keys
    ensures Good(r', check, tips) <==> Good(r, check, tips)
  {
    GrownAncestry(r, r', tips);
    forall root, a ensures Heads(r', tips, root, a) <==> Heads(r, tips, root, a) {
      if a in Ancestry(r, tips) { GrownReach(r, r', root, a); }
    }
    forall root ensures IsRootOf(r', tips, root) <==> IsRootOf(r, tips, root) {
      if IsRootOf(r, tips, root) { forall a ensures Heads(r', tips, root, a) { assert Heads(r, tips, root, a); } }
      if IsRootOf(r', tips, root) { forall a ensures Heads(r, tips, root, a) { assert Heads(r', tips, root, a); } }
    }
    forall k ensures Passes(r', check, tips, k) <==> Passes(r, check, tips, k) {}
    if Good(r, check, tips) { forall k ensures Passes(r', check, tips, k) { assert Passes(r, check, tips, k); } }
    if Good(r', check, tips) { forall k ensures Passes(r, check, tips, k) { assert Passes(r', check, tips, k); } }
  }

  lemma GrownShape(r: Repo, r': Repo, root: Id, entries: Entries)
    requires Grows(r, r') && Shape(r, root, entries)
    ensures Shape(r', root, entries)
  {
    forall k ensures EntryKnown(r', entries, k) { assert EntryKnown(r, entries, k); }
  }

  lemma GrownAgrees(r: Repo, r': Repo, check: Check, tips: set<Id>, root: Id, entries: Entries)
    requires WellFormed(r) && WellFormed(r') && Grows(r, r')
    requires tips <= r.parents.Keys
    requires Agrees(r, check, tips, root, entries)
    ensures Agrees(r', check, tips, root, entries)
  {
    GrownAncestry(r, r', tips);
    forall k ensures EntryAgrees(r', check, entries, k) { assert EntryAgrees(r, check, entries, k); }
    forall a, b ensures ReachAgrees(r', entries, a, b) {
      assert ReachAgrees(r, entries, a, b);
      if b in entries { GrownReach(r, r', a, b); }
    }
  }

  // ---------- An update ----------

  /** The repository after committing a change on top of `tips`. The commit's parents are the
      tips, the authorizing identity and the author. */
  function Commit(r: Repo, change: Change, tips: seq<Id>): Repo {
    Repo(r.parents[change.commit := tips + [change.authorizerCommit, change.authorCommit]],
         r.changes[change.commit := change])
  }

  /** A new commit whose author and authorizing identity are commits but not changes. */
  ghost predicate CanCommit(r: Repo, change: Change, tips: seq<Id>) {
    && change.commit !in r.parents && change.schemaCommit.None?
    && change.authorCommit in r.parents && change.authorCommit !in r.changes
    && change.authorizerCommit in r.parents && change.authorizerCommit !in r.changes
    && forall t :: t in tips ==> t in r.parents
  }

  lemma CommitRanked(r: Repo, change: Change, tips: seq<Id>)
    requires WellFormed(r) && CanCommit(r, change, tips)
    ensures AcyclicCommits(Commit(r, change, tips))
  {
    var rank: Id -> nat :| Descending(r.parents, rank);
    var bound := RankBound(r.parents.Keys, rank);
    var rank' := (x: Id) => if x == change.commit then bound + 1 else rank(x);
    var next := Commit(r, change, tips).parents;
    forall n | n in next ensures forall m :: m in next[n] ==> rank'(m) < rank'(n) {
      assert CommitOk(r, n);
      if n == change.commit {
        assert forall m :: m in next[n] ==> m in r.parents.Keys;
      } else {
        assert next[n] == r.parents[n];
      }
    }
    assert Descending(next, rank');
  }

  lemma CommitGrows(r: Repo, change: Change, tips: seq<Id>)
    requires WellFormed(r) && CanCommit(r, change, tips)
    ensures WellFormed(Commit(r, change, tips)) && Grows(r, Commit(r, change, tips))
  {
    CommitRanked(r, change, tips);
    var r' := Commit(r, change, tips);
    forall c ensures CommitOk(r', c) { assert CommitOk(r, c); }
    assert CommitOk(r, change.commit);
  }

  lemma CommitEdges(r: Repo, change: Change, tips: seq<Id>)
    requires WellFormed(r) && CanCommit(r, change, tips)
    ensures var D' := DependencyEdges(Commit(r, change, tips));
            && AddsSink(DependencyEdges(r), D', change.commit)
            && forall t :: (t, change.commit) in D' <==> t in tips && t in r.changes
  {
    var r', n := Commit(r, change, tips), change.commit;
    CommitGrows(r, change, tips);
    GrownEdges(r, r');
    var D' := DependencyEdges(r');
    forall e | e in D' ensures e.0 != n && (e in DependencyEdges(r) || e.1 == n) {
      assert DependsOn(r', e.1, e.0) && CommitOk(r, e.1);
    }
    forall t ensures (t, n) in D' <==> t in tips && t in r.changes {
      assert (t, n) in D' <==> DependsOn(r', n, t);
    }
  }

  /** After a commit on top of all tips, every set of tips with the new commit and otherwise only
      old tips leads to the old changes and the new one. */
  lemma CommitAncestry(r: Repo, change: Change, tips: seq<Id>, tips': set<Id>)
    requires WellFormed(r) && CanCommit(r, change, tips)
    requires change.commit in tips' && tips' <= SetOf(tips) + {change.commit}
    ensures Ancestry(Commit(r, change, tips), tips') == Ancestry(r, SetOf(tips)) + {change.commit}
  {
    var r', n := Commit(r, change, tips), change.commit;
    var D, D' := DependencyEdges(r), DependencyEdges(r');
    CommitEdges(r, change, tips);
    forall x | x in Ancestry(r, SetOf(tips)) ensures x in Ancestry(r', tips') {
      var t :| t in SetOf(tips) && t in r.changes && Reaches(D, x, t);
      ReachesMono(D, D', x, t);
      ReachesEdge(D', t, n);
      ReachesTrans(D', x, t, n);
    }
    ReachesSelf(D', n);
    forall x | x in Ancestry(r', tips') && x != n ensures x in Ancestry(r, SetOf(tips)) {
      OldAncestor(r, change, tips, tips', x);
    }
  }

  lemma OldAncestor(r: Repo, change: Change, tips: seq<Id>, tips': set<Id>, x: Id)
    requires WellFormed(r) && CanCommit(r, change, tips)
    requires tips' <= SetOf(tips) + {change.commit}
    requires x in Ancestry(Commit(r, change, tips), tips') && x != change.commit
    ensures x in Ancestry(r, SetOf(tips))
  {
    var r', n := Commit(r, change, tips), change.commit;
    var D, D' := DependencyEdges(r), DependencyEdges(r');
    CommitEdges(r, change, tips);
    var t :| t in tips' && t in r'.changes && Reaches(D', x, t);
    if t == n {
      t := LastStep(D', x, n);
    }
    assert t in SetOf(tips) && t in r.changes;
    SinkReach(D, D', n, x, t);
    assert ReachesSome(r, SetOf(tips), x);
  }

  /** The root after a commit on top of a non-empty object was its root before. */
  lemma CommitRoot(r: Repo, change: Change, tips: seq<Id>, tips': set<Id>, root: Id)
    requires WellFormed(r) && CanCommit(r, change, tips)
    requires change.commit in tips' && tips' <= SetOf(tips) + {change.commit}
    requires Ancestry(r, SetOf(tips)) != {}
    requires IsRootOf(Commit(r, change, tips), tips', root)
    ensures IsRootOf(r, SetOf(tips), root)
  {
    var r', n := Commit(r, change, tips), change.commit;
    var D, D' := DependencyEdges(r), DependencyEdges(r');
    var ids := Ancestry(r, SetOf(tips));
    CommitAncestry(r, change, tips, tips');
    CommitEdges(r, change, tips);
    forall a ensures Heads(r, SetOf(tips), root, a) {
      if a in ids {
        assert Heads(r', tips', root, a) && CommitOk(r, a);
        SinkReach(D, D', n, root, a);
      }
    }
    var some :| some in ids;
    assert Heads(r', tips', root, some) && CommitOk(r, some);
    SinkReachesSelf(D', n, some);
  }

  /** A commit on top of all tips keeps the root. */
  lemma CommitKeepsRoot(r: Repo, change: Change, tips: seq<Id>, tips': set<Id>, root: Id)
    requires WellFormed(r) && CanCommit(r, change, tips)
    requires change.commit in tips' && tips' <= SetOf(tips) + {change.commit}
    requires IsRootOf(r, SetOf(tips), root)
    ensures IsRootOf(Commit(r, change, tips), tips', root)
  {
    var r', n := Commit(r, change, tips), change.commit;
    CommitAncestry(r, change, tips, tips');
    CommitEdges(r, change, tips);
    forall a ensures Heads(r', tips', root, a) {
      if a == n {
        AllLeadToCommit(r, change, tips, root);
      } else if a in Ancestry(r, SetOf(tips)) {
        assert Heads(r, SetOf(tips), root, a);
        ReachesMono(DependencyEdges(r), DependencyEdges(r'), root, a);
      }
    }
  }

  /** If the object is good after a commit on top of it, it was good before. */
  lemma CommitGood(r: Repo, check: Check, change: Change, tips: seq<Id>, tips': set<Id>)
    requires WellFormed(r) && CanCommit(r, change, tips)
    requires change.commit in tips' && tips' <= SetOf(tips) + {change.commit}
    requires Ancestry(r, SetOf(tips)) != {}
    requires Good(Commit(r, change, tips), check, tips')
    ensures Good(r, check, SetOf(tips))
  {
    var r' := Commit(r, change, tips);
    CommitAncestry(r, change, tips, tips');
    var root :| IsRootOf(r', tips', root);
    CommitRoot(r, change, tips, tips', root);
    forall k ensures Passes(r, check, SetOf(tips), k) {
      assert CommitOk(r, k) && Passes(r', check, tips', k);
    }
  }

  /** A commit on top of an object is good if and only if the object was, and the change is
      accepted. */
  lemma CommitGoodIff(r: Repo, check: Check, change: Change, tips: seq<Id>, tips': set<Id>)
    requires WellFormed(r) && CanCommit(r, change, tips)
    requires change.commit in tips' && tips' <= SetOf(tips) + {change.commit}
    requires Ancestry(r, SetOf(tips)) != {}
    ensures Good(Commit(r, change, tips), check, tips') <==> Good(r, check, SetOf(tips)) && check(change).Some?
  {
    var r' := Commit(r, change, tips);
    CommitAncestry(r, change, tips, tips');
    if Good(r', check, tips') {
      CommitGood(r, check, change, tips, tips');
      assert Passes(r', check, tips', change.commit);
    }
    if Good(r, check, SetOf(tips)) && check(change).Some? { CommitStaysGood(r, check, change, tips, tips'); }
  }

  lemma CommitStaysGood(r: Repo, check: Check, change: Change, tips: seq<Id>, tips': set<Id>)
    requires WellFormed(r) && CanCommit(r, change, tips)
    requires change.commit in tips' && tips' <= SetOf(tips) + {change.commit}
    requires Good(r, check, SetOf(tips)) && check(change).Some?
    ensures Good(Commit(r, change, tips), check, tips')
  {
    var r' := Commit(r, change, tips);
    var root :| IsRootOf(r, SetOf(tips), root);
    CommitKeepsRoot(r, change, tips, tips', root);
    CommitAncestry(r, change, tips, tips');
    forall k ensures Passes(r', check, tips', k) {
      assert CommitOk(r, k) && Passes(r, check, SetOf(tips), k);
    }
  }

  // ---------- Extending the stored history alike ----------

  lemma ExtendedLinks(entries: Entries, tips: set<Id>, entry: Entry)
    requires entry.id !in entries && entry.children == [] && tips <= entries.Keys
    requires forall k :: k in entries ==> entry.id !in entries[k].children
    ensures AddsSink(ChildLinks(entries), ChildLinks(Extended(entries, tips, entry)), entry.id)
    ensures forall t :: (t, entry.id) in ChildLinks(Extended(entries, tips, entry)) <==> t in tips
  {
    var m := Extended(entries, tips, entry);
    forall e | e in ChildLinks(entries) ensures e in ChildLinks(m) {
      assert e.0 in m && e.1 in m[e.0].children;
    }
    forall e | e in ChildLinks(m) ensures e.0 != entry.id && (e in ChildLinks(entries) || e.1 == entry.id) {
      assert e.0 in m && e.1 in m[e.0].children;
    }
  }

  /** In an acyclic closed history every entry leads to one without children. */
  lemma {:induction false} LeafBelow(entries: Entries, root: Id, rank: Id -> nat, a: Id) returns (leaf: Id)
    requires Descending(ChildLists(entries), rank) && RootClosed(root, entries)
    requires a in entries && Reaches(ChildLinks(entries), root, a)
    ensures leaf in entries && entries[leaf].children == []
    ensures Reaches(ChildLinks(entries), a, leaf) && Reaches(ChildLinks(entries), root, leaf)
    decreases rank(a)
  {
    var L := ChildLinks(entries);
    ReachesSelf(L, a);
    leaf := a;
    if entries[a].children != [] {
      var c := entries[a].children[0];
      assert (a, c) in L && c in ChildLists(entries)[a];
      ReachesEdge(L, a, c);
      ReachesTrans(L, root, a, c);
      leaf := LeafBelow(entries, root, rank, c);
      ReachesTrans(L, a, c, leaf);
    }
  }

  /** What every stored history is, good or not: it can be decoded and extended. */
  ghost predicate Shape(r: Repo, root: Id, entries: Entries) {
    && Keyed(entries) && AcyclicEntries(entries)
    && root in entries && RootClosed(root, entries)
    && (forall k {:trigger EntryKnown(r, entries, k)} :: EntryKnown(r, entries, k))
  }

  /** An entry and its children are commits. */
  ghost predicate EntryKnown(r: Repo, entries: Entries, k: Id) {
    k in entries ==> k in r.parents && forall c :: c in entries[k].children ==> c in r.parents
  }

  lemma NewIsUnlisted(r: Repo, root: Id, entries: Entries, n: Id)
    requires Shape(r, root, entries) && n !in r.parents
    ensures n !in entries && forall k :: k in entries ==> n !in entries[k].children
  {
    assert EntryKnown(r, entries, n);
    assert forall k :: k in entries ==> EntryKnown(r, entries, k);
  }

  ghost predicate HoldsLeaves(root: Id, entries: Entries, tips: set<Id>) {
    forall x :: x in entries && entries[x].children == [] && Reaches(ChildLinks(entries), root, x) ==> x in tips
  }

  lemma ExtendedAcyclic(entries: Entries, tips: set<Id>, entry: Entry)
    requires AcyclicEntries(entries) && entry.id !in entries && entry.children == [] && tips <= entries.Keys
    ensures AcyclicEntries(Extended(entries, tips, entry))
  {
    var next, m := ChildLists(entries), Extended(entries, tips, entry);
    var rank: Id -> nat :| Descending(next, rank);
    var rank' := (x: Id) => if x == entry.id then 0 else rank(x) + 1;
    forall n, c | n in m && c in m[n].children ensures rank'(c) < rank'(n) {
      if c != entry.id {
        assert n in entries && c in entries[n].children;
        assert c in next[n];
      }
    }
    DescendingEntries(m, rank');
  }

  lemma DescendingEntries(m: Entries, rank: Id -> nat)
    requires forall n, c :: n in m && c in m[n].children ==> rank(c) < rank(n)
    ensures AcyclicEntries(m)
  {
    assert Descending(ChildLists(m), rank);
  }

  lemma ExtendedClosed(root: Id, entries: Entries, tips: set<Id>, entry: Entry)
    requires RootClosed(root, entries) && entry.id !in entries && entry.children == [] && tips <= entries.Keys
    requires forall k :: k in entries ==> entry.id !in entries[k].children
    ensures RootClosed(root, Extended(entries, tips, entry))
  {
    var m := Extended(entries, tips, entry);
    ExtendedLinks(entries, tips, entry);
    forall x | Reaches(ChildLinks(m), root, x) && x != entry.id ensures x in m {
      SinkReach(ChildLinks(entries), ChildLinks(m), entry.id, root, x);
    }
  }

  lemma ExtendedShape(r: Repo, change: Change, onto: seq<Id>, root: Id, entries: Entries, tips: set<Id>, entry: Entry)
    requires WellFormed(r) && CanCommit(r, change, onto) && Shape(r, root, entries)
    requires entry.id == change.commit && entry.children == [] && tips <= entries.Keys
    ensures Shape(Commit(r, change, onto), root, Extended(entries, tips, entry))
  {
    NewIsUnlisted(r, root, entries, entry.id);
    ExtendedAcyclic(entries, tips, entry);
    ExtendedClosed(root, entries, tips, entry);
    forall k ensures EntryKnown(Commit(r, change, onto), Extended(entries, tips, entry), k) {
      assert EntryKnown(r, entries, k);
    }
  }

  /** All old entries lead to the new one. */
  lemma AllLeadToNew(root: Id, entries: Entries, tips: set<Id>, entry: Entry, a: Id)
    requires AcyclicEntries(entries) && RootClosed(root, entries) && HoldsLeaves(root, entries, tips)
    requires entry.id !in entries && entry.children == [] && tips <= entries.Keys
    requires forall k :: k in entries ==> entry.id !in entries[k].children
    requires a in entries && Reaches(ChildLinks(entries), root, a)
    ensures Reaches(ChildLinks(Extended(entries, tips, entry)), a, entry.id)
  {
    var L, L' := ChildLinks(entries), ChildLinks(Extended(entries, tips, entry));
    ExtendedLinks(entries, tips, entry);
    var rank :| Descending(ChildLists(entries), rank);
    var leaf := LeafBelow(entries, root, rank, a);
    ReachesMono(L, L', a, leaf);
    ReachesEdge(L', leaf, entry.id);
    ReachesTrans(L', a, leaf, entry.id);
  }

  lemma AllLeadToCommit(r: Repo, change: Change, onto: seq<Id>, a: Id)
    requires WellFormed(r) && CanCommit(r, change, onto) && a in Ancestry(r, SetOf(onto))
    ensures Reaches(DependencyEdges(Commit(r, change, onto)), a, change.commit)
  {
    var D, D' := DependencyEdges(r), DependencyEdges(Commit(r, change, onto));
    CommitEdges(r, change, onto);
    var t :| t in SetOf(onto) && t in r.changes && Reaches(D, a, t);
    ReachesMono(D, D', a, t);
    ReachesEdge(D', t, change.commit);
    ReachesTrans(D', a, t, change.commit);
  }

  /** The stored history and the repository, extended by the same change. */
  ghost predicate Extension(r: Repo, check: Check, change: Change, onto: seq<Id>, root: Id, entries: Entries,
                            tips: set<Id>, entry: Entry)
  {
    && WellFormed(r) && CanCommit(r, change, onto) && Shape(r, root, entries)
    && Agrees(r, check, SetOf(onto), root, entries)
    && tips <= entries.Keys && HoldsLeaves(root, entries, tips)
    && check(change).Some? && entry == Entry(change.commit, check(change).value, [], change.contents)
  }

  lemma ExtensionLinks(r: Repo, check: Check, change: Change, onto: seq<Id>, root: Id, entries: Entries, tips: set<Id>,
                       entry: Entry)
    requires Extension(r, check, change, onto, root, entries, tips, entry)
    ensures AddsSink(ChildLinks(entries), ChildLinks(Extended(entries, tips, entry)), change.commit)
    ensures AddsSink(DependencyEdges(r), DependencyEdges(Commit(r, change, onto)), change.commit)
  {
    NewIsUnlisted(r, root, entries, entry.id);
    ExtendedLinks(entries, tips, entry);
    CommitEdges(r, change, onto);
  }

  lemma ExtensionLeads(r: Repo, check: Check, change: Change, onto: seq<Id>, root: Id, entries: Entries, tips: set<Id>,
                       entry: Entry, a: Id)
    requires Extension(r, check, change, onto, root, entries, tips, entry) && a in entries
    ensures Reaches(ChildLinks(Extended(entries, tips, entry)), a, change.commit)
    ensures Reaches(DependencyEdges(Commit(r, change, onto)), a, change.commit)
  {
    assert Below(entries, root, a);
    NewIsUnlisted(r, root, entries, entry.id);
    AllLeadToNew(root, entries, tips, entry, a);
    AllLeadToCommit(r, change, onto, a);
  }

  lemma ReachAgreesStep(r: Repo, r': Repo, entries: Entries, m: Entries, n: Id, a: Id, b: Id)
    requires AddsSink(ChildLinks(entries), ChildLinks(m), n) && AddsSink(DependencyEdges(r), DependencyEdges(r'), n)
    requires m.Keys == entries.Keys + {n} && ReachAgrees(r, entries, a, b)
    requires a in entries ==> Reaches(ChildLinks(m), a, n) && Reaches(DependencyEdges(r'), a, n)
    ensures ReachAgrees(r', m, a, b)
  {
    if a in m && b in m {
      SinkAgree(ChildLinks(entries), ChildLinks(m), DependencyEdges(r), DependencyEdges(r'), n, a, b);
    }
  }

  lemma ExtendedReachAgrees(r: Repo, check: Check, change: Change, onto: seq<Id>, root: Id, entries: Entries,
                            tips: set<Id>, entry: Entry, a: Id, b: Id)
    requires Extension(r, check, change, onto, root, entries, tips, entry)
    ensures ReachAgrees(Commit(r, change, onto), Extended(entries, tips, entry), a, b)
  {
    var m := Extended(entries, tips, entry);
    ExtensionLinks(r, check, change, onto, root, entries, tips, entry);
    if a in entries { ExtensionLeads(r, check, change, onto, root, entries, tips, entry, a); }
    assert ReachAgrees(r, entries, a, b);
    assert m.Keys == entries.Keys + {change.commit};
    ReachAgreesStep(r, Commit(r, change, onto), entries, m, change.commit, a, b);
  }

  lemma ExtendedBelow(r: Repo, check: Check, change: Change, onto: seq<Id>, root: Id, entries: Entries, tips: set<Id>,
                      entry: Entry, a: Id)
    requires Extension(r, check, change, onto, root, entries, tips, entry)
    ensures Below(Extended(entries, tips, entry), root, a)
  {
    var m := Extended(entries, tips, entry);
    NewIsUnlisted(r, root, entries, entry.id);
    ExtendedLinks(entries, tips, entry);
    assert Below(entries, root, a) && Below(entries, root, root);
    if a == change.commit {
      AllLeadToNew(root, entries, tips, entry, root);
    } else if a in entries {
      ReachesMono(ChildLinks(entries), ChildLinks(m), root, a);
    }
  }

  /** Appending the new entry below the stored tips agrees with what a fresh load of the new
      references would find. */
  lemma ExtendedAgrees(r: Repo, check: Check, change: Change, onto: seq<Id>, root: Id, entries: Entries, tips: set<Id>,
                       entry: Entry, refs: set<Id>)
    requires Extension(r, check, change, onto, root, entries, tips, entry)
    requires change.commit in refs && refs <= SetOf(onto) + {change.commit}
    ensures Agrees(Commit(r, change, onto), check, refs, root, Extended(entries, tips, entry))
  {
    var r', m := Commit(r, change, onto), Extended(entries, tips, entry);
    CommitAncestry(r, change, onto, refs);
    assert m.Keys == entries.Keys + {change.commit};
    forall k ensures EntryAgrees(r', check, m, k) { assert EntryAgrees(r, check, entries, k); }
    forall a, b ensures ReachAgrees(r', m, a, b) {
      ExtendedReachAgrees(r, check, change, onto, root, entries, tips, entry, a, b);
    }
    forall a ensures Below(m, root, a) {
      ExtendedBelow(r, check, change, onto, root, entries, tips, entry, a);
    }
  }
}
