/** Retrieving and updating one collaborative object through a cache that is keyed by the exact
    set of reference tips (cob/src/lib.rs, cob/src/cache.rs, cob/src/cache/cached_change_graph.rs). */
module Cob {
  import opened Prelude
  import opened Graph
  import opened ChangeGraph
  import opened HistoryGraph
  import opened Evaluation
  import opened CobSpec
  import H = History

  // ---------- The cached change graph ----------

  /** The history of the changes that `refs` lead to. */
  class CachedChangeGraph {
    var history: H.History
    var refs: set<Id>
    ghost var visited: seq<Id>

    constructor (refs: set<Id>, history: H.History, ghost visited: seq<Id>)
      ensures this.refs == refs && this.history == history && this.visited == visited
    {
      this.refs, this.history, this.visited := refs, history, visited;
    }

    /** The graph of the history is the one built from its entries. */
    ghost predicate Valid(r: Repo)
      reads this, history
    {
      && Shape(r, history.root, history.entries)
      && Built(history.root, history.entries, history.graph, [], visited)
    }

    /** Replaces the previous local tip by the new commit and appends its entry to the history. */
    method UpdateRef(previous: Option<Id>, entry: Entry, ghost r: Repo)
      requires Valid(r) && entry.id !in r.parents
      modifies this, history
      ensures refs == (old(refs) - (if previous.Some? then {previous.value} else {})) + {entry.id}
      ensures history == old(history) && history.root == old(history.root)
      ensures history.entries == H.Extended(old(history.entries), H.TipsOf(old(history.graph)), entry)
      ensures forall t :: t in H.TipsOf(old(history.graph)) ==> t in old(history.graph).indices
      ensures history.graph == H.ExtendedGraph(old(history.graph), entry)
    {
      ReadyToExtend(r, history.root, history.entries, history.graph, visited, entry);
      if previous.Some? {
        refs := refs - {previous.value};
      }
      refs := refs + {entry.id};
      var extended := history.Extend(entry);
      assert extended.Returned?;
    }
  }

  lemma ReadyToExtend(r: Repo, root: Id, entries: Entries, g: NewGraph, visited: seq<Id>, entry: Entry)
    requires Shape(r, root, entries) && Building(root, entries, g, [], visited) && entry.id !in r.parents
    ensures entry.id !in entries && entry.id !in g.indices && entry.id !in H.TipsOf(g)
    ensures H.TipsOf(g) <= entries.Keys && HoldsLeaves(root, entries, H.TipsOf(g))
    ensures H.Linked(g) && forall t :: t in H.TipsOf(g) ==> t in g.indices
  {
    NewIsUnlisted(r, root, entries, entry.id);
    forall t | t in H.TipsOf(g) ensures t in entries && t in g.indices && g.indices[t] < |g.nodes| {
      H.TipsAreNodes(root, entries, g, t);
    }
    forall x | x in entries && entries[x].children == [] && Reaches(ChildLinks(entries), root, x)
      ensures x in H.TipsOf(g)
    {
      H.LeavesAreTips(root, entries, g, visited, x);
    }
    forall e | e in g.edges ensures e.0 < |g.nodes| { assert HistoryGraph.EdgeOk(g, e); }
    forall id | id in g.indices ensures id in entries && g.indices[id] < |g.nodes| {
      assert HistoryGraph.IndexOk(g, id);
      assert HistoryGraph.NodeOk(root, entries, g, g.indices[id]);
    }
  }

  // ---------- The store ----------

  /** The encoded form of a cached change graph. */
  datatype Encoded = Encoded(refs: set<Id>, root: Id, entries: Entries)

  /** A stored entry can be decoded and, when its references are good, agrees with what a fresh
      load and evaluation of them would give. */
  ghost predicate CacheOk(r: Repo, check: Check, cache: Option<Encoded>) {
    cache.Some? ==>
      && cache.value.refs <= r.parents.Keys
      && Shape(r, cache.value.root, cache.value.entries)
      && (Good(r, check, cache.value.refs) ==>
          Agrees(r, check, cache.value.refs, cache.value.root, cache.value.entries))
  }

  datatype UpdateError = NoSuchObject | SignerIsNotAuthor | NotWritten

  /** One object: the repository, the references to the object, and the cache slot of the object.
      Without a cache directory nothing is ever stored. */
  class Store {
    const check: Check
    const caching: bool
    var repo: Repo
    var local: Option<Id>
    var remotes: seq<Id>
    var cache: Option<Encoded>

    ghost predicate Valid()
      reads this
    {
      && WellFormed(repo)
      && TipOids() <= repo.parents.Keys
      && CacheOk(repo, check, cache)
    }

    function TipOids(): set<Id>
      reads this
    {
      (if local.Some? then {local.value} else {}) + (set t | t in remotes)
    }

    function TipRefs(): seq<Id>
      reads this
    {
      (if local.Some? then [local.value] else []) + remotes
    }

    /** Nothing is stored for exactly the current references. */
    predicate Miss()
      reads this
    {
      cache.None? || cache.value.refs != TipOids()
    }

    constructor (check: Check, caching: bool, repo: Repo)
      requires WellFormed(repo)
      ensures Valid() && this.check == check && this.repo == repo && TipOids() == {} && cache == None
    {
      this.check, this.caching, this.repo := check, caching, repo;
      local, remotes, cache := None, [], None;
    }

    method Put(refs: set<Id>, h: H.History)
      modifies this`cache
      ensures cache == if caching then Some(Encoded(refs, h.root, h.entries)) else old(cache)
    {
      if caching {
        cache := Some(Encoded(refs, h.root, h.entries));
      }
    }

    /** Whatever replication does: commits are added and remote references move. */
    method Replicate(grown: Repo, moved: seq<Id>)
      requires Valid() && WellFormed(grown) && Grows(repo, grown) && SetOf(moved) <= grown.parents.Keys
      modifies this`repo, this`remotes
      ensures Valid() && repo == grown && remotes == moved
    {
      GrownCache(repo, grown, check, cache);
      repo, remotes := grown, moved;
    }

    /** Creates the object with its first change, whether or not its own check would accept it.
        The cache slot is filled under the author's commit instead of the change, so the next load
        of the object does not find it there. The write of the reference may fail. */
    method Create(change: Change, author: string, signerIsAuthor: bool, refWritten: bool)
      returns (r: Result<(Id, Entries), UpdateError>)
      requires Valid() && local.None? && remotes == []
      requires CanCommit(repo, change, []) && Authored(check, change, author)
      modifies this
      ensures Valid()
      ensures !signerIsAuthor ==>
                r == Err(SignerIsNotAuthor) && repo == old(repo) && local == old(local) && cache == old(cache)
      ensures signerIsAuthor && !refWritten ==> r == Err(NotWritten) && local == old(local) && cache == old(cache)
      ensures signerIsAuthor ==> repo == Commit(old(repo), change, [])
      ensures signerIsAuthor && refWritten ==>
                && r == Ok((change.commit, FirstEntries(author, change))) && TipOids() == {change.commit}
                && (Good(repo, check, TipOids()) <==> check(change).Some?)
                && (Good(repo, check, TipOids()) ==> Agrees(repo, check, TipOids(), r.value.0, r.value.1))
                && (caching ==> cache.Some? && cache.value.refs != TipOids())
    {
      if !signerIsAuthor {
        return Err(SignerIsNotAuthor);
      }
      CreateKeeps(repo, check, cache, change);
      CreateStores(repo, check, author, change);
      NewObjectGood(repo, check, change);
      if check(change).Some? { CreateAgrees(repo, check, change); }
      repo := Commit(repo, change, []);
      if !refWritten {
        return Err(NotWritten);
      }
      var entries := FirstEntries(author, change);
      local := Some(change.commit);
      assert TipOids() == {change.commit};
      if caching {
        cache := Some(Encoded({change.authorCommit}, change.commit, entries));
      }
      r := Ok((change.commit, entries));
    }

    /** Decodes the cached object if it was stored for exactly the known references. */
    method LoadCached(known: set<Id>) returns (r: Option<CachedChangeGraph>)
      requires Valid()
      ensures r.Some? <==> cache.Some? && cache.value.refs == known
      ensures r.Some? ==>
                && fresh(r.value) && fresh(r.value.history) && r.value.Valid(repo)
                && Encoded(r.value.refs, r.value.history.root, r.value.history.entries) == cache.value
    {
      if cache.None? || cache.value.refs != known {
        return None;
      }
      var c := cache.value;
      var h, visited := H.New(c.root, c.entries);
      var g := new CachedChangeGraph(c.refs, h.value.value, visited);
      r := Some(g);
    }

    /** Loads and evaluates the object from its references. */
    method Materialize() returns (r: Outcome<Option<CachedChangeGraph>>)
      requires Valid()
      ensures r.Returned? && r.value.None? <==> Ancestry(repo, TipOids()) == {}
      ensures r.Returned? && r.value.Some? ==>
                && fresh(r.value.value) && fresh(r.value.value.history) && r.value.value.Valid(repo)
                && r.value.value.refs == TipOids()
      ensures Good(repo, check, TipOids()) ==>
                && r.Returned? && r.value.Some?
                && Agrees(repo, check, TipOids(), r.value.value.history.root, r.value.value.history.entries)
      ensures Rooted(repo, TipOids()) ==> (r.Panicked? <==> !Good(repo, check, TipOids()))
    {
      assert SetOf(TipRefs()) == TipOids();
      var g := Load(repo, TipRefs());
      if g.None? {
        return Returned(None);
      }
      LoadedGraph(repo, TipOids(), g.value);
      var h, root, visited := Evaluate(g.value, check);
      if h.Panicked? {
        if Good(repo, check, TipOids()) { GoodIsClean(repo, check, TipOids(), g.value); }
        return Panicked;
      }
      LoadedShape(repo, check, TipOids(), g.value, root, h.value.entries, h.value.graph, visited);
      if Rooted(repo, TipOids()) {
        ghost var i :| 0 <= i < |g.value.nodes| && IsRoot(g.value, i) && g.value.nodes[i].commit == root;
        CleanIsGood(repo, check, TipOids(), g.value, i);
      }
      var c := new CachedChangeGraph(TipOids(), h.value, visited);
      r := Returned(Some(c));
    }

    /** The object from the cache if the references are the ones it was stored for, and from the
        repository otherwise, in which case it is stored. On good references the result agrees
        with a fresh evaluation either way. */
    method LoadOrMaterialize() returns (r: Outcome<Option<CachedChangeGraph>>)
      requires Valid()
      modifies this`cache
      ensures Valid()
      ensures r.Returned? && r.value.Some? ==>
                && fresh(r.value.value) && fresh(r.value.value.history) && r.value.value.Valid(repo)
                && r.value.value.refs == TipOids()
      ensures r.Returned? && r.value.None? <==> Ancestry(repo, TipOids()) == {} && old(Miss())
      ensures Good(repo, check, TipOids()) ==>
                && r.Returned? && r.value.Some?
                && Agrees(repo, check, TipOids(), r.value.value.history.root, r.value.value.history.entries)
    {
      var hit := LoadCached(TipOids());
      if hit.Some? {
        return Returned(hit);
      }
      r := Materialize();
      if r.Returned? && r.value.Some? {
        Put(TipOids(), r.value.value.history);
      }
    }

    method Retrieve() returns (r: Outcome<Option<(Id, Entries)>>)
      requires Valid()
      modifies this`cache
      ensures Valid()
      ensures Good(repo, check, TipOids()) ==>
                r.Returned? && r.value.Some? && Agrees(repo, check, TipOids(), r.value.value.0, r.value.value.1)
    {
      var c := LoadOrMaterialize();
      match c {
        case Panicked => r := Panicked;
        case Returned(None) => r := Returned(None);
        case Returned(Some(g)) => r := Returned(Some((g.history.root, g.history.entries)));
      }
    }

    /** Commits a change on top of all current tips, extends the object by it, stores the object
        under the new tips and moves the local reference, whether or not the change's own check
        would accept it. The new commit's author and authorizing identity must be commits that are
        no changes, and what is cached for references that lead to no change must not be for the
        current ones. The final write of the reference may fail. `onto` lists the tips the change
        was made on. */
    method Update(change: Change, author: string, signerIsAuthor: bool, refWritten: bool)
      returns (r: Outcome<Result<(Id, Entries), UpdateError>>, ghost onto: seq<Id>)
      requires Valid() && CanCommit(repo, change, []) && Authored(check, change, author)
      requires Ancestry(repo, TipOids()) == {} ==> Miss()
      modifies this
      ensures Valid() && remotes == old(remotes)
      ensures !signerIsAuthor ==>
                r == Returned(Err(SignerIsNotAuthor)) && repo == old(repo) && local == old(local) && cache == old(cache)
      ensures signerIsAuthor && old(Ancestry(repo, TipOids())) == {} ==>
                r == Returned(Err(NoSuchObject)) && repo == old(repo) && local == old(local)
      ensures signerIsAuthor && old(Good(repo, check, TipOids())) ==>
                r.Returned? && (if refWritten then r.value.Ok? else r.value == Err(NotWritten))
      ensures r.Returned? && r.value == Err(NotWritten) ==>
                && local == old(local) && repo == Commit(old(repo), change, onto)
                && (Good(repo, check, TipOids()) <==> old(Good(repo, check, TipOids())))
      ensures r.Returned? && r.value.Ok? ==>
                && Updates(old(repo), old(TipOids()), repo, check, change, onto, r.value.value)
                && local == Some(change.commit)
                && (Good(repo, check, TipOids()) <==> old(Good(repo, check, TipOids())) && check(change).Some?)
                && (Good(repo, check, TipOids()) ==> Agrees(repo, check, TipOids(), r.value.value.0, r.value.value.1))
                && (caching ==>
                    cache.Some? && cache.value.refs == UpdatedTips(old(TipOids()), old(local), change.commit))
    {
      onto := [];
      if !signerIsAuthor {
        return Returned(Err(SignerIsNotAuthor)), onto;
      }
      var found := LoadOrMaterialize();
      if found.Panicked? {
        return Panicked, onto;
      }
      if found.value.None? {
        return Returned(Err(NoSuchObject)), onto;
      }
      var written;
      written, onto := WriteChange(found.value.value, change, author, refWritten);
      r := Returned(written);
    }

    /** The part of an update that changes the references. */
    method WriteChange(cached: CachedChangeGraph, change: Change, author: string, refWritten: bool)
      returns (r: Result<(Id, Entries), UpdateError>, ghost onto: seq<Id>)
      requires Valid() && CanCommit(repo, change, []) && Authored(check, change, author)
      requires cached.Valid(repo) && cached.refs == TipOids() && Ancestry(repo, TipOids()) != {}
      requires Good(repo, check, TipOids()) ==>
                 Agrees(repo, check, TipOids(), cached.history.root, cached.history.entries)
      modifies this, cached, cached.history
      ensures Valid() && remotes == old(remotes)
      ensures repo == Commit(old(repo), change, onto)
      ensures if refWritten then r.Ok? else r == Err(NotWritten)
      ensures r.Err? ==> local == old(local) && (Good(repo, check, TipOids()) <==> old(Good(repo, check, TipOids())))
      ensures r.Ok? ==>
                && Updates(old(repo), old(TipOids()), repo, check, change, onto, r.value)
                && Serves(old(repo), old(TipOids()), repo, check, change, r.value, TipOids())
                && local == Some(change.commit) && TipOids() <= old(TipOids()) + {change.commit}
                && (caching ==>
                    cache.Some? && cache.value.refs == UpdatedTips(old(TipOids()), old(local), change.commit))
    {
      var obj;
      obj, onto := CommitChange(cached, change, author);
      if !refWritten {
        return Err(NotWritten), onto;
      }
      local := Some(change.commit);
      r := Ok(obj);
    }

    method CommitChange(cached: CachedChangeGraph, change: Change, author: string)
      returns (obj: (Id, Entries), ghost onto: seq<Id>)
      requires WellFormed(repo) && CacheOk(repo, check, cache)
      requires CanCommit(repo, change, []) && Authored(check, change, author)
      requires cached.Valid(repo) && cached.refs <= repo.parents.Keys && Ancestry(repo, cached.refs) != {}
      requires Good(repo, check, cached.refs) ==>
                 Agrees(repo, check, cached.refs, cached.history.root, cached.history.entries)
      modifies this`repo, this`cache, cached, cached.history
      ensures WellFormed(repo) && CacheOk(repo, check, cache)
      ensures change.commit in repo.parents && old(repo).parents.Keys <= repo.parents.Keys
      ensures Updates(old(repo), old(cached.refs), repo, check, change, onto, obj)
      ensures SameGood(old(repo), repo, check)
      ensures caching ==> cache.Some? && cache.value.refs == UpdatedTips(old(cached.refs), local, change.commit)
    {
      var tips := Listed(cached.refs);
      onto := tips;
      var entry := Entry(change.commit, author, [], change.contents);
      CommitFacts(repo, check, cache, local, change, tips, cached.history.root, cached.history.entries,
                  cached.history.graph, cached.visited, entry);
      cached.UpdateRef(local, entry, repo);
      assert cached.refs == UpdatedTips(SetOf(tips), local, change.commit);
      repo := Commit(repo, change, tips);
      Put(cached.refs, cached.history);
      obj := (cached.history.root, cached.history.entries);
    }
  }

  /** The cache can be seen: after an update of a good object with a change that its own check
      rejects, the object is served from the cache, unless the previous local tip is a remote tip
      as well, while a fresh evaluation of the same references panics. */
  method ServedButRejected(s: Store, change: Change, author: string)
      returns (hit: Option<CachedChangeGraph>, evaluated: Outcome<Option<CachedChangeGraph>>)
    requires s.Valid() && s.caching && CanCommit(s.repo, change, []) && s.check(change).None?
    requires Good(s.repo, s.check, s.TipOids())
    modifies s
    ensures hit.Some? <==> old(s.local).None? || old(s.local).value !in s.remotes
    ensures evaluated.Panicked?
  {
    ghost var repo, tips, previous, check := s.repo, s.TipOids(), s.local, s.check;
    GoodNotEmpty(repo, check, tips);
    var r, onto := s.Update(change, author, true, true);
    RejectedSpoils(repo, check, change, onto, s.TipOids());
    hit := s.LoadCached(s.TipOids());
    evaluated := s.Materialize();
  }

  lemma GoodNotEmpty(r: Repo, check: Check, tips: set<Id>)
    requires Good(r, check, tips)
    ensures Ancestry(r, tips) != {}
  {
    var root :| IsRootOf(r, tips, root);
  }

  /** A rejected change on top of a good object leaves it with its root, but no longer good. */
  lemma RejectedSpoils(r: Repo, check: Check, change: Change, onto: seq<Id>, tips': set<Id>)
    requires WellFormed(r) && CanCommit(r, change, onto) && Good(r, check, SetOf(onto)) && check(change).None?
    requires change.commit in tips' && tips' <= SetOf(onto) + {change.commit}
    ensures Rooted(Commit(r, change, onto), tips') && !Good(Commit(r, change, onto), check, tips')
  {
    var root :| IsRootOf(r, SetOf(onto), root);
    CommitKeepsRoot(r, change, onto, tips', root);
    CommitAncestry(r, change, onto, tips');
    assert !Passes(Commit(r, change, onto), check, tips', change.commit);
  }

  /** Everything a commit on top of the tips keeps and establishes, in the repository, in the old
      cache and in the one it stores. */
  lemma CommitFacts(r: Repo, check: Check, cache: Option<Encoded>, previous: Option<Id>, change: Change, onto: seq<Id>,
                    root: Id, entries: Entries, g: NewGraph, visited: seq<Id>, entry: Entry)
    requires WellFormed(r) && CanCommit(r, change, onto) && CacheOk(r, check, cache)
    requires Shape(r, root, entries) && Building(root, entries, g, [], visited)
    requires Ancestry(r, SetOf(onto)) != {}
    requires Good(r, check, SetOf(onto)) ==> Agrees(r, check, SetOf(onto), root, entries)
    requires Authored(check, change, entry.author) && entry == Entry(change.commit, entry.author, [], change.contents)
    ensures var refs, r' := UpdatedTips(SetOf(onto), previous, change.commit), Commit(r, change, onto);
            var m := H.Extended(entries, H.TipsOf(g), entry);
            && WellFormed(r') && r.parents.Keys <= r'.parents.Keys
            && CacheOk(r', check, cache) && CacheOk(r', check, Some(Encoded(refs, root, m)))
            && Updates(r, SetOf(onto), r', check, change, onto, (root, m))
    ensures SameGood(r, Commit(r, change, onto), check)
  {
    var r', m := Commit(r, change, onto), H.Extended(entries, H.TipsOf(g), entry);
    ReadyToExtend(r, root, entries, g, visited, entry);
    forall refs ensures Serves(r, SetOf(onto), r', check, change, (root, m), refs) {
      UpdateServes(r, check, change, onto, root, entries, H.TipsOf(g), entry, refs);
    }
    StoredUpdate(r, check, change, onto, root, entries, H.TipsOf(g), entry, previous);
    CommitGrows(r, change, onto);
    GrownCache(r, r', check, cache);
    forall refs | refs <= r.parents.Keys ensures Good(r', check, refs) <==> Good(r, check, refs) {
      GrownGood(r, r', check, refs);
    }
  }

  /** Old references are as good as they were. */
  ghost predicate SameGood(r: Repo, r': Repo, check: Check) {
    forall refs {:trigger Good(r', check, refs)} | refs <= r.parents.Keys ::
      Good(r', check, refs) <==> Good(r, check, refs)
  }

  /** The tips after an update: the new commit for the previous local one. */
  function UpdatedTips(tips: set<Id>, previous: Option<Id>, n: Id): set<Id> {
    (tips - (if previous.Some? then {previous.value} else {})) + {n}
  }

  /** References to the new commit and to any of the tips it was made on are good if and only if
      the tips were and the change is accepted, and then the object agrees with them. */
  ghost predicate Serves(r: Repo, tips: set<Id>, r': Repo, check: Check, change: Change, obj: (Id, Entries),
                         refs: set<Id>)
  {
    change.commit in refs && refs <= tips + {change.commit} ==>
      && (Good(r', check, refs) <==> Good(r, check, tips) && check(change).Some?)
      && (Good(r', check, refs) ==> Agrees(r', check, refs, obj.0, obj.1))
  }

  /** An update commits the change on top of all tips, and the object it returns agrees with what
      a fresh load of the new references would find. */
  ghost predicate Updates(r: Repo, tips: set<Id>, r': Repo, check: Check, change: Change, onto: seq<Id>,
                          obj: (Id, Entries))
  {
    && SetOf(onto) == tips && r' == Commit(r, change, onto)
    && forall refs {:trigger Serves(r, tips, r', check, change, obj, refs)} ::
         Serves(r, tips, r', check, change, obj, refs)
  }

  /** If the check accepts the change it is for this author. */
  predicate Authored(check: Check, change: Change, author: string) {
    check(change).Some? ==> check(change).value == author
  }

  function FirstEntries(author: string, change: Change): Entries {
    map[change.commit := Entry(change.commit, author, [], change.contents)]
  }

  /** The first change of an object is all of it. */
  lemma NewAncestry(r: Repo, change: Change)
    requires WellFormed(r) && CanCommit(r, change, [])
    ensures Ancestry(Commit(r, change, []), {change.commit}) == {change.commit}
  {
    CommitAncestry(r, change, [], {change.commit});
    assert Ancestry(r, SetOf([])) == {};
  }

  lemma NewObjectGood(r: Repo, check: Check, change: Change)
    requires WellFormed(r) && CanCommit(r, change, [])
    ensures Good(Commit(r, change, []), check, {change.commit}) <==> check(change).Some?
  {
    var r', n := Commit(r, change, []), change.commit;
    NewAncestry(r, change);
    ReachesSelf(DependencyEdges(r'), n);
    forall a ensures Heads(r', {n}, n, a) {}
    assert IsRootOf(r', {n}, n);
    if check(change).Some? {
      forall k ensures Passes(r', check, {n}, k) {}
    }
    assert Passes(r', check, {n}, n) <==> check(change).Some?;
  }

  lemma OneEntryAgrees(r: Repo, check: Check, change: Change)
    requires change.commit in r.changes && r.changes[change.commit] == change && check(change).Some?
    requires Ancestry(r, {change.commit}) == {change.commit}
    ensures Agrees(r, check, {change.commit}, change.commit, FirstEntries(check(change).value, change))
  {
    var n, m := change.commit, FirstEntries(check(change).value, change);
    ReachesSelf(DependencyEdges(r), n);
    ReachesSelf(ChildLinks(m), n);
    forall k ensures EntryAgrees(r, check, m, k) {}
    forall a, b ensures ReachAgrees(r, m, a, b) {}
    forall a ensures CobSpec.Below(m, n, a) {}
  }

  lemma SeedNotGood(r: Repo, check: Check, change: Change)
    requires CanCommit(r, change, [])
    ensures !Good(Commit(r, change, []), check, {change.authorCommit})
  {
    assert Ancestry(Commit(r, change, []), {change.authorCommit}) == {};
  }

  lemma NewObjectShape(r: Repo, author: string, change: Change)
    requires CanCommit(r, change, [])
    ensures Shape(Commit(r, change, []), change.commit, FirstEntries(author, change))
  {
    var n, m := change.commit, FirstEntries(author, change);
    DescendingEntries(m, _ => 0);
    forall x | Reaches(ChildLinks(m), n, x) ensures x in m { SinkReachesSelf(ChildLinks(m), n, x); }
    forall k ensures EntryKnown(Commit(r, change, []), m, k) {}
  }

  lemma CreateKeeps(r: Repo, check: Check, cache: Option<Encoded>, change: Change)
    requires WellFormed(r) && CacheOk(r, check, cache) && CanCommit(r, change, [])
    ensures WellFormed(Commit(r, change, [])) && CacheOk(Commit(r, change, []), check, cache)
  {
    CommitGrows(r, change, []);
    GrownCache(r, Commit(r, change, []), check, cache);
  }

  /** The object just created is the one its reference leads to. */
  lemma CreateAgrees(r: Repo, check: Check, change: Change)
    requires WellFormed(r) && CanCommit(r, change, []) && check(change).Some?
    ensures Agrees(Commit(r, change, []), check, {change.commit}, change.commit,
                   FirstEntries(check(change).value, change))
  {
    NewAncestry(r, change);
    OneEntryAgrees(Commit(r, change, []), check, change);
  }

  /** The cache entry of a creation is harmless: its only reference leads to no change. */
  lemma CreateStores(r: Repo, check: Check, author: string, change: Change)
    requires CanCommit(r, change, [])
    ensures CacheOk(Commit(r, change, []), check,
                    Some(Encoded({change.authorCommit}, change.commit, FirstEntries(author, change))))
    ensures change.commit != change.authorCommit
  {
    NewObjectShape(r, author, change);
    SeedNotGood(r, check, change);
  }

  method Listed(s: set<Id>) returns (xs: seq<Id>)
    ensures SetOf(xs) == s
  {
    xs := [];
    var left := s;
    while left != {}
      invariant SetOf(xs) + left == s
      decreases left
    {
      var x :| x in left;
      xs, left := xs + [x], left - {x};
    }
  }

  lemma GrownCache(r: Repo, r': Repo, check: Check, cache: Option<Encoded>)
    requires WellFormed(r) && WellFormed(r') && Grows(r, r') && CacheOk(r, check, cache)
    ensures CacheOk(r', check, cache)
  {
    if cache.Some? {
      var c := cache.value;
      GrownShape(r, r', c.root, c.entries);
      GrownGood(r, r', check, c.refs);
      if Good(r, check, c.refs) { GrownAgrees(r, r', check, c.refs, c.root, c.entries); }
    }
  }

  /** What an update returns is right for all references to it and to tips it was made on. */
  lemma UpdateServes(r: Repo, check: Check, change: Change, onto: seq<Id>, root: Id, entries: Entries, tips: set<Id>,
                     entry: Entry, refs: set<Id>)
    requires WellFormed(r) && CanCommit(r, change, onto) && Shape(r, root, entries)
    requires Good(r, check, SetOf(onto)) ==> Agrees(r, check, SetOf(onto), root, entries)
    requires Ancestry(r, SetOf(onto)) != {}
    requires tips <= entries.Keys && HoldsLeaves(root, entries, tips)
    requires Authored(check, change, entry.author) && entry == Entry(change.commit, entry.author, [], change.contents)
    ensures Serves(r, SetOf(onto), Commit(r, change, onto), check, change, (root, H.Extended(entries, tips, entry)),
                   refs)
  {
    if change.commit in refs && refs <= SetOf(onto) + {change.commit} {
      CommitGoodIff(r, check, change, onto, refs);
      if Good(Commit(r, change, onto), check, refs) {
        ExtendedAgrees(r, check, change, onto, root, entries, tips, entry, refs);
      }
    }
  }

  /** What an update stores is right for the updated references, good or not. */
  lemma StoredUpdate(r: Repo, check: Check, change: Change, onto: seq<Id>, root: Id, entries: Entries, tips: set<Id>,
                     entry: Entry, previous: Option<Id>)
    requires WellFormed(r) && CanCommit(r, change, onto) && Shape(r, root, entries)
    requires Good(r, check, SetOf(onto)) ==> Agrees(r, check, SetOf(onto), root, entries)
    requires Ancestry(r, SetOf(onto)) != {}
    requires tips <= entries.Keys && HoldsLeaves(root, entries, tips)
    requires Authored(check, change, entry.author) && entry == Entry(change.commit, entry.author, [], change.contents)
    ensures var refs, r' := UpdatedTips(SetOf(onto), previous, change.commit), Commit(r, change, onto);
            var m := H.Extended(entries, tips, entry);
            CacheOk(r', check, Some(Encoded(refs, root, m)))
  {
    var refs := UpdatedTips(SetOf(onto), previous, change.commit);
    ExtendedShape(r, change, onto, root, entries, tips, entry);
    UpdateServes(r, check, change, onto, root, entries, tips, entry, refs);
  }

  /** A loaded graph is acyclic and not empty. */
  lemma LoadedGraph(r: Repo, tips: set<Id>, g: ChangeGraph)
    requires WellFormed(r) && IsLoaded(r, tips, g)
    ensures Acyclic(g.EdgeIds())
    ensures g.nodes == [] ==> Ancestry(r, tips) == {}
  {
    DependenciesAcyclic(r);
    AcyclicSubset(g.EdgeIds(), DependencyEdges(r));
  }

  lemma LoadedShape(r: Repo, check: Check, tips: set<Id>, g: ChangeGraph, root: Id, entries: Entries, graph: NewGraph,
                    visited: seq<Id>)
    requires WellFormed(r) && IsLoaded(r, tips, g) && Acyclic(g.EdgeIds()) && Evaluated(g, check, entries)
    requires Building(root, entries, graph, [], visited)
    requires exists i :: 0 <= i < |g.nodes| && IsRoot(g, i) && g.nodes[i].commit == root
    ensures Shape(r, root, entries)
    ensures Good(r, check, tips) ==> Agrees(r, check, tips, root, entries)
  {
    var i :| 0 <= i < |g.nodes| && IsRoot(g, i) && g.nodes[i].commit == root;
    EvaluatedLinks(g, check, entries);
    EvaluatedAcyclic(g, check, entries);
    BuildDone(root, entries, graph, visited);
    ReachesSelf(ChildLinks(entries), root);
    forall k ensures EntryKnown(r, entries, k) { LoadedKnown(r, check, tips, g, entries, k); }
    if Good(r, check, tips) { FreshAgrees(r, check, tips, g, i, entries); }
  }

  lemma LoadedKnown(r: Repo, check: Check, tips: set<Id>, g: ChangeGraph, entries: Entries, k: Id)
    requires WellFormed(r) && IsLoaded(r, tips, g) && Evaluated(g, check, entries)
    ensures EntryKnown(r, entries, k)
  {
    if k in entries {
      EvaluatedLinks(g, check, entries);
      assert CommitOk(r, k);
      forall c | c in entries[k].children ensures c in r.parents {
        assert (k, c) in ChildLinks(entries);
        assert c in g.Ids() && CommitOk(r, c);
      }
    }
  }
}
