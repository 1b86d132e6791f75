/** Merging one's own copy of an identity with another (link-identities/src/git.rs). */
module Merging {
  import opened Prelude
  import opened Delegation
  import opened Identities

  datatype MergeError = ForeignBase | NotSameRoot | RevisionMismatch

  /** Makes the signature of a key over a revision. */
  type Sign = (Key, Revision) -> Signature

  /** One merge: who signs, how the two commits are related in the repository, and the id of the
      commit it makes, if it makes one. */
  datatype Call = Call(signer: Key, oursDescends: bool, theirsDescends: bool, commit: ContentId)

  datatype Action = UpToDate | FastForward | SlowForward | NextRevision

  function Decide(c: Call, ours: Identity, theirs: Identity): Result<Action, MergeError> {
    if c.signer !in ours.signatures then Err(ForeignBase)
    else if ours.root != theirs.root then Err(NotSameRoot)
    else if c.oursDescends then Ok(UpToDate)
    else if c.signer in theirs.signatures && c.theirsDescends then Ok(FastForward)
    else if ours.revision == theirs.revision then Ok(SlowForward)
    else if theirs.doc.replaced == Some(ours.revision) then Ok(NextRevision)
    else Err(RevisionMismatch)
  }

  function UpdateFrom(sign: Sign, c: Call, ours: Identity, theirs: Identity): Result<Identity, MergeError> {
    match Decide(c, ours, theirs)
    case Err(e) => Err(e)
    case Ok(UpToDate) => Ok(ours)
    case Ok(FastForward) => Ok(theirs)
    case Ok(SlowForward) =>
      Ok(ours.(contentId := c.commit, signatures := ours.signatures + theirs.signatures))
    case Ok(NextRevision) =>
      Ok(theirs.(contentId := c.commit, signatures := theirs.signatures[c.signer := sign(c.signer, theirs.revision)]))
  }

  /** Signatures made are valid. */
  ghost predicate Signs(valid: Check, sign: Sign) {
    forall k, r :: valid(sign(k, r), r, k)
  }

  /** A merge keeps the common root, is signed by the merger, and can be trusted as signed
      without another look. */
  lemma MergeKeeps(valid: Check, sign: Sign, c: Call, ours: Identity, theirs: Identity)
    requires Signs(valid, sign) && Signed(valid, ours).Ok? && Signed(valid, theirs).Ok?
    requires UpdateFrom(sign, c, ours, theirs).Ok?
    ensures var r := UpdateFrom(sign, c, ours, theirs).value;
            r.root == ours.root == theirs.root && c.signer in r.signatures && Signed(valid, r) == Ok(r)
  {
    var r := UpdateFrom(sign, c, ours, theirs).value;
    assert c.signer in r.signatures;
    if Decide(c, ours, theirs) == Ok(SlowForward) {
      assert SignaturesValid(valid, r);
    }
  }

  // ---------- Quorums ----------

  /** Merging two signings of the same revision collects the signers of both, and keeps the quorum
      of either exactly when no owner of several keys thereby votes twice. */
  lemma SameRevisionCollects(sign: Sign, c: Call, ours: Identity, theirs: Identity)
    requires Decide(c, ours, theirs) == Ok(SlowForward) && ours.doc == theirs.doc
    ensures var r := UpdateFrom(sign, c, ours, theirs).value;
            && r.revision == ours.revision && r.doc == ours.doc
            && r.signatures.Keys == ours.signatures.Keys + theirs.signatures.Keys
            && (ReachQuorum(ours).Ok? || ReachQuorum(theirs).Ok? ==>
                  (ReachQuorum(r).Ok? <==> !DoubleVote(r.doc.delegations, r.signatures.Keys)))
  {
    var r := UpdateFrom(sign, c, ours, theirs).value;
    assert r.signatures.Keys == ours.signatures.Keys + theirs.signatures.Keys;
    if ReachQuorum(ours).Ok? {
      MoreVotes(r.doc.delegations, ours.signatures.Keys, r.signatures.Keys);
    } else if ReachQuorum(theirs).Ok? {
      MoreVotes(r.doc.delegations, theirs.signatures.Keys, r.signatures.Keys);
    }
  }

  /** Approving a next revision adds the signer to the signers it has. */
  lemma NextRevisionCollects(sign: Sign, c: Call, ours: Identity, theirs: Identity)
    requires Decide(c, ours, theirs) == Ok(NextRevision)
    ensures var r := UpdateFrom(sign, c, ours, theirs).value;
            && r.revision == theirs.revision && r.doc == theirs.doc && r.doc.replaced == Some(ours.revision)
            && r.signatures.Keys == theirs.signatures.Keys + {c.signer}
            && (ReachQuorum(theirs).Ok? ==> (ReachQuorum(r).Ok? <==> !DoubleVote(r.doc.delegations, r.signatures.Keys)))
  {
    var r := UpdateFrom(sign, c, ours, theirs).value;
    assert r.signatures.Keys == theirs.signatures.Keys + {c.signer};
    if ReachQuorum(theirs).Ok? {
      MoreVotes(r.doc.delegations, theirs.signatures.Keys, r.signatures.Keys);
    }
  }

  // ---------- Runs ----------

  /** A merge of two of the identities there are, by their positions. */
  datatype Move = Move(ours: nat, theirs: nat, call: Call)

  function Play(sign: Sign, pool: seq<Identity>, m: Move): seq<Identity> {
    if m.ours < |pool| && m.theirs < |pool| then
      match UpdateFrom(sign, m.call, pool[m.ours], pool[m.theirs])
      case Ok(r) => pool + [r]
      case Err(_) => pool
    else pool
  }

  function PlayAll(sign: Sign, pool: seq<Identity>, moves: seq<Move>): seq<Identity> {
    if moves == [] then pool else Play(sign, PlayAll(sign, pool, moves[..|moves| - 1]), moves[|moves| - 1])
  }

  ghost predicate AllSigned(valid: Check, pool: seq<Identity>) {
    forall i | 0 <= i < |pool| :: Signed(valid, pool[i]).Ok?
  }

  ghost predicate SameDocs(pool: seq<Identity>) {
    forall i, j {:trigger SameDoc(pool[i], pool[j])} | 0 <= i < |pool| && 0 <= j < |pool| :: SameDoc(pool[i], pool[j])
  }

  ghost predicate SameDoc(a: Identity, b: Identity) {
    a.revision == b.revision ==> a.doc == b.doc
  }

  /** The identities there are after a run: signed, with equal documents for equal revisions. */
  ghost predicate PoolOk(valid: Check, pool: seq<Identity>) {
    AllSigned(valid, pool) && SameDocs(pool)
  }

  /** Some identity of `before` with the revision, document and root of `id`. */
  ghost predicate Known(before: seq<Identity>, id: Identity) {
    exists i :: 0 <= i < |before| && Alike(before[i], id)
  }

  ghost predicate Alike(a: Identity, b: Identity) {
    a.revision == b.revision && a.doc == b.doc && a.root == b.root
  }

  lemma UpdateFromKnown(sign: Sign, c: Call, ours: Identity, theirs: Identity)
    requires UpdateFrom(sign, c, ours, theirs).Ok?
    ensures var r := UpdateFrom(sign, c, ours, theirs).value;
            Alike(ours, r) || Alike(theirs, r)
  {
  }

  ghost predicate AllKnown(before: seq<Identity>, pool: seq<Identity>) {
    forall i {:trigger Known(before, pool[i])} | 0 <= i < |pool| :: Known(before, pool[i])
  }

  lemma PlayKeeps(valid: Check, sign: Sign, pool: seq<Identity>, m: Move)
    requires Signs(valid, sign) && PoolOk(valid, pool)
    ensures PoolOk(valid, Play(sign, pool, m)) && pool <= Play(sign, pool, m)
    ensures AllKnown(pool, Play(sign, pool, m))
  {
    if m.ours < |pool| && m.theirs < |pool| && UpdateFrom(sign, m.call, pool[m.ours], pool[m.theirs]).Ok? {
      var ours, theirs := pool[m.ours], pool[m.theirs];
      MergeKeeps(valid, sign, m.call, ours, theirs);
      UpdateFromKnown(sign, m.call, ours, theirs);
      AppendKeeps(valid, pool, UpdateFrom(sign, m.call, ours, theirs).value);
    }
  }

  lemma AppendKeeps(valid: Check, pool: seq<Identity>, r: Identity)
    requires PoolOk(valid, pool) && Signed(valid, r).Ok? && Known(pool, r)
    ensures PoolOk(valid, pool + [r]) && AllKnown(pool, pool + [r])
  {
    KnownKeepsDocs(pool, r);
    AppendKnown(pool, r);
    AppendSigned(valid, pool, r);
  }

  lemma AppendKnown(pool: seq<Identity>, r: Identity)
    requires Known(pool, r)
    ensures AllKnown(pool, pool + [r])
  {
    forall i | 0 <= i < |pool|
      ensures Known(pool, pool[i])
    {
      assert Alike(pool[i], pool[i]);
    }
  }

  lemma AppendSigned(valid: Check, pool: seq<Identity>, r: Identity)
    requires AllSigned(valid, pool) && Signed(valid, r).Ok?
    ensures AllSigned(valid, pool + [r])
  {
  }

  lemma KnownKeepsDocs(pool: seq<Identity>, r: Identity)
    requires SameDocs(pool) && Known(pool, r)
    ensures SameDocs(pool + [r])
  {
    var k :| 0 <= k < |pool| && Alike(pool[k], r);
    var next := pool + [r];
    forall i, j | 0 <= i < |next| && 0 <= j < |next|
      ensures SameDoc(next[i], next[j])
    {
      var i' := if i < |pool| then i else k;
      var j' := if j < |pool| then j else k;
      assert SameDoc(pool[i'], pool[j']);
    }
  }

  /** Over any run of merges every identity stays signed, and none has a revision, document or
      root that was not there at the start. */
  lemma {:induction false} RunKeeps(valid: Check, sign: Sign, pool: seq<Identity>, moves: seq<Move>)
    requires Signs(valid, sign) && PoolOk(valid, pool)
    ensures PoolOk(valid, PlayAll(sign, pool, moves)) && pool <= PlayAll(sign, pool, moves)
    ensures AllKnown(pool, PlayAll(sign, pool, moves))
  {
    if moves == [] {
      forall i | 0 <= i < |pool|
        ensures Known(pool, pool[i])
      {
        assert Alike(pool[i], pool[i]);
      }
    } else {
      var mid := PlayAll(sign, pool, moves[..|moves| - 1]);
      var end := PlayAll(sign, pool, moves);
      RunKeeps(valid, sign, pool, moves[..|moves| - 1]);
      PlayKeeps(valid, sign, mid, moves[|moves| - 1]);
      forall i | 0 <= i < |end|
        ensures Known(pool, end[i])
      {
        assert Known(mid, end[i]);
        var j :| 0 <= j < |mid| && Alike(mid[j], end[i]);
        assert Known(pool, mid[j]);
        var k :| 0 <= k < |pool| && Alike(pool[k], mid[j]);
        assert Alike(pool[k], end[i]);
      }
    }
  }

  /** With delegations to keys, no merge of the same revision in a run loses a quorum. */
  lemma RunKeepsQuorum(valid: Check, sign: Sign, pool: seq<Identity>, moves: seq<Move>, m: Move)
    requires Signs(valid, sign) && PoolOk(valid, pool)
    requires var now := PlayAll(sign, pool, moves);
             && m.ours < |now| && m.theirs < |now| && now[m.ours].doc.delegations.Direct?
             && Decide(m.call, now[m.ours], now[m.theirs]) == Ok(SlowForward)
             && (ReachQuorum(now[m.ours]).Ok? || ReachQuorum(now[m.theirs]).Ok?)
    ensures ReachQuorum(UpdateFrom(sign, m.call, PlayAll(sign, pool, moves)[m.ours],
                                   PlayAll(sign, pool, moves)[m.theirs]).value).Ok?
  {
    var now := PlayAll(sign, pool, moves);
    RunKeeps(valid, sign, pool, moves);
    assert SameDoc(now[m.ours], now[m.theirs]);
    SameRevisionCollects(sign, m.call, now[m.ours], now[m.theirs]);
  }
}
