/** Planning updates of the references of peers from what they signed, and validating the result
    (link-replication/src/fetch.rs and validation.rs). */
module Replication {
  import opened Prelude
  import opened RefStore
  import Path
  import RefNames

  // ---------- The plan for one peer ----------

  type Refs = seq<(Name, Oid)>

  /** What a peer signed: its references in some order. */
  datatype Signed = Signed(peer: Peer, refs: Refs)

  ghost predicate AllTrackable(peer: Peer, refs: Refs) {
    forall i | 0 <= i < |refs| :: Trackable(peer, refs[i].0)
  }

  /** The tip planned for a name below the peer. */
  function TipOf(peer: Peer, refs: Refs, x: Name): Option<Oid>
    requires AllTrackable(peer, refs)
  {
    if refs == [] then None
    else if TrackedAs(peer, refs[|refs| - 1].0) == x then Some(refs[|refs| - 1].1)
    else TipOf(peer, refs[..|refs| - 1], x)
  }

  /** Below the peer, outside of what begins with "rad", and not signed. */
  predicate Pruned(peer: Peer, refs: Refs, x: Name)
    requires AllTrackable(peer, refs)
  {
    Scanned(peer, x) && !Spared(peer, x) && TipOf(peer, refs, x).None?
  }

  function Directs(peer: Peer, refs: Refs): seq<Update>
    requires AllTrackable(peer, refs)
  {
    if refs == [] then [] else
      Directs(peer, refs[..|refs| - 1]) + [Direct(TrackedAs(peer, refs[|refs| - 1].0), refs[|refs| - 1].1)]
  }

  function Prunes(peer: Peer, refs: Refs, known: seq<Name>): seq<Update>
    requires AllTrackable(peer, refs)
  {
    if known == [] then [] else
      var x := known[|known| - 1];
      Prunes(peer, refs, known[..|known| - 1]) + if Pruned(peer, refs, x) then [Prune(x)] else []
  }

  function PeerPlan(peer: Peer, refs: Refs, known: seq<Name>): seq<Update>
    requires AllTrackable(peer, refs)
  {
    Directs(peer, refs) + Prunes(peer, refs, known)
  }

  ghost predicate Signeds(peer: Peer, refs: Refs, signed: set<Name>)
    requires AllTrackable(peer, refs)
  {
    forall x :: x in signed <==> TipOf(peer, refs, x).Some?
  }

  /** The updates for one peer, or a panic if a name cannot be tracked; `known` are the references
      of the store in some order. */
  method PreparePeer(peer: Peer, refs: Refs, known: seq<Name>, tips: seq<Update>) returns (r: Outcome<seq<Update>>)
    ensures r.Returned? <==> AllTrackable(peer, refs)
    ensures r.Returned? ==> r.value == tips + PeerPlan(peer, refs, known)
  {
    var out := tips;
    var signed: set<Name> := {};
    for i := 0 to |refs|
      invariant AllTrackable(peer, refs[..i]) && out == tips + Directs(peer, refs[..i])
                && Signeds(peer, refs[..i], signed)
    {
      assert refs[..i + 1][..i] == refs[..i];
      if !Trackable(peer, refs[i].0) { return Panicked; }
      var tracking := TrackedAs(peer, refs[i].0);
      signed := signed + {tracking};
      out := out + [Direct(tracking, refs[i].1)];
    }
    assert refs[..|refs|] == refs;
    out := PrunePeer(peer, refs, signed, known, out);
    Path.Associative(tips, Directs(peer, refs), Prunes(peer, refs, known));
    return Returned(out);
  }

  /** Appends a prune for every reference that is neither spared nor signed. */
  method PrunePeer(peer: Peer, ghost refs: Refs, signed: set<Name>, known: seq<Name>, tips: seq<Update>)
    returns (out: seq<Update>)
    requires AllTrackable(peer, refs) && Signeds(peer, refs, signed)
    ensures out == tips + Prunes(peer, refs, known)
  {
    out := tips;
    for i := 0 to |known|
      invariant out == tips + Prunes(peer, refs, known[..i])
    {
      assert known[..i + 1][..i] == known[..i];
      var x := known[i];
      if Scanned(peer, x) && !Spared(peer, x) && x !in signed {
        out := out + [Prune(x)];
      }
    }
    assert known[..|known|] == known;
  }

  // ---------- What the plan does ----------

  function Get(s: Store, x: Name): Option<Oid> {
    if x in s then Some(s[x]) else None
  }

  lemma {:induction false} ApplyConcat(s: Store, a: seq<Update>, b: seq<Update>)
    ensures Apply(s, a + b) == Apply(Apply(s, a), b)
  {
    if b == [] {
      assert a + b == a;
    } else {
      assert (a + b)[..|a + b| - 1] == a + b[..|b| - 1];
      ApplyConcat(s, a, b[..|b| - 1]);
    }
  }

  lemma {:induction false} DirectsEffect(s: Store, peer: Peer, refs: Refs, x: Name)
    requires AllTrackable(peer, refs)
    ensures Get(Apply(s, Directs(peer, refs)), x)
            == if TipOf(peer, refs, x).Some? then TipOf(peer, refs, x) else Get(s, x)
  {
    if refs != [] {
      DirectsEffect(s, peer, refs[..|refs| - 1], x);
      var us := Directs(peer, refs);
      assert us[..|us| - 1] == Directs(peer, refs[..|refs| - 1]);
    }
  }

  lemma PrunesSnoc(s: Store, peer: Peer, refs: Refs, known: seq<Name>)
    requires AllTrackable(peer, refs) && known != []
    ensures var rest, last := known[..|known| - 1], known[|known| - 1];
            Apply(s, Prunes(peer, refs, known))
            == if Pruned(peer, refs, last) then Apply(s, Prunes(peer, refs, rest)) - {last}
               else Apply(s, Prunes(peer, refs, rest))
  {
    var rest, last := known[..|known| - 1], known[|known| - 1];
    var us := Prunes(peer, refs, known);
    if Pruned(peer, refs, last) {
      assert us[..|us| - 1] == Prunes(peer, refs, rest);
    } else {
      assert us == Prunes(peer, refs, rest);
    }
  }

  lemma {:induction false} PrunesEffect(s: Store, peer: Peer, refs: Refs, known: seq<Name>, x: Name)
    requires AllTrackable(peer, refs)
    ensures Get(Apply(s, Prunes(peer, refs, known)), x)
            == if x in known && Pruned(peer, refs, x) then None else Get(s, x)
  {
    if known != [] {
      var rest, last := known[..|known| - 1], known[|known| - 1];
      PrunesEffect(s, peer, refs, rest, x);
      PrunesSnoc(s, peer, refs, known);
      assert x in known <==> x in rest || x == last;
    }
  }

  ghost predicate Lists(known: seq<Name>, s: Store) {
    forall x :: x in s ==> x in known
  }

  /** What a name is set to by the plan of a peer. */
  ghost function Planned(s: Store, peer: Peer, refs: Refs, x: Name): Option<Oid>
    requires AllTrackable(peer, refs)
  {
    if TipOf(peer, refs, x).Some? then TipOf(peer, refs, x) else if Pruned(peer, refs, x) then None else Get(s, x)
  }

  lemma PeerPlanEffect(s: Store, peer: Peer, refs: Refs, known: seq<Name>, x: Name)
    requires AllTrackable(peer, refs) && (x in s ==> x in known)
    ensures Get(Apply(s, PeerPlan(peer, refs, known)), x) == Planned(s, peer, refs, x)
  {
    ApplyConcat(s, Directs(peer, refs), Prunes(peer, refs, known));
    DirectsEffect(s, peer, refs, x);
    PrunesEffect(Apply(s, Directs(peer, refs)), peer, refs, known, x);
  }

  // ---------- All peers ----------

  ghost predicate AllSignedTrackable(all: seq<Signed>) {
    forall i | 0 <= i < |all| :: AllTrackable(all[i].peer, all[i].refs)
  }

  function Plan(all: seq<Signed>, known: seq<Name>): seq<Update>
    requires AllSignedTrackable(all)
  {
    if all == [] then [] else
      Plan(all[..|all| - 1], known) + PeerPlan(all[|all| - 1].peer, all[|all| - 1].refs, known)
  }

  /** The updates for all peers. */
  method Prepare(all: seq<Signed>, known: seq<Name>) returns (r: Outcome<seq<Update>>)
    ensures r.Returned? <==> AllSignedTrackable(all)
    ensures r.Returned? ==> r.value == Plan(all, known)
  {
    var tips: seq<Update> := [];
    for i := 0 to |all|
      invariant AllSignedTrackable(all[..i]) && tips == Plan(all[..i], known)
    {
      r := PreparePeer(all[i].peer, all[i].refs, known, tips);
      if r.Panicked? { return; }
      PlanStep(all, known, i);
      tips := r.value;
    }
    assert all[..|all|] == all;
    return Returned(tips);
  }

  lemma PlanStep(all: seq<Signed>, known: seq<Name>, i: nat)
    requires i < |all| && AllSignedTrackable(all[..i]) && AllTrackable(all[i].peer, all[i].refs)
    ensures AllSignedTrackable(all[..i + 1])
    ensures Plan(all[..i + 1], known) == Plan(all[..i], known) + PeerPlan(all[i].peer, all[i].refs, known)
  {
    assert all[..i + 1][..i] == all[..i];
  }

  /** No peer's name begins with another's, as names of a fixed length do not. */
  ghost predicate PrefixFree(all: seq<Signed>) {
    forall i, j | 0 <= i < |all| && 0 <= j < |all| && i != j :: !(all[i].peer <= all[j].peer)
  }

  lemma {:induction false} TipOfPeer(peer: Peer, refs: Refs, x: Name)
    requires AllTrackable(peer, refs) && TipOf(peer, refs, x).Some?
    ensures |x| > 3 && x[0] == RefNames.REFS && x[1] == REMOTES && x[2] == peer
  {
    if TrackedAs(peer, refs[|refs| - 1].0) != x {
      TipOfPeer(peer, refs[..|refs| - 1], x);
    } else {
      TrackingShape(peer, refs[|refs| - 1].0);
    }
  }

  lemma Comparable(a: string, b: string, c: string)
    requires a <= c && b <= c
    ensures a <= b || b <= a
  {
  }

  /** The plan of one peer leaves alone what is below another. */
  lemma OtherPeer(s: Store, p: Peer, q: Peer, refs: Refs, x: Name)
    requires AllTrackable(q, refs) && Scanned(p, x) && !(p <= q) && !(q <= p)
    ensures Planned(s, q, refs, x) == Get(s, x)
  {
    if TipOf(q, refs, x).Some? { TipOfPeer(q, refs, x); }
    if q <= x[2] { Comparable(p, q, x[2]); }
  }

  lemma {:induction false} PlanOthers(s: Store, all: seq<Signed>, known: seq<Name>, p: Peer, x: Name)
    requires AllSignedTrackable(all) && (x in s ==> x in known) && Scanned(p, x)
    requires forall i | 0 <= i < |all| :: !(p <= all[i].peer) && !(all[i].peer <= p)
    ensures Get(Apply(s, Plan(all, known)), x) == Get(s, x)
  {
    if all != [] {
      var rest, last := all[..|all| - 1], all[|all| - 1];
      PlanOthers(s, rest, known, p, x);
      ApplyConcat(s, Plan(rest, known), PeerPlan(last.peer, last.refs, known));
      PeerPlanEffect(Apply(s, Plan(rest, known)), last.peer, last.refs, known, x);
      OtherPeer(Apply(s, Plan(rest, known)), p, last.peer, last.refs, x);
    }
  }

  /** Below a peer the whole plan does what the plan of that peer does. */
  lemma {:induction false} PlanEffect(s: Store, all: seq<Signed>, known: seq<Name>, i: nat, x: Name)
    requires AllSignedTrackable(all) && PrefixFree(all) && i < |all| && Lists(known, s) && Scanned(all[i].peer, x)
    ensures Get(Apply(s, Plan(all, known)), x) == Planned(s, all[i].peer, all[i].refs, x)
  {
    var n := |all| - 1;
    var rest, last := all[..n], all[n];
    var mid := Apply(s, Plan(rest, known));
    ApplyConcat(s, Plan(rest, known), PeerPlan(last.peer, last.refs, known));
    if i == n {
      PlanOthers(s, rest, known, last.peer, x);
      PeerPlanEffect(mid, last.peer, last.refs, known, x);
    } else {
      PlanEffect(s, rest, known, i, x);
      OtherPeerLast(mid, all, i, known, x);
    }
  }

  lemma OtherPeerLast(mid: Store, all: seq<Signed>, i: nat, known: seq<Name>, x: Name)
    requires AllSignedTrackable(all) && PrefixFree(all) && i < |all| - 1 && Scanned(all[i].peer, x)
    ensures Get(Apply(mid, PeerPlan(all[|all| - 1].peer, all[|all| - 1].refs, known)), x) == Get(mid, x)
  {
    var last := all[|all| - 1];
    ApplyConcat(mid, Directs(last.peer, last.refs), Prunes(last.peer, last.refs, known));
    DirectsEffect(mid, last.peer, last.refs, x);
    PrunesEffect(Apply(mid, Directs(last.peer, last.refs)), last.peer, last.refs, known, x);
    OtherPeer(mid, all[i].peer, last.peer, last.refs, x);
  }
}
