/** Delegations, and the quorum they demand (link-identities/src/delegation). */
module Delegation {
  import opened Prelude

  type Key = nat

  /** Either the keys themselves, or keys owned by one of a number of other identities.  A key
      without an owner votes for itself. */
  datatype Delegations =
    | Direct(keys: set<Key>)
    | Indirect(owners: map<Key, Option<nat>>, identities: nat)

  predicate WellFormed(d: Delegations) {
    d.Indirect? ==> forall k | k in d.owners && d.owners[k].Some? :: d.owners[k].value < d.identities
  }

  function Voting(d: Delegations, votes: set<Key>): set<Key> {
    match d
    case Direct(keys) => keys * votes
    case Indirect(owners, _) => owners.Keys * votes
  }

  predicate SameOwner(d: Delegations, k: Key, l: Key) {
    d.Indirect? && k in d.owners && l in d.owners && k != l && d.owners[k].Some? && d.owners[k] == d.owners[l]
  }

  /** Two keys of the same owner vote. */
  predicate DoubleVote(d: Delegations, votes: set<Key>) {
    exists k, l | k in Voting(d, votes) && l in Voting(d, votes) :: SameOwner(d, k, l)
  }

  function Eligible(d: Delegations, votes: set<Key>): Option<set<Key>> {
    if DoubleVote(d, votes) then None else Some(Voting(d, votes))
  }

  function Unowned(owners: map<Key, Option<nat>>): set<Key> {
    set k | k in owners && owners[k].None?
  }

  function Threshold(d: Delegations): nat {
    match d
    case Direct(keys) => |keys| / 2
    case Indirect(owners, identities) => (|Unowned(owners)| + identities) / 2
  }

  predicate Majority(d: Delegations, votes: set<Key>) {
    match Eligible(d, votes)
    case None => false
    case Some(keys) => |keys| > 0 && |keys| > Threshold(d)
  }

  /** The fold over the delegated keys, in some order, that refuses the second vote of an owner. */
  method CountVotes(d: Delegations, order: seq<Key>, votes: set<Key>) returns (r: Option<set<Key>>)
    requires d.Indirect?
    requires forall i, j | 0 <= i < j < |order| :: order[i] != order[j]
    requires (set k | k in order) == d.owners.Keys
    ensures r == Eligible(d, votes)
  {
    var seen: set<nat> := {};
    var acc: set<Key> := {};
    for i := 0 to |order|
      invariant acc == set j | 0 <= j < i && order[j] in votes :: order[j]
      invariant seen == set j | 0 <= j < i && order[j] in votes && Owned(d, order[j]) :: d.owners[order[j]].value
      invariant forall j, k | 0 <= j < i && 0 <= k < i && order[j] in votes && order[k] in votes ::
                  !SameOwner(d, order[j], order[k])
    {
      var k := order[i];
      assert k in (set k | k in order);
      if k in votes {
        if d.owners[k].Some? {
          if d.owners[k].value in seen {
            var j :| 0 <= j < i && order[j] in votes && Owned(d, order[j])
              && d.owners[order[j]].value == d.owners[k].value;
            assert order[j] in Voting(d, votes) && k in Voting(d, votes) && SameOwner(d, order[j], k);
            return None;
          }
          seen := seen + {d.owners[k].value};
        }
        acc := acc + {k};
      }
    }
    AllCounted(d, order, votes);
    return Some(acc);
  }

  predicate Owned(d: Delegations, k: Key) {
    d.Indirect? && k in d.owners && d.owners[k].Some?
  }

  lemma AllCounted(d: Delegations, order: seq<Key>, votes: set<Key>)
    requires d.Indirect? && (set k | k in order) == d.owners.Keys
    requires forall j, k | 0 <= j < |order| && 0 <= k < |order| && order[j] in votes && order[k] in votes ::
               !SameOwner(d, order[j], order[k])
    ensures !DoubleVote(d, votes)
    ensures Voting(d, votes) == set j | 0 <= j < |order| && order[j] in votes :: order[j]
  {
    forall k | k in Voting(d, votes)
      ensures exists j :: 0 <= j < |order| && order[j] == k
    {
      assert k in (set k | k in order);
    }
    forall k | k in order
      ensures k in d.owners
    {
      assert k in (set k | k in order);
    }
  }

  // ---------- Two quorums share a voter ----------

  /** Who casts a vote: a key on its own behalf, or one of the identities. */
  datatype Voter = Solo(key: Key) | Member(index: nat)

  function VoterOf(d: Delegations, k: Key): Voter {
    if Owned(d, k) then Member(d.owners[k].value) else Solo(k)
  }

  ghost function Solos(keys: set<Key>): set<Voter> {
    set k | k in keys :: Solo(k)
  }

  ghost function Members(n: nat): set<Voter> {
    set i: nat | i < n :: Member(i)
  }

  ghost function Voters(d: Delegations): set<Voter> {
    match d
    case Direct(keys) => Solos(keys)
    case Indirect(owners, identities) => Solos(Unowned(owners)) + Members(identities)
  }

  lemma {:induction false} SolosCount(keys: set<Key>)
    ensures |Solos(keys)| == |keys|
  {
    if keys == {} {
      assert Solos(keys) == {};
    } else {
      var k :| k in keys;
      SolosCount(keys - {k});
      assert Solos(keys) == Solos(keys - {k}) + {Solo(k)};
    }
  }

  lemma {:induction false} MembersCount(n: nat)
    ensures |Members(n)| == n
  {
    if n == 0 {
      assert Members(n) == {};
    } else {
      MembersCount(n - 1);
      assert Members(n) == Members(n - 1) + {Member(n - 1)};
    }
  }

  lemma ThresholdIsHalf(d: Delegations)
    ensures Threshold(d) == |Voters(d)| / 2
  {
    match d {
      case Direct(keys) => SolosCount(keys);
      case Indirect(owners, identities) =>
        SolosCount(Unowned(owners));
        MembersCount(identities);
        assert Solos(Unowned(owners)) !! Members(identities);
    }
  }

  ghost function Ballots(d: Delegations, keys: set<Key>): set<Voter> {
    set k | k in keys :: VoterOf(d, k)
  }

  lemma {:induction false} BallotsCount(d: Delegations, keys: set<Key>)
    requires forall k, l | k in keys && l in keys :: !SameOwner(d, k, l)
    ensures |Ballots(d, keys)| == |keys|
  {
    if keys == {} {
      assert Ballots(d, keys) == {};
    } else {
      var k :| k in keys;
      var rest := keys - {k};
      BallotsCount(d, rest);
      assert Ballots(d, keys) == Ballots(d, rest) + {VoterOf(d, k)};
      forall l | l in rest
        ensures VoterOf(d, l) != VoterOf(d, k)
      {
        assert !SameOwner(d, k, l);
      }
    }
  }

  lemma BallotsAreVoters(d: Delegations, votes: set<Key>)
    requires WellFormed(d)
    ensures Ballots(d, Voting(d, votes)) <= Voters(d)
  {
    forall k | k in Voting(d, votes)
      ensures VoterOf(d, k) in Voters(d)
    {
      if d.Indirect? && d.owners[k].None? { assert k in Unowned(d.owners); }
    }
  }

  lemma OverlapByCount<T>(a: set<T>, b: set<T>, all: set<T>)
    requires a <= all && b <= all && |a| + |b| > |all|
    ensures a * b != {}
  {
    if a * b == {} {
      assert |a + b| == |a| + |b|;
      SubsetCount(a + b, all);
    }
  }

  lemma {:induction false} SubsetCount<T>(a: set<T>, b: set<T>)
    requires a <= b
    ensures |a| <= |b|
  {
    assert b == a + (b - a);
  }

  /** Two vote sets that each reach the quorum of the same delegations have a voter in common. */
  lemma QuorumsIntersect(d: Delegations, a: set<Key>, b: set<Key>)
    requires WellFormed(d) && Majority(d, a) && Majority(d, b)
    ensures exists k, l :: k in Voting(d, a) && l in Voting(d, b) && VoterOf(d, k) == VoterOf(d, l)
  {
    var va, vb := Voting(d, a), Voting(d, b);
    BallotsCount(d, va);
    BallotsCount(d, vb);
    BallotsAreVoters(d, a);
    BallotsAreVoters(d, b);
    ThresholdIsHalf(d);
    OverlapByCount(Ballots(d, va), Ballots(d, vb), Voters(d));
    var v :| v in Ballots(d, va) * Ballots(d, vb);
  }

  // ---------- More votes ----------

  /** Adding votes keeps a quorum unless it makes an owner vote twice. */
  lemma MoreVotes(d: Delegations, votes: set<Key>, more: set<Key>)
    requires votes <= more && Majority(d, votes)
    ensures Majority(d, more) <==> !DoubleVote(d, more)
  {
    SubsetCount(Voting(d, votes), Voting(d, more));
  }

  /** A vote more can cost an indirect delegation its quorum. */
  lemma QuorumCanBeLost()
    ensures exists d: Delegations, votes: set<Key>, more: set<Key> ::
              WellFormed(d) && votes <= more && Majority(d, votes) && !Majority(d, more)
  {
    var d := Indirect(map[1 := Some(0), 2 := Some(0)], 1);
    var votes: set<Key>, more: set<Key> := {1}, {1, 2};
    assert Voting(d, votes) == {1} && Voting(d, more) == {1, 2};
    assert Unowned(d.owners) == {};
    assert SameOwner(d, 1, 2);
    assert Majority(d, votes) && !Majority(d, more) && WellFormed(d);
  }
}
