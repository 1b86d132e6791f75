/** Which objects to ask for, and which to offer (link-replication/src/transmit.rs and fetch.rs). */
module WantsHaves {
  import opened Prelude
  import opened RefStore
  import Replication

  /** The local database: its references, and a test for objects that may miss some. */
  datatype Db = Db(refs: Store, contains: Oid -> bool)

  /** The test has no false positives, and references point to objects that are present. */
  ghost predicate Sound(db: Db, present: set<Oid>) {
    && (forall o :: db.contains(o) ==> o in present)
    && (forall x :: x in db.refs ==> db.refs[x] in present)
  }

  ghost predicate Unseen(db: Db, oids: set<Oid>) {
    forall o | o in oids :: !db.contains(o)
  }

  /** `i` is the first name that cannot be tracked. */
  ghost predicate StopsAt(peer: Peer, refs: seq<(Name, Oid)>, i: int) {
    0 <= i < |refs| && !Trackable(peer, refs[i].0) && forall j | 0 <= j < i :: Trackable(peer, refs[j].0)
  }

  /** All names can be tracked; or the first that cannot be is not qualified or has too few
      components, and is reported as malformed; or computing its tracking name panics. */
  ghost predicate Stops(peer: Peer, refs: seq<(Name, Oid)>, r: Outcome<Result<(), Name>>) {
    match r
    case Returned(Ok(_)) => forall j | 0 <= j < |refs| :: Trackable(peer, refs[j].0)
    case Returned(Err(name)) =>
      exists i :: StopsAt(peer, refs, i) && refs[i].0 == name && Tracking(peer, name) == Returned(None)
    case Panicked => exists i :: StopsAt(peer, refs, i) && Tracking(peer, refs[i].0) == Panicked
  }

  lemma FirstStop(peer: Peer, refs: seq<(Name, Oid)>, i: nat)
    requires i < |refs| && !Trackable(peer, refs[i].0) && forall j | 0 <= j < i :: Trackable(peer, refs[j].0)
    ensures StopsAt(peer, refs, i)
  {
  }

  class BuildWantsHaves {
    var wants: set<Oid>
    var haves: set<Oid>
    /** The tips looked at so far. */
    ghost var asked: set<Oid>

    /** Everything offered is present, every tip is present or wanted, and nothing is wanted that
        is seen to be there. */
    ghost predicate Valid(db: Db, present: set<Oid>)
      reads this
    {
      haves <= present && asked <= present + wants && wants <= asked && Unseen(db, wants)
    }

    constructor ()
      ensures wants == haves == asked == {}
    {
      wants, haves, asked := {}, {}, {};
    }

    method Want(oid: Oid)
      modifies this`wants
      ensures wants == old(wants) + {oid}
    {
      wants := wants + {oid};
    }

    method Have(oid: Oid)
      modifies this`haves
      ensures haves == old(haves) + {oid}
    {
      haves := haves + {oid};
    }

    /** Looks at one tip of a reference that is stored under `tracking`. */
    method AddOne(db: Db, tracking: Name, tip: Oid, ghost present: set<Oid>)
      requires Sound(db, present) && Valid(db, present)
      modifies this
      ensures Valid(db, present) && asked == old(asked) + {tip}
      ensures haves == if tracking in db.refs then old(haves) + {db.refs[tracking]} else old(haves)
    {
      var want: bool;
      if tracking in db.refs {
        var oid := db.refs[tracking];
        want := tip != oid && !db.contains(tip);
        Have(oid);
      } else {
        want := !db.contains(tip);
      }
      if want { Want(tip); }
      asked := asked + {tip};
    }

    /** Looks at the advertised references. */
    method Add(db: Db, refs: seq<(Name, Oid)>, ghost present: set<Oid>)
      requires Sound(db, present) && Valid(db, present)
      modifies this
      ensures Valid(db, present) && asked == old(asked) + Tips(refs)
    {
      for i := 0 to |refs|
        invariant Valid(db, present) && asked == old(asked) + Tips(refs[..i])
      {
        AddOne(db, refs[i].0, refs[i].1, present);
        TipsSnoc(refs, i);
      }
      assert refs[..|refs|] == refs;
    }

    /** The signed references of one peer, up to the first name that cannot be tracked. */
    method AddSigned(db: Db, peer: Peer, refs: seq<(Name, Oid)>, ghost present: set<Oid>)
      returns (r: Outcome<Result<(), Name>>)
      requires Sound(db, present) && Valid(db, present)
      modifies this
      ensures Valid(db, present) && (r.Returned? && r.value.Ok? ==> asked == old(asked) + Tips(refs))
      ensures Stops(peer, refs, r)
    {
      for i := 0 to |refs|
        invariant Valid(db, present) && asked == old(asked) + Tips(refs[..i])
        invariant forall j | 0 <= j < i :: Trackable(peer, refs[j].0)
      {
        match Tracking(peer, refs[i].0) {
          case Panicked =>
            FirstStop(peer, refs, i);
            return Panicked;
          case Returned(None) =>
            FirstStop(peer, refs, i);
            return Returned(Err(refs[i].0));
          case Returned(Some(tracking)) =>
            AddOne(db, tracking, refs[i].1, present);
            TipsSnoc(refs, i);
        }
      }
      assert refs[..|refs|] == refs;
      return Returned(Ok(()));
    }

    /** What to ask for, less what is there anyway; nothing if there is nothing to ask for. */
    method Build() returns (r: Option<(set<Oid>, set<Oid>)>)
      ensures r == if wants <= haves then None else Some((wants - haves, haves))
      ensures r.Some? ==> r.value.0 != {}
    {
      var ask := wants - haves;
      assert wants <= ask + haves;
      if ask == {} { return None; }
      return Some((ask, haves));
    }
  }

  ghost function Tips(refs: seq<(Name, Oid)>): set<Oid> {
    set i | 0 <= i < |refs| :: refs[i].1
  }

  lemma TipsSnoc(refs: seq<(Name, Oid)>, i: nat)
    requires i < |refs|
    ensures Tips(refs[..i + 1]) == Tips(refs[..i]) + {refs[i].1}
  {
    var more := refs[..i + 1];
    assert forall j | 0 <= j < i :: more[j] == refs[..i][j];
    assert more[i] == refs[i];
  }

  ghost function SignedTips(all: seq<Replication.Signed>): set<Oid> {
    set i, j | 0 <= i < |all| && 0 <= j < |all[i].refs| :: all[i].refs[j].1
  }

  lemma SignedTipsSnoc(all: seq<Replication.Signed>, i: nat)
    requires i < |all|
    ensures SignedTips(all[..i + 1]) == SignedTips(all[..i]) + Tips(all[i].refs)
  {
    var more := all[..i + 1];
    assert forall k | 0 <= k < i :: more[k] == all[..i][k];
    assert more[i] == all[i];
    forall o | o in Tips(all[i].refs)
      ensures o in SignedTips(more)
    {
      var j :| 0 <= j < |all[i].refs| && all[i].refs[j].1 == o;
      assert more[i].refs[j].1 == o;
    }
    forall o | o in SignedTips(all[..i])
      ensures o in SignedTips(more)
    {
      var k, j :| 0 <= k < |all[..i]| && 0 <= j < |all[..i][k].refs| && all[..i][k].refs[j].1 == o;
      assert more[k].refs[j].1 == o;
    }
  }

  ghost predicate Answers(db: Db, present: set<Oid>, tips: set<Oid>, r: Option<(set<Oid>, set<Oid>)>) {
    match r
    case None => tips <= present
    case Some((wants, haves)) =>
      && wants !! haves && wants != {} && wants <= tips && Unseen(db, wants)
      && haves <= present && tips <= present + wants
  }

  ghost predicate AllTrackable(all: seq<Replication.Signed>) {
    forall i, j | 0 <= i < |all| && 0 <= j < |all[i].refs| :: Trackable(all[i].peer, all[i].refs[j].0)
  }

  /** What is asked for and what is offered are disjoint, and once what was asked for has arrived
      every signed and every advertised tip is present, however many objects the test misses. The
      negotiation gives an answer if and only if all signed names can be tracked. */
  method Negotiate(db: Db, advertised: seq<(Name, Oid)>, all: seq<Replication.Signed>, ghost present: set<Oid>)
      returns (r: Outcome<Result<Option<(set<Oid>, set<Oid>)>, Name>>)
    requires Sound(db, present)
    ensures r.Returned? && r.value.Ok? ==> Answers(db, present, SignedTips(all) + Tips(advertised), r.value.value)
    ensures r.Returned? && r.value.Ok? <==> AllTrackable(all)
    ensures r.Returned? && r.value.Err? ==>
              exists i, j :: 0 <= i < |all| && 0 <= j < |all[i].refs| && all[i].refs[j].0 == r.value.error
                             && Tracking(all[i].peer, r.value.error) == Returned(None)
    ensures r.Panicked? ==>
              exists i, j ::
                0 <= i < |all| && 0 <= j < |all[i].refs| && Tracking(all[i].peer, all[i].refs[j].0) == Panicked
  {
    var bld := new BuildWantsHaves();
    for i := 0 to |all|
      invariant fresh(bld) && bld.Valid(db, present) && bld.asked == SignedTips(all[..i])
      invariant forall k, j | 0 <= k < i && 0 <= j < |all[k].refs| :: Trackable(all[k].peer, all[k].refs[j].0)
    {
      var done := bld.AddSigned(db, all[i].peer, all[i].refs, present);
      match done {
        case Panicked => return Panicked;
        case Returned(Err(name)) => return Returned(Err(name));
        case Returned(Ok(_)) => SignedTipsSnoc(all, i);
      }
    }
    assert all[..|all|] == all;
    bld.Add(db, advertised, present);
    var built := bld.Build();
    return Returned(Ok(built));
  }
}
