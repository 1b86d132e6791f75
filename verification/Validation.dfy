/** Validating the references of a peer against what it signed, and why planned updates leave
    nothing to complain about (link-replication/src/validation.rs). */
module Validation {
  import opened Prelude
  import opened RefStore
  import opened Replication
  import RefNames

  datatype Failure =
    | Malformed(name: Name)
    | Unexpected(name: Name)
    | Mismatched(name: Name, expected: Oid, actual: Oid)
    | Missing(name: Name)
    | NoData | MissingRadId | MissingSigRefs

  /** What is validated against: the owner, the references it signed, and where it did. */
  datatype SigTree = SigTree(codec: Codec, id: Option<Peer>, refs: map<Name, Oid>, at: Oid)

  type Items = seq<(Name, Oid)>

  /** What a name parses to, if it belongs to the owner. */
  function Mine(t: SigTree, name: Name): Option<Inner> {
    match Parse(t.codec, name)
    case None => None
    case Some(p) => if p.remote == t.id then Some(p.inner) else None
  }

  // ---------- What is to be reported ----------

  ghost predicate HasInner(t: SigTree, items: Items, inner: Inner) {
    exists i :: 0 <= i < |items| && Mine(t, items[i].0) == Some(inner)
  }

  /** Some reference of the owner has this name. */
  ghost predicate HasName(t: SigTree, items: Items, n: Name) {
    exists i :: 0 <= i < |items| && IsName(t, items[i].0, n)
  }

  predicate IsName(t: SigTree, x: Name, n: Name) {
    Mine(t, x).Some? && OwnName(Mine(t, x).value) == n
  }

  /** The failures a single reference gives rise to. */
  function ItemFailure(t: SigTree, item: (Name, Oid)): Option<Failure> {
    if Parse(t.codec, item.0).None? then Some(Malformed(item.0))
    else match Mine(t, item.0)
      case None => None
      case Some(RadRef(SignedRefs)) =>
        if item.1 != t.at then Some(Mismatched(RadName(SignedRefs), t.at, item.1)) else None
      case Some(RadRef(_)) => None
      case Some(OwnedRef(n)) =>
        if n !in t.refs then Some(Unexpected(n))
        else if t.refs[n] != item.1 then Some(Mismatched(n, t.refs[n], item.1))
        else None
  }

  ghost predicate FromItem(t: SigTree, items: Items, f: Failure) {
    exists i :: 0 <= i < |items| && ItemFailure(t, items[i]) == Some(f)
  }

  ghost predicate Reported(t: SigTree, items: Items, f: Failure) {
    match f
    case NoData => items == []
    case MissingRadId => items != [] && !HasInner(t, items, RadRef(Id))
    case MissingSigRefs => items != [] && !HasInner(t, items, RadRef(SignedRefs))
    case Missing(n) => items != [] && n in t.refs && !HasName(t, items, n)
    case _ => FromItem(t, items, f)
  }

  // ---------- The validation ----------

  datatype Scan = Scan(fail: seq<Failure>, seen: set<Name>, radId: bool, sigRefs: bool)

  ghost predicate ScanOk(t: SigTree, items: Items, s: Scan) {
    && (forall f :: f in s.fail <==> FromItem(t, items, f))
    && (forall n :: n in s.seen <==> HasName(t, items, n))
    && (s.radId <==> HasInner(t, items, RadRef(Id)))
    && (s.sigRefs <==> HasInner(t, items, RadRef(SignedRefs)))
  }

  /** The step of the loop over the references. */
  function ScanOne(t: SigTree, s: Scan, item: (Name, Oid)): Scan {
    var fail := match ItemFailure(t, item) case None => s.fail case Some(f) => s.fail + [f];
    match Mine(t, item.0)
    case None => s.(fail := fail)
    case Some(inner) =>
      Scan(fail, s.seen + {OwnName(inner)}, s.radId || inner == RadRef(Id), s.sigRefs || inner == RadRef(SignedRefs))
  }

  lemma FromItemSnoc(t: SigTree, items: Items, item: (Name, Oid), f: Failure)
    ensures FromItem(t, items + [item], f) <==> FromItem(t, items, f) || ItemFailure(t, item) == Some(f)
  {
    var all := items + [item];
    if FromItem(t, items, f) {
      var i :| 0 <= i < |items| && ItemFailure(t, items[i]) == Some(f);
      assert all[i] == items[i];
    }
    assert all[|items|] == item;
  }

  lemma HasNameSnoc(t: SigTree, items: Items, item: (Name, Oid), n: Name)
    ensures HasName(t, items + [item], n) <==> HasName(t, items, n) || IsName(t, item.0, n)
  {
    var all := items + [item];
    if HasName(t, items, n) {
      var i :| 0 <= i < |items| && IsName(t, items[i].0, n);
      assert all[i] == items[i];
    }
    assert all[|items|] == item;
  }

  lemma HasInnerSnoc(t: SigTree, items: Items, item: (Name, Oid), inner: Inner)
    ensures HasInner(t, items + [item], inner) <==> HasInner(t, items, inner) || Mine(t, item.0) == Some(inner)
  {
    var all := items + [item];
    if HasInner(t, items, inner) {
      var i :| 0 <= i < |items| && Mine(t, items[i].0) == Some(inner);
      assert all[i] == items[i];
    }
    assert all[|items|] == item;
  }

  lemma ScanStep(t: SigTree, items: Items, s: Scan, item: (Name, Oid))
    requires ScanOk(t, items, s)
    ensures ScanOk(t, items + [item], ScanOne(t, s, item))
  {
    var next := ScanOne(t, s, item);
    forall f
      ensures f in next.fail <==> FromItem(t, items + [item], f)
    {
      FromItemSnoc(t, items, item, f);
    }
    forall n
      ensures n in next.seen <==> HasName(t, items + [item], n)
    {
      HasNameSnoc(t, items, item, n);
    }
    HasInnerSnoc(t, items, item, RadRef(Id));
    HasInnerSnoc(t, items, item, RadRef(SignedRefs));
  }

  method ScanItems(t: SigTree, items: Items) returns (s: Scan)
    ensures ScanOk(t, items, s)
  {
    s := Scan([], {}, false, false);
    for i := 0 to |items|
      invariant ScanOk(t, items[..i], s)
    {
      ScanStep(t, items[..i], s, items[i]);
      assert items[..i] + [items[i]] == items[..i + 1];
      s := ScanOne(t, s, items[i]);
    }
    assert items[..|items|] == items;
  }

  /** Reports exactly what is to be reported; `keys` are the signed names in some order. */
  method Validate(t: SigTree, items: Items, keys: seq<Name>) returns (fail: seq<Failure>)
    requires forall n :: n in keys <==> n in t.refs
    ensures forall f :: f in fail <==> Reported(t, items, f)
  {
    var s := ScanItems(t, items);
    fail := s.fail;
    if |items| == 0 {
      fail := fail + [NoData];
      NothingFromNothing(t, items);
    } else {
      if !s.radId { fail := fail + [MissingRadId]; }
      if !s.sigRefs { fail := fail + [MissingSigRefs]; }
      fail := AddMissing(fail, keys, s.seen);
      ItemKinds(t, items);
    }
  }

  method AddMissing(before: seq<Failure>, keys: seq<Name>, seen: set<Name>) returns (fail: seq<Failure>)
    ensures forall f :: f in fail <==> f in before || (f.Missing? && f.name in keys && f.name !in seen)
  {
    fail := before;
    for i := 0 to |keys|
      invariant forall f :: f in fail <==> f in before || (f.Missing? && f.name in keys[..i] && f.name !in seen)
    {
      if keys[i] !in seen { fail := fail + [Missing(keys[i])]; }
    }
    assert keys[..|keys|] == keys;
  }

  lemma NothingFromNothing(t: SigTree, items: Items)
    requires |items| == 0
    ensures forall f :: !FromItem(t, items, f)
  {
  }

  lemma ItemKinds(t: SigTree, items: Items)
    ensures forall f :: FromItem(t, items, f) ==> !f.NoData? && !f.MissingRadId? && !f.MissingSigRefs? && !f.Missing?
  {
  }

  // ---------- After the planned updates ----------

  /** The failures that have nothing to do with references outside of "rad". */
  ghost predicate Harmless(f: Option<Failure>) {
    f.Some? ==> f.value.Malformed? || (f.value.Mismatched? && f.value.name == RadName(SignedRefs))
  }

  /** What a reference is read back as decides its failure. */
  lemma FailureByName(t: SigTree, x: Name, o: Oid)
    ensures match Mine(t, x) {
              case Some(OwnedRef(n)) =>
                ItemFailure(t, (x, o)) == if n !in t.refs then Some(Unexpected(n))
                                          else if t.refs[n] != o then Some(Mismatched(n, t.refs[n], o)) else None
              case _ => Harmless(ItemFailure(t, (x, o)))
            }
  {
  }

  lemma RadIsRad(t: SigTree, x: Name)
    requires |x| > 3 && x[1] == REMOTES && x[3] == RAD
    ensures Mine(t, x) == None || Mine(t, x).value.RadRef?
  {
    assert x[3..][0] == RAD;
  }

  function OwnOf(x: Name): Name
    requires |x| > 3
  {
    [RefNames.REFS] + x[3..]
  }

  /** In a category that begins with "rad" but is not "rad", and with a name in it. */
  predicate MerelyRad(p: Peer, x: Name) {
    Spared(p, x) && x[3] != RAD && |x| > 4
  }

  lemma NotReserved(c: string)
    requires RAD <= c
    ensures c != REMOTES && c != RefNames.NAMESPACES
  {
    assert c[0] == RAD[0] && c[1] == RAD[1];
  }

  /** A spared reference is read back as a reference of the peer in such a category only. */
  lemma SparedName(t: SigTree, p: Peer, x: Name)
    requires t.id == Some(p) && t.codec.isPeer(p) && Spared(p, x)
    ensures MerelyRad(p, x) ==> Mine(t, x) == Some(OwnedRef(OwnOf(x)))
    ensures !MerelyRad(p, x) ==> Mine(t, x) == None || Mine(t, x).value.RadRef?
  {
    if x[3] == RAD {
      RadIsRad(t, x);
    } else {
      NotReserved(x[3]);
      assert x[3..][0] == x[3] && OwnOf(x)[1] == x[3];
    }
  }

  /** The signed references as a map. */
  ghost predicate Agree(refs: Refs, m: map<Name, Oid>) {
    && (forall i | 0 <= i < |refs| :: refs[i].0 in m && m[refs[i].0] == refs[i].1)
    && (forall n :: n in m ==> Listed(refs, n))
  }

  ghost predicate Listed(refs: Refs, n: Name) {
    exists i :: 0 <= i < |refs| && refs[i].0 == n
  }

  lemma {:induction false} TipOfSome(peer: Peer, refs: Refs, x: Name) returns (i: nat)
    requires AllTrackable(peer, refs) && TipOf(peer, refs, x).Some?
    ensures i < |refs| && TrackedAs(peer, refs[i].0) == x && TipOf(peer, refs, x) == Some(refs[i].1)
  {
    if TrackedAs(peer, refs[|refs| - 1].0) == x {
      i := |refs| - 1;
    } else {
      i := TipOfSome(peer, refs[..|refs| - 1], x);
    }
  }

  lemma {:induction false} TipOfListed(peer: Peer, refs: Refs, i: nat)
    requires AllTrackable(peer, refs) && i < |refs|
    ensures TipOf(peer, refs, TrackedAs(peer, refs[i].0)).Some?
  {
    if i < |refs| - 1 { TipOfListed(peer, refs[..|refs| - 1], i); }
  }

  /** The references of a peer that a scan of the store gives, in some order. */
  ghost predicate ScanOf(s: Store, p: Peer, items: Items) {
    && (forall i | 0 <= i < |items| :: RefStore.Scanned(p, items[i].0) && Get(s, items[i].0) == Some(items[i].1))
    && (forall x :: RefStore.Scanned(p, x) && x in s ==> InItems(items, x))
  }

  ghost predicate InItems(items: Items, x: Name) {
    exists i :: 0 <= i < |items| && items[i].0 == x
  }

  /** The setting: a fetch for all peers is planned and applied, and then one peer is validated.
      Planning aborts unless all names can be tracked; nothing else is asked of what is signed. */
  ghost predicate Fetched(t: SigTree, s: Store, all: seq<Signed>, known: seq<Name>, k: nat, items: Items) {
    && AllSignedTrackable(all) && PrefixFree(all) && Lists(known, s) && k < |all|
    && t.id == Some(all[k].peer) && t.codec.isPeer(all[k].peer) && Agree(all[k].refs, t.refs)
    && ScanOf(Apply(s, Plan(all, known)), all[k].peer, items)
  }

  /** What a scanned reference can be: one that is planned, or one that is spared and was there. */
  lemma ItemIs(t: SigTree, s: Store, all: seq<Signed>, known: seq<Name>, k: nat, items: Items, i: nat)
    requires Fetched(t, s, all, known, k, items) && i < |items|
    ensures var (x, o) := items[i]; var p, refs := all[k].peer, all[k].refs;
            && AllTrackable(p, refs)
            && (TipOf(p, refs, x) == Some(o) || (TipOf(p, refs, x).None? && Spared(p, x) && x in s))
  {
    PlanEffect(s, all, known, k, items[i].0);
  }

  /** Every planned reference is scanned, with the planned tip. */
  lemma PlannedIsItem(t: SigTree, s: Store, all: seq<Signed>, known: seq<Name>, k: nat, items: Items, j: nat)
    returns (i: nat)
    requires Fetched(t, s, all, known, k, items) && j < |all[k].refs|
    ensures AllTrackable(all[k].peer, all[k].refs)
    ensures var p, refs := all[k].peer, all[k].refs;
            i < |items| && items[i].0 == TrackedAs(p, refs[j].0) && TipOf(p, refs, items[i].0) == Some(items[i].1)
  {
    var p, refs := all[k].peer, all[k].refs;
    var x := TrackedAs(p, refs[j].0);
    TrackingShape(p, refs[j].0);
    TipOfListed(p, refs, j);
    PlanEffect(s, all, known, k, x);
    assert InItems(items, x);
    i :| 0 <= i < |items| && items[i].0 == x;
  }

  /** A spared name that is not planned is not signed either. */
  lemma SparedUnsigned(t: SigTree, p: Peer, refs: Refs, x: Name)
    requires AllTrackable(p, refs) && Agree(refs, t.refs) && TipOf(p, refs, x).None? && MerelyRad(p, x)
    ensures OwnOf(x) !in t.refs
  {
    var n := OwnOf(x);
    NotReserved(x[3]);
    assert n[1] == x[3] && Tracked(p, n) == x;
    PlainTrackable(p, n);
    if n in t.refs {
      assert Listed(refs, n);
      var j :| 0 <= j < |refs| && refs[j].0 == n;
      TipOfListed(p, refs, j);
    }
  }

  // ---------- Unexpected references ----------

  /** A reference that is left unsigned, in a category that merely begins with "rad". */
  ghost predicate Stale(t: SigTree, s: Store, p: Peer, x: Name) {
    x in s && MerelyRad(p, x) && OwnOf(x) !in t.refs
  }

  /** A signed name whose tracking name is read back as one that is not signed. */
  ghost predicate Stray(t: SigTree, p: Peer, refs: Refs, j: int, n: Name) {
    && 0 <= j < |refs| && Trackable(p, refs[j].0)
    && Mine(t, TrackedAs(p, refs[j].0)) == Some(OwnedRef(n)) && n !in t.refs
  }

  /** A spared reference that is not planned and is read back as a reference of the peer is stale. */
  lemma SparedRead(t: SigTree, s: Store, p: Peer, refs: Refs, x: Name, n: Name)
    requires t.id == Some(p) && t.codec.isPeer(p) && AllTrackable(p, refs) && Agree(refs, t.refs)
    requires TipOf(p, refs, x).None? && Spared(p, x) && x in s && Mine(t, x) == Some(OwnedRef(n))
    ensures n == OwnOf(x) && Stale(t, s, p, x)
  {
    SparedName(t, p, x);
    SparedUnsigned(t, p, refs, x);
  }

  lemma UnexpectedItem(t: SigTree, x: Name, o: Oid, n: Name)
    requires ItemFailure(t, (x, o)) == Some(Unexpected(n))
    ensures Mine(t, x) == Some(OwnedRef(n)) && n !in t.refs
  {
    FailureByName(t, x, o);
  }

  lemma UnexpectedMeans(t: SigTree, s: Store, all: seq<Signed>, known: seq<Name>, k: nat, items: Items, n: Name)
    requires Fetched(t, s, all, known, k, items) && Reported(t, items, Unexpected(n))
    ensures (exists x :: Stale(t, s, all[k].peer, x)) || exists j :: Stray(t, all[k].peer, all[k].refs, j, n)
  {
    var p, refs := all[k].peer, all[k].refs;
    var i :| 0 <= i < |items| && ItemFailure(t, items[i]) == Some(Unexpected(n));
    var (x, o) := items[i];
    ItemIs(t, s, all, known, k, items, i);
    UnexpectedItem(t, x, o, n);
    if TipOf(p, refs, x).Some? {
      var j := TipOfSome(p, refs, x);
      assert Stray(t, p, refs, j, n);
    } else {
      SparedRead(t, s, p, refs, x, n);
    }
  }

  lemma StaleReported(t: SigTree, s: Store, all: seq<Signed>, known: seq<Name>, k: nat, items: Items, x: Name)
    requires Fetched(t, s, all, known, k, items) && Stale(t, s, all[k].peer, x)
    ensures Reported(t, items, Unexpected(OwnOf(x)))
  {
    PlanEffect(s, all, known, k, x);
    assert InItems(items, x);
    var i :| 0 <= i < |items| && items[i].0 == x;
    SparedName(t, all[k].peer, x);
    FailureByName(t, x, items[i].1);
    assert ItemFailure(t, items[i]) == Some(Unexpected(OwnOf(x)));
  }

  lemma StrayReported(t: SigTree, s: Store, all: seq<Signed>, known: seq<Name>, k: nat, items: Items, j: nat, n: Name)
    requires Fetched(t, s, all, known, k, items) && Stray(t, all[k].peer, all[k].refs, j, n)
    ensures Reported(t, items, Unexpected(n))
  {
    var i := PlannedIsItem(t, s, all, known, k, items, j);
    FailureByName(t, items[i].0, items[i].1);
    assert ItemFailure(t, items[i]) == Some(Unexpected(n));
  }

  /** After the updates a reference is unexpected if and only if the store had an unsigned one in a
      category that merely begins with "rad", or the peer signed a name whose tracking name is read
      back as a name it did not sign. */
  lemma UnexpectedIff(t: SigTree, s: Store, all: seq<Signed>, known: seq<Name>, k: nat, items: Items)
    requires Fetched(t, s, all, known, k, items)
    ensures (exists n :: Reported(t, items, Unexpected(n)))
            <==> (exists x :: Stale(t, s, all[k].peer, x)) || exists j, n :: Stray(t, all[k].peer, all[k].refs, j, n)
  {
    var p, refs := all[k].peer, all[k].refs;
    if n :| Reported(t, items, Unexpected(n)) {
      UnexpectedMeans(t, s, all, known, k, items, n);
    }
    if x :| Stale(t, s, p, x) {
      StaleReported(t, s, all, known, k, items, x);
    }
    if j, n :| Stray(t, p, refs, j, n) {
      StrayReported(t, s, all, known, k, items, j, n);
    }
  }

  /** A stale name: an unsigned reference in a category "radx". */
  lemma RadxIsStale(t: SigTree, s: Store, p: Peer, x: Name)
    requires x == [RefNames.REFS, REMOTES, p, "radx", "a"] && x in s && [RefNames.REFS, "radx", "a"] !in t.refs
    ensures Stale(t, s, p, x)
  {
    assert OwnOf(x) == [RefNames.REFS, "radx", "a"];
    assert "radx"[..3] == RAD;
  }

  // ---------- Mismatched references ----------

  /** A signed name whose tracking name is read back as the signed name `n`, and is planned with
      another tip than was signed for it. */
  ghost predicate Clash(t: SigTree, p: Peer, refs: Refs, j: int, n: Name)
    requires AllTrackable(p, refs)
  {
    && 0 <= j < |refs| && Mine(t, TrackedAs(p, refs[j].0)) == Some(OwnedRef(n)) && n in t.refs
    && TipOf(p, refs, TrackedAs(p, refs[j].0)) != Some(t.refs[n])
  }

  ghost predicate MismatchReported(t: SigTree, items: Items, n: Name) {
    exists e, a :: Reported(t, items, Mismatched(n, e, a))
  }

  lemma MismatchedItem(t: SigTree, x: Name, o: Oid, n: Name, e: Oid, a: Oid)
    requires ItemFailure(t, (x, o)) == Some(Mismatched(n, e, a)) && n != RadName(SignedRefs)
    ensures Mine(t, x) == Some(OwnedRef(n)) && n in t.refs && t.refs[n] != o
  {
    FailureByName(t, x, o);
  }

  lemma MismatchMeans(t: SigTree, s: Store, all: seq<Signed>, known: seq<Name>, k: nat, items: Items, n: Name)
    returns (j: nat)
    requires Fetched(t, s, all, known, k, items) && n != RadName(SignedRefs) && MismatchReported(t, items, n)
    ensures AllTrackable(all[k].peer, all[k].refs) && Clash(t, all[k].peer, all[k].refs, j, n)
  {
    var p, refs := all[k].peer, all[k].refs;
    var e, a :| Reported(t, items, Mismatched(n, e, a));
    var i :| 0 <= i < |items| && ItemFailure(t, items[i]) == Some(Mismatched(n, e, a));
    var (x, o) := items[i];
    ItemIs(t, s, all, known, k, items, i);
    MismatchedItem(t, x, o, n, e, a);
    if TipOf(p, refs, x).None? {
      SparedRead(t, s, p, refs, x, n);
    }
    j := TipOfSome(p, refs, x);
  }

  lemma ClashReported(t: SigTree, s: Store, all: seq<Signed>, known: seq<Name>, k: nat, items: Items, j: nat, n: Name)
    requires Fetched(t, s, all, known, k, items) && AllTrackable(all[k].peer, all[k].refs)
    requires Clash(t, all[k].peer, all[k].refs, j, n)
    ensures MismatchReported(t, items, n)
  {
    var i := PlannedIsItem(t, s, all, known, k, items, j);
    FailureByName(t, items[i].0, items[i].1);
    assert FromItem(t, items, Mismatched(n, t.refs[n], items[i].1));
    assert Reported(t, items, Mismatched(n, t.refs[n], items[i].1));
  }

  /** After the updates a name other than that of the signed references themselves is mismatched if
      and only if two signed names contend for it. */
  lemma MismatchedIff(t: SigTree, s: Store, all: seq<Signed>, known: seq<Name>, k: nat, items: Items, n: Name)
    requires Fetched(t, s, all, known, k, items) && n != RadName(SignedRefs)
    ensures AllTrackable(all[k].peer, all[k].refs)
    ensures MismatchReported(t, items, n) <==> exists j :: Clash(t, all[k].peer, all[k].refs, j, n)
  {
    if MismatchReported(t, items, n) {
      var j := MismatchMeans(t, s, all, known, k, items, n);
    }
    if j :| Clash(t, all[k].peer, all[k].refs, j, n) {
      ClashReported(t, s, all, known, k, items, j, n);
    }
  }

  // ---------- Missing references ----------

  ghost predicate AllPlain(refs: Refs) {
    forall i | 0 <= i < |refs| :: Plain(refs[i].0)
  }

  ghost predicate MissingReported(t: SigTree, items: Items) {
    exists n :: n in t.refs && |n| > 1 && n[1] != RAD && Reported(t, items, Missing(n))
  }

  /** A plain signed name is found. */
  lemma PlainFound(t: SigTree, s: Store, all: seq<Signed>, known: seq<Name>, k: nat, items: Items, n: Name)
    requires Fetched(t, s, all, known, k, items) && n in t.refs && Plain(n) && n[1] != RAD
    ensures !Reported(t, items, Missing(n))
  {
    var p, refs := all[k].peer, all[k].refs;
    assert Listed(refs, n);
    var j :| 0 <= j < |refs| && refs[j].0 == n;
    var i := PlannedIsItem(t, s, all, known, k, items, j);
    PlainTrackable(p, n);
    ParseTracked(t.codec, p, n);
    assert IsName(t, items[i].0, n);
  }

  lemma Reserved(n: Name)
    requires |n| >= 3 && n[0] == RefNames.REFS
    ensures Plain(n) || n[1] == REMOTES || n[1] == RefNames.NAMESPACES
  {
  }

  /** A name that is not plain is read back only from a longer one, below "remotes" twice. */
  lemma NestedName(t: SigTree, x: Name, n: Name)
    requires |n| > 1 && !Plain(n) && n[1] != RAD && |x| > 2 && x[1] == REMOTES && IsName(t, x, n)
    ensures |x| > 3 && x[3] == REMOTES && |x| == |n| + 4
  {
    var cs := x[3..];
    assert cs != [] && cs[0] != RAD && |cs| > 1;
    var full := [RefNames.REFS] + cs;
    assert full[1] == cs[0];
    Reserved(full);
  }

  /** What is tracked there is not plain, and no shorter. */
  lemma NestedTracked(p: Peer, name: Name)
    requires Trackable(p, name) && |TrackedAs(p, name)| > 3 && TrackedAs(p, name)[3] == REMOTES
    ensures !Plain(name) && |TrackedAs(p, name)| <= |name|
  {
    TrackingShape(p, name);
    assert Tracked(p, name)[3] == name[1];
  }

  lemma {:induction false} LongestUnplain(refs: Refs) returns (j: nat)
    requires !AllPlain(refs)
    ensures j < |refs| && !Plain(refs[j].0)
    ensures forall i | 0 <= i < |refs| && !Plain(refs[i].0) :: |refs[i].0| <= |refs[j].0|
  {
    var n := |refs| - 1;
    if AllPlain(refs[..n]) {
      j := n;
      forall i | 0 <= i < n ensures Plain(refs[i].0) { assert Plain(refs[..n][i].0); }
    } else {
      j := LongestUnplain(refs[..n]);
      forall i | 0 <= i < n && !Plain(refs[i].0) ensures |refs[i].0| <= |refs[j].0| { assert refs[..n][i] == refs[i]; }
      if !Plain(refs[n].0) && |refs[n].0| > |refs[j].0| { j := n; }
    }
  }

  lemma NeverSeen(t: SigTree, s: Store, all: seq<Signed>, known: seq<Name>, k: nat, items: Items, j: nat, i: nat)
    requires Fetched(t, s, all, known, k, items) && j < |all[k].refs| && i < |items|
    requires var refs := all[k].refs;
             !Plain(refs[j].0) && forall l | 0 <= l < |refs| && !Plain(refs[l].0) :: |refs[l].0| <= |refs[j].0|
    ensures !IsName(t, items[i].0, all[k].refs[j].0)
  {
    var p, refs := all[k].peer, all[k].refs;
    var n, x := refs[j].0, items[i].0;
    ItemIs(t, s, all, known, k, items, i);
    Unplain(p, n);
    if IsName(t, x, n) {
      NestedName(t, x, n);
      if Spared(p, x) { NotReserved(x[3]); }
      var l := TipOfSome(p, refs, x);
      NestedTracked(p, refs[l].0);
    }
  }

  lemma Unplain(p: Peer, n: Name)
    requires Trackable(p, n) && !Plain(n)
    ensures |n| >= 3 && (n[1] == REMOTES || n[1] == RefNames.NAMESPACES) && n[1] != RAD
  {
    assert RAD[1] == 'a' && REMOTES[1] == 'e' && RefNames.NAMESPACES[0] == 'n' && RAD[0] == 'r';
  }

  /** After the updates a signed reference outside of "rad" is missing if and only if some signed
      name is below "remotes" or a namespace. */
  lemma MissingIff(t: SigTree, s: Store, all: seq<Signed>, known: seq<Name>, k: nat, items: Items)
    requires Fetched(t, s, all, known, k, items)
    ensures MissingReported(t, items) <==> !AllPlain(all[k].refs)
  {
    var p, refs := all[k].peer, all[k].refs;
    if !AllPlain(refs) {
      var j := LongestUnplain(refs);
      var n := refs[j].0;
      forall i | 0 <= i < |items| ensures !IsName(t, items[i].0, n) { NeverSeen(t, s, all, known, k, items, j, i); }
      var i := PlannedIsItem(t, s, all, known, k, items, j);
      Unplain(p, n);
      assert Reported(t, items, Missing(n));
    }
    if MissingReported(t, items) && AllPlain(refs) {
      var n :| n in t.refs && |n| > 1 && n[1] != RAD && Reported(t, items, Missing(n));
      assert Listed(refs, n);
      PlainFound(t, s, all, known, k, items, n);
    }
  }

  // ---------- Plain names ----------

  /** With plain signed names only, nothing strays and nothing clashes. */
  lemma PlainNeverStrays(t: SigTree, p: Peer, refs: Refs, j: nat, n: Name)
    requires t.id == Some(p) && t.codec.isPeer(p) && AllPlain(refs) && Agree(refs, t.refs)
    ensures AllTrackable(p, refs) && !Stray(t, p, refs, j, n) && !Clash(t, p, refs, j, n)
  {
    forall i | 0 <= i < |refs| ensures Trackable(p, refs[i].0) { PlainTrackable(p, refs[i].0); }
    if j < |refs| {
      var m := refs[j].0;
      PlainTrackable(p, m);
      var x := Tracked(p, m);
      assert x[3] == m[1];
      if m[1] == RAD {
        RadIsRad(t, x);
      } else {
        ParseTracked(t.codec, p, m);
        TipOfListed(p, refs, j);
        var i := TipOfSome(p, refs, x);
        PlainTrackable(p, refs[i].0);
        TrackedInjective(p, refs[i].0, m);
      }
    }
  }

  /** For a peer that signed plain names only, the one thing that can be wrong outside of "rad" is
      an unsigned reference in a category that merely begins with "rad". */
  lemma PlainIsClean(t: SigTree, s: Store, all: seq<Signed>, known: seq<Name>, k: nat, items: Items)
    requires Fetched(t, s, all, known, k, items) && AllPlain(all[k].refs)
    ensures !MissingReported(t, items)
    ensures forall n | n != RadName(SignedRefs) :: !MismatchReported(t, items, n)
    ensures (exists n :: Reported(t, items, Unexpected(n))) <==> exists x :: Stale(t, s, all[k].peer, x)
  {
    var p, refs := all[k].peer, all[k].refs;
    MissingIff(t, s, all, known, k, items);
    UnexpectedIff(t, s, all, known, k, items);
    forall j: nat, n ensures AllTrackable(p, refs) && !Stray(t, p, refs, j, n) && !Clash(t, p, refs, j, n) {
      PlainNeverStrays(t, p, refs, j, n);
    }
    forall n | n != RadName(SignedRefs) ensures !MismatchReported(t, items, n) {
      MismatchedIff(t, s, all, known, k, items, n);
    }
  }

  /** A signed name below another peer strays: it is tracked below the one who signed it, and read
      back as its own part, which is not signed. So a peer that signs "refs/remotes/q/heads/a" and
      not "refs/heads/a" has the latter reported as unexpected and the former as missing. */
  lemma RerootedStrays(t: SigTree, s: Store, all: seq<Signed>, known: seq<Name>, k: nat, items: Items, j: nat, q: Peer,
                       n: Name)
    requires Fetched(t, s, all, known, k, items) && j < |all[k].refs|
    requires Plain(n) && n[1] != RAD && n !in t.refs && all[k].refs[j].0 == Tracked(q, n)
    ensures Reported(t, items, Unexpected(n)) && MissingReported(t, items)
  {
    var p := all[k].peer;
    assert Tracked(q, n)[0] == RefNames.REFS;
    TrackingReroots(p, q, n);
    ParseTracked(t.codec, p, n);
    assert Stray(t, p, all[k].refs, j, n);
    StrayReported(t, s, all, known, k, items, j, n);
    assert !Plain(all[k].refs[j].0);
    MissingIff(t, s, all, known, k, items);
  }
}
