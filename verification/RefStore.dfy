/** Names of references below a peer, how they are parsed, and a store of references
    (link-replication/src/refs and refdb/mem.rs). */
module RefStore {
  import opened Prelude
  import opened Path
  import RefNames

  /** A name as its components, and a peer as the component that names it. */
  type Name = seq<string>
  type Peer = string
  type Oid = nat

  const RAD := "rad"
  const REMOTES := "remotes"

  // ---------- Remote tracking names ----------

  function StripNamespaces(name: Name): (r: Name)
    ensures |r| <= |name|
  {
    if RefNames.NamespacedComponents(name) then StripNamespaces(name[3..]) else name
  }

  /** The name below a peer.  The original aborts where it takes too few components for granted. */
  function RemoteTracking(peer: Peer, name: Name): Outcome<Option<Name>>
    decreases |name|
  {
    if |name| < 3 then Panicked
    else if name[1] == REMOTES then
      Returned(if |name| < 5 then None else Some([RefNames.REFS, REMOTES, peer] + name[3..]))
    else if name[1] == RefNames.NAMESPACES then
      if RefNames.NamespacedComponents(name) then RemoteTracking(peer, StripNamespaces(name[3..])) else Panicked
    else Returned(Some(Tracked(peer, name)))
  }

  /** The name below a peer of any name: nothing if it is not qualified, that is, if it has less
      than three components or another first one than "refs". */
  function Tracking(peer: Peer, name: Name): Outcome<Option<Name>> {
    if |name| < 3 || name[0] != RefNames.REFS then Returned(None) else RemoteTracking(peer, name)
  }

  predicate Trackable(peer: Peer, name: Name) {
    Tracking(peer, name).Returned? && Tracking(peer, name).value.Some?
  }

  function TrackedAs(peer: Peer, name: Name): Name
    requires Trackable(peer, name)
  {
    Tracking(peer, name).value.value
  }

  function Tracked(peer: Peer, name: Name): Name
    requires |name| >= 1
  {
    [RefNames.REFS, REMOTES, peer] + name[1..]
  }

  /** A qualified name that is neither below a peer nor below a namespace. */
  predicate Plain(name: Name) {
    |name| >= 3 && name[0] == RefNames.REFS && name[1] != REMOTES && name[1] != RefNames.NAMESPACES
  }

  lemma {:induction false} RemoteTrackingShape(peer: Peer, name: Name)
    requires RemoteTracking(peer, name).Returned? && RemoteTracking(peer, name).value.Some?
    ensures var t := RemoteTracking(peer, name).value.value;
            && |t| >= 5 && t[0] == RefNames.REFS && t[1] == REMOTES && t[2] == peer
            && (name[1] == REMOTES || name[1] == RefNames.NAMESPACES ==> |t| <= |name|)
    decreases |name|
  {
    if name[1] == RefNames.NAMESPACES { RemoteTrackingShape(peer, StripNamespaces(name[3..])); }
  }

  /** A tracking name is below the peer and has a category; that of a plain name is made of its
      components, and that of another is no longer than the name. */
  lemma TrackingShape(peer: Peer, name: Name)
    requires Trackable(peer, name)
    ensures var t := TrackedAs(peer, name);
            && |t| >= 5 && t[0] == RefNames.REFS && t[1] == REMOTES && t[2] == peer
            && (Plain(name) ==> t == Tracked(peer, name)) && (!Plain(name) ==> |t| <= |name|)
  {
    RemoteTrackingShape(peer, name);
  }

  lemma PlainTrackable(peer: Peer, name: Name)
    requires Plain(name)
    ensures Trackable(peer, name) && TrackedAs(peer, name) == Tracked(peer, name)
  {
  }

  lemma TrackedInjective(peer: Peer, a: Name, b: Name)
    requires Plain(a) && Plain(b) && Tracked(peer, a) == Tracked(peer, b)
    ensures a == b
  {
    assert Tracked(peer, a)[3..] == a[1..] && Tracked(peer, b)[3..] == b[1..];
    assert a == [a[0]] + a[1..] && b == [b[0]] + b[1..];
  }

  /** A name below one peer is moved below the other. */
  lemma TrackingReroots(p: Peer, q: Peer, name: Name)
    requires Plain(name)
    ensures RemoteTracking(p, Tracked(q, name)) == Returned(Some(Tracked(p, name)))
  {
    assert Tracked(q, name)[3..] == name[1..];
  }

  function Namespaced(nss: seq<string>, name: Name): Name {
    if nss == [] then name else [RefNames.REFS, RefNames.NAMESPACES, nss[0]] + Namespaced(nss[1..], name)
  }

  lemma {:induction false} NamespacesStripped(nss: seq<string>, name: Name)
    requires Plain(name)
    ensures StripNamespaces(Namespaced(nss, name)) == name
    ensures |Namespaced(nss, name)| >= 3 && Namespaced(nss, name)[0] == RefNames.REFS
    ensures nss != [] ==> RefNames.NamespacedComponents(Namespaced(nss, name))
  {
    if nss != [] {
      NamespacesStripped(nss[1..], name);
      assert Namespaced(nss, name)[3..] == Namespaced(nss[1..], name);
    }
  }

  /** Namespaces, however deep, make no difference. */
  lemma TrackingIgnoresNamespaces(p: Peer, nss: seq<string>, name: Name)
    requires Plain(name)
    ensures RemoteTracking(p, Namespaced(nss, name)) == RemoteTracking(p, name)
  {
    if nss != [] {
      NamespacesStripped(nss, name);
      NamespacesStripped(nss[1..], name);
      assert Namespaced(nss, name)[3..] == Namespaced(nss[1..], name);
    }
  }

  // ---------- Prefixes ----------

  /** The name begins, as a string, with "refs/remotes/" and the peer. */
  predicate Scanned(peer: Peer, name: Name) {
    |name| > 2 && name[0] == RefNames.REFS && name[1] == REMOTES && peer <= name[2]
  }

  /** The name begins, as a string, with "refs/remotes/", the peer and "/rad". */
  predicate Spared(peer: Peer, name: Name) {
    |name| > 3 && name[0] == RefNames.REFS && name[1] == REMOTES && name[2] == peer && RAD <= name[3]
  }

  /** Both are tests of string prefixes. */
  lemma ScannedIsPrefix(peer: Peer, name: Name)
    requires name != [] && Free('/', peer) && forall i | 0 <= i < |name| :: Free('/', name[i])
    ensures Scanned(peer, name) <==> Join('/', [RefNames.REFS, REMOTES] + [peer]) <= Join('/', name)
  {
    var base := [RefNames.REFS, REMOTES];
    LiteralsFree();
    PrefixOfJoin('/', base, peer, name);
    if |name| > 2 { TakeTwo(name, RefNames.REFS, REMOTES); }
  }

  lemma SparedIsPrefix(peer: Peer, name: Name)
    requires name != [] && Free('/', peer) && forall i | 0 <= i < |name| :: Free('/', name[i])
    ensures Spared(peer, name) <==> Join('/', [RefNames.REFS, REMOTES, peer] + [RAD]) <= Join('/', name)
  {
    var base := [RefNames.REFS, REMOTES, peer];
    LiteralsFree();
    PrefixOfJoin('/', base, RAD, name);
    if |name| > 3 { TakeThree(name, RefNames.REFS, REMOTES, peer); }
  }

  lemma TakeTwo<T>(s: seq<T>, a: T, b: T)
    requires |s| >= 2
    ensures s[..2] == [a, b] <==> s[0] == a && s[1] == b
  {
    assert s[..2] == [s[0], s[1]];
    assert [s[0], s[1]][0] == s[0] && [s[0], s[1]][1] == s[1];
    assert [a, b][0] == a && [a, b][1] == b;
  }

  lemma TakeThree<T>(s: seq<T>, a: T, b: T, c: T)
    requires |s| >= 3
    ensures s[..3] == [a, b, c] <==> s[0] == a && s[1] == b && s[2] == c
  {
    var t := [a, b, c];
    assert s[..3][0] == s[0] && s[..3][1] == s[1] && s[..3][2] == s[2];
    assert t[0] == a && t[1] == b && t[2] == c;
    assert s[0] == a && s[1] == b && s[2] == c ==> s[..3] == t;
  }

  lemma LiteralsFree()
    ensures Free('/', RefNames.REFS) && Free('/', REMOTES) && Free('/', RAD)
  {
  }

  // ---------- Parsing ----------

  datatype Rad = Id | Self | SignedRefs | Ids(urn: string)

  datatype Inner = RadRef(rad: Rad) | OwnedRef(name: Name)

  datatype Parsed = Parsed(remote: Option<Peer>, inner: Inner)

  /** Which components name a peer, and which an identity. */
  datatype Codec = Codec(isPeer: string -> bool, isUrn: string -> bool)

  function ParseRad(codec: Codec, cs: seq<string>): Option<Inner> {
    if |cs| == 1 && cs[0] == "id" then Some(RadRef(Id))
    else if |cs| == 1 && cs[0] == "self" then Some(RadRef(Self))
    else if |cs| == 1 && cs[0] == "signed_refs" then Some(RadRef(SignedRefs))
    else if |cs| == 2 && cs[0] == "ids" && codec.isUrn(cs[1]) then Some(RadRef(Ids(cs[1])))
    else None
  }

  function Owned(name: Name): Option<Name>
    requires |name| >= 3
  {
    if name[1] == RefNames.NAMESPACES then None
    else if name[1] == REMOTES then if |name| < 5 then None else Some([RefNames.REFS] + name[3..])
    else Some(name)
  }

  function ParseInner(codec: Codec, cs: seq<string>): Option<Inner> {
    if cs == [] then None
    else if cs[0] == RAD then ParseRad(codec, cs[1..])
    else if |cs| == 1 then None
    else match Owned([RefNames.REFS] + cs)
      case None => None
      case Some(name) => Some(OwnedRef(name))
  }

  function Parse(codec: Codec, name: Name): Option<Parsed> {
    if |name| < 3 || name[1] == RefNames.NAMESPACES then None
    else if name[1] == REMOTES then
      if !codec.isPeer(name[2]) then None
      else match ParseInner(codec, name[3..])
        case None => None
        case Some(inner) => Some(Parsed(Some(name[2]), inner))
    else match ParseInner(codec, name[1..])
      case None => None
      case Some(inner) => Some(Parsed(None, inner))
  }

  function RadName(rad: Rad): Name {
    match rad
    case Id => [RefNames.REFS, RAD, "id"]
    case Self => [RefNames.REFS, RAD, "self"]
    case SignedRefs => [RefNames.REFS, RAD, "signed_refs"]
    case Ids(urn) => [RefNames.REFS, RAD, "ids", urn]
  }

  function OwnName(inner: Inner): Name {
    match inner
    case RadRef(rad) => RadName(rad)
    case OwnedRef(name) => name
  }

  /** Parsing reads back what tracking made, unless it is a rad name. */
  lemma ParseTracked(codec: Codec, peer: Peer, name: Name)
    requires Plain(name) && name[1] != RAD && codec.isPeer(peer)
    ensures Parse(codec, Tracked(peer, name)) == Some(Parsed(Some(peer), OwnedRef(name)))
  {
    var t := Tracked(peer, name);
    assert t[3..] == name[1..];
    assert [RefNames.REFS] + name[1..] == name;
  }

  /** A rad name is parsed exactly from the name it stands for. */
  lemma ParseRadIff(codec: Codec, p: Peer, x: Name, rad: Rad)
    requires |x| > 3 && x[0] == RefNames.REFS && x[1] == REMOTES
    ensures Parse(codec, x) == Some(Parsed(Some(p), RadRef(rad)))
            <==> codec.isPeer(p) && (rad.Ids? ==> codec.isUrn(rad.urn)) && x == Tracked(p, RadName(rad))
  {
    var cs := x[4..];
    assert x[3..][1..] == cs && x[3..][0] == x[3];
    assert x == [x[0], x[1], x[2], x[3]] + cs;
    RadNames(rad);
    RadParts(codec, cs, rad);
    if x == Tracked(p, RadName(rad)) { assert cs == RadName(rad)[2..]; }
    if x[3] == RAD && cs == RadName(rad)[2..] && x[2] == p {
      assert Tracked(p, RadName(rad)) == [RefNames.REFS, REMOTES, p, RAD] + RadName(rad)[2..];
    }
  }

  lemma RadNames(rad: Rad)
    ensures |RadName(rad)| >= 3 && RadName(rad)[0] == RefNames.REFS && RadName(rad)[1] == RAD
  {
  }

  lemma RadParts(codec: Codec, cs: seq<string>, rad: Rad)
    ensures ParseRad(codec, cs) == Some(RadRef(rad)) <==> cs == RadName(rad)[2..] && (rad.Ids? ==> codec.isUrn(rad.urn))
  {
    match rad {
      case Id => assert RadName(rad)[2..] == ["id"];
      case Self => assert RadName(rad)[2..] == ["self"];
      case SignedRefs => assert RadName(rad)[2..] == ["signed_refs"];
      case Ids(urn) => assert RadName(rad)[2..] == ["ids", urn];
    }
  }

  /** A name that is not below a peer is parsed as it is. */
  lemma ParsePlain(codec: Codec, name: Name)
    requires Plain(name) && name[1] != RAD
    ensures Parse(codec, name) == Some(Parsed(None, OwnedRef(name)))
  {
    assert [RefNames.REFS] + name[1..] == name;
  }

  // ---------- The store ----------

  /** A symbolic reference is stored with the object its target points to. */
  datatype Update =
    | Direct(name: Name, target: Oid)
    | Symbolic(name: Name, symbol: Name, target: Oid)
    | Prune(name: Name)

  type Store = map<Name, Oid>

  function ApplyOne(s: Store, u: Update): Store {
    match u
    case Direct(name, target) => s[name := target]
    case Symbolic(name, _, target) => s[name := target]
    case Prune(name) => s - {name}
  }

  function Apply(s: Store, us: seq<Update>): Store {
    if us == [] then s else ApplyOne(Apply(s, us[..|us| - 1]), us[|us| - 1])
  }

  class Mem {
    var refs: Store

    constructor (s: Store)
      ensures refs == s
    {
      refs := s;
    }

    method Update(updates: seq<Update>)
      modifies this
      ensures refs == Apply(old(refs), updates)
    {
      ghost var s := refs;
      for i := 0 to |updates|
        invariant refs == Apply(s, updates[..i])
      {
        assert updates[..i + 1][..i] == updates[..i];
        match updates[i] {
          case Direct(name, target) => refs := refs[name := target];
          case Symbolic(name, _, target) => refs := refs[name := target];
          case Prune(name) =>
            if name in refs { refs := refs - {name}; }
            assert refs == ApplyOne(Apply(s, updates[..i]), updates[i]);
        }
      }
      assert updates[..|updates|] == updates;
    }
  }
}
