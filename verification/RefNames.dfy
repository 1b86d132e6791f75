/** Operations on reference names (git-ref-format/core/src/name.rs and deriv.rs). */
module RefNames {
  import opened Prelude
  import opened Path
  import opened RefFormat

  const PLAIN := Options(true, false)

  function Components(s: string): (cs: seq<string>)
    ensures cs != []
  {
    Split('/', s)
  }

  /** A component of a name without patterns. */
  ghost predicate Plain(c: string) {
    Passes(c) && Free('/', c) && Stars(c) == 0
  }

  ghost predicate AllPlain(cs: seq<string>) {
    forall i {:trigger Plain(cs[i])} | 0 <= i < |cs| :: Plain(cs[i])
  }

  /** A name that passes the check. */
  ghost predicate Valid(s: string) {
    Accepted(PLAIN, s)
  }

  /** Valid, or the at sign on its own, which only a component may be. */
  ghost predicate NearlyValid(s: string) {
    AllPlain(Components(s))
  }

  lemma {:induction false} NoStars(cs: seq<string>)
    ensures AllStars(cs) == 0 <==> forall i | 0 <= i < |cs| :: Stars(cs[i]) == 0
  {
    if cs != [] {
      var rest := cs[..|cs| - 1];
      NoStars(rest);
      if forall i | 0 <= i < |rest| :: Stars(rest[i]) == 0 {
        forall i | 0 <= i < |cs| - 1 ensures Stars(cs[i]) == 0 { assert Stars(rest[i]) == 0; }
      }
    }
  }

  /** A name is valid exactly when its components are plain and it is not the lone at sign. */
  lemma ValidIff(s: string)
    ensures Valid(s) <==> NearlyValid(s) && s != "@"
  {
    var cs := Components(s);
    StarsSplit('/', s);
    NoStars(cs);
    if AllPass(cs) && Stars(s) == 0 {
      forall i | 0 <= i < |cs| ensures Plain(cs[i]) { assert Passes(cs[i]) && Stars(cs[i]) == 0; }
    }
    if AllPlain(cs) {
      forall i | 0 <= i < |cs| ensures Passes(cs[i]) && Stars(cs[i]) == 0 { assert Plain(cs[i]); }
    }
  }

  // ---------- Joining ----------

  function Joined(a: string, b: string): string {
    a + ['/'] + b
  }

  lemma JoinedComponents(a: string, b: string)
    ensures Components(Joined(a, b)) == Components(a) + Components(b)
  {
    SplitConcat('/', a, b);
  }

  /** Joining gives a valid name, even if the parts are lone at signs. */
  lemma JoinedValid(a: string, b: string)
    requires NearlyValid(a) && NearlyValid(b)
    ensures Valid(Joined(a, b))
  {
    JoinedComponents(a, b);
    PlainConcat(Components(a), Components(b));
    assert Joined(a, b)[|a|] == '/';
    ValidIff(Joined(a, b));
  }

  lemma PlainConcat(a: seq<string>, b: seq<string>)
    requires AllPlain(a) && AllPlain(b)
    ensures AllPlain(a + b)
  {
    var c := a + b;
    forall i | 0 <= i < |c| ensures Plain(c[i]) { assert if i < |a| then Plain(a[i]) else Plain(b[i - |a|]); }
  }

  lemma PlainSlice(cs: seq<string>, lo: nat, hi: nat)
    requires lo <= hi <= |cs| && AllPlain(cs)
    ensures AllPlain(cs[lo..hi])
  {
    forall i | 0 <= i < hi - lo ensures Plain(cs[lo..hi][i]) { assert Plain(cs[lo + i]); }
  }

  // ---------- Stripping a prefix ----------

  function StripPrefix(s: string, base: string): Option<string> {
    if base <= s && |s| > |base| && s[|base|] == '/' then Some(s[|base| + 1..]) else None
  }

  /** Stripping is exactly the inverse of joining. */
  lemma StripPrefixIff(s: string, base: string, r: string)
    ensures StripPrefix(s, base) == Some(r) <==> s == Joined(base, r)
  {
    if StripPrefix(s, base) == Some(r) {
      assert s == base + ['/'] + s[|base| + 1..];
    }
    if s == Joined(base, r) {
      assert s[|base| + 1..] == r;
    }
  }

  /** What is left of a valid name is valid, or the lone at sign. */
  lemma StripPrefixValid(s: string, base: string)
    requires Valid(s) && StripPrefix(s, base).Some?
    ensures var r := StripPrefix(s, base).value; NearlyValid(r) && (Valid(r) <==> r != "@")
  {
    var r := StripPrefix(s, base).value;
    StripPrefixIff(s, base, r);
    JoinedComponents(base, r);
    ValidIff(s);
    PlainSlice(Components(s), |Components(base)|, |Components(s)|);
    assert Components(s)[|Components(base)|..] == Components(r);
    ValidIff(r);
  }

  // ---------- Names that are changed in place ----------

  /** Where the last slash stands. */
  function LastSlash(s: string): (r: Option<nat>)
    ensures r.None? <==> Free('/', s)
    ensures r.Some? ==> r.value < |s| && s[r.value] == '/' && Free('/', s[r.value + 1..])
  {
    if s == [] then None
    else if s[|s| - 1] == '/' then assert s[|s|..] == []; Some(|s| - 1)
    else
      var r := LastSlash(s[..|s| - 1]);
      assert r.Some? ==> s[r.value + 1..] == s[..|s| - 1][r.value + 1..] + [s[|s| - 1]];
      assert r.None? ==> s == s[..|s| - 1] + [s[|s| - 1]];
      r
  }

  class RefString {
    var name: string

    constructor (s: string)
      ensures name == s
    {
      name := s;
    }

    /** Collects names, with a slash after each, and drops the last slash. */
    constructor FromIter(names: seq<string>)
      requires names != []
      ensures name == Join('/', names)
    {
      var buf: string := [];
      for i := 0 to |names|
        invariant buf == if i == 0 then [] else Join('/', names[..i]) + ['/']
      {
        Snoc('/', names, i);
        buf := buf + names[i] + ['/'];
      }
      assert names[..|names|] == names;
      name := buf[..|buf| - 1];
    }

    method Push(other: string)
      modifies this
      ensures name == Joined(old(name), other)
      ensures Components(name) == old(Components(name)) + Components(other)
      ensures old(NearlyValid(name)) && NearlyValid(other) ==> Valid(name)
    {
      JoinedComponents(name, other);
      if NearlyValid(name) && NearlyValid(other) { JoinedValid(name, other); }
      name := name + ['/'] + other;
    }

    /** Drops the last component, unless it is the only one. */
    method Pop() returns (popped: bool)
      modifies this
      ensures popped <==> |old(Components(name))| > 1
      ensures Components(name)
              == if popped then old(Components(name))[..|old(Components(name))| - 1] else old(Components(name))
      ensures old(NearlyValid(name)) ==> NearlyValid(name)
    {
      var slash := LastSlash(name);
      if slash.None? { return false; }
      var i := slash.value;
      var cs := Components(name);
      assert name == Joined(name[..i], name[i + 1..]);
      JoinedComponents(name[..i], name[i + 1..]);
      SplitFree('/', name[i + 1..]);
      assert cs[..|cs| - 1] == Components(name[..i]);
      if NearlyValid(name) { PlainSlice(cs, 0, |cs| - 1); }
      name := name[..i];
      return true;
    }

    method Extend(names: seq<string>)
      modifies this
      ensures name == Join('/', [old(name)] + names)
    {
      ghost var all := [name] + names;
      for i := 0 to |names|
        invariant name == Join('/', all[..i + 1])
      {
        Snoc('/', all, i + 1);
        Push(names[i]);
      }
      assert all[..|names| + 1] == all;
    }
  }

  /** Joining one more. */
  lemma {:induction false} Snoc(sep: char, cs: seq<string>, i: nat)
    requires i < |cs|
    ensures Join(sep, cs[..i + 1]) == if i == 0 then cs[0] else Join(sep, cs[..i]) + [sep] + cs[i]
  {
    if i > 0 {
      var rest := cs[1..];
      Snoc(sep, rest, i - 1);
      assert cs[..i + 1] == [cs[0]] + rest[..i];
      JoinCons(sep, cs[0], rest[..i]);
      if i > 1 {
        assert cs[..i] == [cs[0]] + rest[..i - 1];
        JoinCons(sep, cs[0], rest[..i - 1]);
        Path.Associative(cs[0] + [sep], Join(sep, rest[..i - 1]), [sep] + cs[i]);
        Path.Associative(cs[0] + [sep] + Join(sep, rest[..i - 1]), [sep], cs[i]);
        Path.Associative(Join(sep, rest[..i - 1]), [sep], cs[i]);
      } else {
        assert cs[..1] == [cs[0]];
      }
    }
  }

  /** Pushing one component and popping gives the name back. */
  method PushPop(r: RefString, c: string) returns (popped: bool)
    requires Free('/', c)
    modifies r
    ensures popped && r.name == old(r.name)
  {
    ghost var before := r.name;
    r.Push(c);
    SplitFree('/', c);
    popped := r.Pop();
    assert Components(r.name) == Components(before);
    SplitInjective('/', r.name, before);
  }

  // ---------- Collecting ----------

  ghost function AllComponents(names: seq<string>): seq<string> {
    if names == [] then [] else Components(names[0]) + AllComponents(names[1..])
  }

  /** A collected name has the components of all the names, in order. */
  lemma {:induction false} CollectComponents(names: seq<string>)
    requires names != []
    ensures Components(Join('/', names)) == AllComponents(names)
  {
    if |names| == 1 {
      assert AllComponents(names[1..]) == [];
      assert Components(names[0]) + [] == Components(names[0]);
    } else {
      CollectComponents(names[1..]);
      JoinedComponents(names[0], Join('/', names[1..]));
    }
  }

  lemma {:induction false} AllComponentsPlain(names: seq<string>)
    requires forall i | 0 <= i < |names| :: NearlyValid(names[i])
    ensures AllPlain(AllComponents(names))
  {
    if names != [] {
      assert NearlyValid(names[0]);
      AllComponentsPlain(names[1..]);
      PlainConcat(Components(names[0]), AllComponents(names[1..]));
    }
  }

  /** Collected names are valid, or the lone at sign. */
  lemma CollectValid(names: seq<string>)
    requires names != [] && forall i | 0 <= i < |names| :: NearlyValid(names[i])
    ensures NearlyValid(Join('/', names)) && (Valid(Join('/', names)) <==> Join('/', names) != "@")
  {
    CollectComponents(names);
    AllComponentsPlain(names);
    ValidIff(Join('/', names));
  }

  /** Collecting the components of a name gives the name back. */
  lemma CollectIdentity(s: string)
    ensures Join('/', Components(s)) == s
  {
    JoinSplit('/', s);
  }

  // ---------- Qualified and namespaced names ----------

  const REFS := "refs"
  const NAMESPACES := "namespaces"

  /** Begins with "refs" and has at least three components. */
  predicate IsQualified(s: string) {
    var cs := Components(s);
    |cs| >= 3 && cs[0] == REFS
  }

  predicate NamespacedComponents(cs: seq<string>) {
    |cs| >= 4 && cs[0] == REFS && cs[1] == NAMESPACES && cs[3] == REFS
  }

  predicate IsNamespaced(s: string) {
    NamespacedComponents(Components(s))
  }

  function AddNamespace(q: string, ns: string): string {
    Join('/', [REFS, NAMESPACES, ns] + Components(q))
  }

  function Namespace(s: string): string
    requires IsNamespaced(s)
  {
    Components(s)[2]
  }

  function StripNamespace(s: string): string
    requires IsNamespaced(s)
  {
    NamespacedPrefix(s);
    Join('/', Components(StripPrefix(s, "refs/namespaces").value)[1..])
  }

  lemma LiteralsFree()
    ensures Free('/', REFS) && Free('/', NAMESPACES)
  {
  }

  lemma NamespacedPrefix(s: string)
    requires IsNamespaced(s)
    ensures StripPrefix(s, "refs/namespaces").Some?
    ensures Components(StripPrefix(s, "refs/namespaces").value) == Components(s)[2..]
  {
    var cs := Components(s);
    var rest := Join('/', cs[2..]);
    JoinSplit('/', s);
    Uncons2(cs);
    JoinCons('/', cs[1], cs[2..]);
    JoinCons('/', cs[0], [cs[1]] + cs[2..]);
    GluePrefix(rest);
    StripPrefixIff(s, "refs/namespaces", rest);
    SplitJoin('/', cs[2..]);
  }

  lemma GluePrefix(rest: string)
    ensures REFS + ['/'] + (NAMESPACES + ['/'] + rest) == "refs/namespaces" + ['/'] + rest
  {
    assert "refs" + ['/'] + "namespaces" == "refs/namespaces";
    Path.Associative("refs" + ['/'], "namespaces" + ['/'], rest);
    Path.Associative("refs" + ['/'], "namespaces", ['/']);
  }

  lemma Uncons2<T>(s: seq<T>)
    requires |s| > 1
    ensures s == [s[0]] + ([s[1]] + s[2..])
  {
  }

  /** Adding a namespace puts three components in front; stripping one takes them away. */
  lemma AddedComponents(q: string, ns: string)
    requires Free('/', ns)
    ensures Components(AddNamespace(q, ns)) == [REFS, NAMESPACES, ns] + Components(q)
  {
    var cs := [REFS, NAMESPACES, ns] + Components(q);
    LiteralsFree();
    forall i | 0 <= i < |cs| ensures Free('/', cs[i]) { if i >= 3 { assert cs[i] == Components(q)[i - 3]; } }
    SplitJoin('/', cs);
  }

  lemma StrippedComponents(s: string)
    requires IsNamespaced(s)
    ensures Components(StripNamespace(s)) == Components(s)[3..]
  {
    var cs := Components(s);
    NamespacedPrefix(s);
    assert cs[2..][1..] == cs[3..];
    SplitJoin('/', cs[3..]);
  }

  /** Stripping undoes adding, and the namespace can be read back. */
  lemma AddStrip(q: string, ns: string)
    requires IsQualified(q) && Free('/', ns)
    ensures IsNamespaced(AddNamespace(q, ns)) && Namespace(AddNamespace(q, ns)) == ns
    ensures StripNamespace(AddNamespace(q, ns)) == q && IsQualified(AddNamespace(q, ns))
  {
    var s := AddNamespace(q, ns);
    AddedComponents(q, ns);
    StrippedComponents(s);
    assert Components(s)[3..] == Components(q);
    SplitInjective('/', StripNamespace(s), q);
  }

  /** Adding and stripping keep names valid. */
  lemma NamespacingValid(q: string, ns: string)
    requires Valid(q) && NearlyValid(ns) && Free('/', ns)
    ensures Valid(AddNamespace(q, ns))
  {
    var s := AddNamespace(q, ns);
    AddedComponents(q, ns);
    ValidIff(q);
    SplitFree('/', ns);
    assert Plain(Components(ns)[0]);
    LiteralsPlain();
    PlainConcat([REFS, NAMESPACES, ns], Components(q));
    ManyNotAt(s);
    ValidIff(s);
  }

  lemma LettersPlain(s: string)
    requires s != [] && forall i | 0 <= i < |s| :: 'a' <= s[i] <= 'z'
    ensures Plain(s)
  {
    StarFree(s);
    assert |s| >= 5 ==> s[|s| - 5..][0] == s[|s| - 5];
  }

  lemma LiteralsPlain()
    ensures Plain(REFS) && Plain(NAMESPACES)
  {
    LettersPlain(REFS);
    LettersPlain(NAMESPACES);
  }

  lemma {:induction false} StarFree(s: string)
    requires forall i | 0 <= i < |s| :: s[i] != '*'
    ensures Stars(s) == 0
  {
    if s != [] { StarFree(s[..|s| - 1]); }
  }

  lemma ManyNotAt(s: string)
    requires |Components(s)| > 1
    ensures s != "@"
  {
    if |s| == 1 && s[0] == '@' { SplitFree('/', s); }
  }

  lemma StrippingValid(s: string)
    requires Valid(s) && IsNamespaced(s)
    ensures Valid(StripNamespace(s)) && (IsQualified(StripNamespace(s)) <==> |Components(s)| >= 6)
  {
    var r := StripNamespace(s);
    StrippedComponents(s);
    ValidIff(s);
    PlainSlice(Components(s), 3, |Components(s)|);
    assert Components(s)[3..|Components(s)|] == Components(s)[3..];
    if |s| > 0 && r == "@" { SplitFree('/', r); }
    ValidIff(r);
  }

  /** So the result need not be qualified: what is left of this name is "refs". */
  lemma StrippedUnqualified()
    ensures var s := Join('/', [REFS, NAMESPACES, "a", REFS]);
            Valid(s) && IsNamespaced(s) && StripNamespace(s) == REFS && !IsQualified(StripNamespace(s))
  {
    var cs := [REFS, NAMESPACES, "a", REFS];
    var s := Join('/', cs);
    LiteralsPlain();
    LettersPlain("a");
    assert AllPlain(cs);
    SplitJoin('/', cs);
    ManyNotAt(s);
    ValidIff(s);
    StrippedComponents(s);
    assert cs[3..] == [REFS];
    StrippingValid(s);
  }

  /** A qualified name from its components, "refs" left out. */
  method FromComponents(a: string, b: string, tail: seq<string>) returns (r: RefString)
    requires Plain(a) && Plain(b) && AllPlain(tail)
    ensures Components(r.name) == [REFS, a, b] + tail && IsQualified(r.name) && Valid(r.name)
  {
    r := new RefString(REFS);
    r.Push(a);
    r.Push(b);
    ghost var base := r.name;
    r.Extend(tail);
    ghost var all := [REFS, a, b] + tail;
    assert r.name == Join('/', all) by {
      assert base == Joined(Joined(REFS, a), b);
      JoinThree(REFS, a, b, tail);
    }
    LiteralsPlain();
    PlainConcat([REFS, a, b], tail);
    PlainSplit(all);
    ManyNotAt(r.name);
    ValidIff(r.name);
  }

  lemma PlainSplit(cs: seq<string>)
    requires cs != [] && AllPlain(cs)
    ensures Components(Join('/', cs)) == cs
  {
    forall i | 0 <= i < |cs| ensures Free('/', cs[i]) { assert Plain(cs[i]); }
    SplitJoin('/', cs);
  }

  lemma JoinThree(a: string, b: string, c: string, tail: seq<string>)
    ensures Join('/', [Joined(Joined(a, b), c)] + tail) == Join('/', [a, b, c] + tail)
  {
    var rest := [c] + tail;
    assert [a, b, c] + tail == [a] + ([b] + rest);
    JoinCons('/', a, [b] + rest);
    JoinCons('/', b, rest);
    if tail == [] {
      assert rest == [c] && [Joined(Joined(a, b), c)] + tail == [Joined(Joined(a, b), c)];
      Path.Associative(a + ['/'], b + ['/'], c);
      Path.Associative(a + ['/'], b, ['/']);
    } else {
      JoinCons('/', c, tail);
      JoinCons('/', Joined(Joined(a, b), c), tail);
      ManyGroups(a + ['/'], b, c, Join('/', tail));
    }
  }

  lemma ManyGroups(a: string, b: string, c: string, d: string)
    ensures (a + b + ['/'] + c) + ['/'] + d == a + (b + ['/'] + (c + ['/'] + d))
  {
  }

  // ---------- Nested namespaces ----------

  function StripAll(s: string): string
    decreases |Components(s)|
  {
    if IsNamespaced(s) then
      StrippedComponents(s);
      StripAll(StripNamespace(s))
    else s
  }

  /** The loop that strips while there is a namespace to strip. */
  method StripNamespaceRecursive(s: string) returns (r: string)
    requires IsNamespaced(s)
    ensures r == StripAll(s) && !IsNamespaced(r) && |Components(r)| < |Components(s)|
  {
    r := StripNamespace(s);
    StrippedComponents(s);
    while IsNamespaced(r)
      invariant StripAll(r) == StripAll(s) && |Components(r)| < |Components(s)|
      decreases |Components(r)|
    {
      StrippedComponents(r);
      r := StripNamespace(r);
    }
  }

  /** `q` below the namespaces `nss`, the first one outermost. */
  function AddAll(nss: seq<string>, q: string): string {
    if nss == [] then q else AddNamespace(AddAll(nss[1..], q), nss[0])
  }

  lemma {:induction false} AddAllQualified(nss: seq<string>, q: string)
    requires IsQualified(q) && forall i | 0 <= i < |nss| :: Free('/', nss[i])
    ensures IsQualified(AddAll(nss, q)) && (nss != [] ==> IsNamespaced(AddAll(nss, q)))
  {
    if nss != [] {
      AddAllQualified(nss[1..], q);
      AddStrip(AddAll(nss[1..], q), nss[0]);
    }
  }

  /** Recursive stripping undoes any nesting of namespaces. */
  lemma {:induction false} StripAllUndoes(nss: seq<string>, q: string)
    requires IsQualified(q) && !IsNamespaced(q) && forall i | 0 <= i < |nss| :: Free('/', nss[i])
    ensures StripAll(AddAll(nss, q)) == q
  {
    if nss != [] {
      AddAllQualified(nss[1..], q);
      AddStrip(AddAll(nss[1..], q), nss[0]);
      StripAllUndoes(nss[1..], q);
    }
  }
}
