/** The check of a reference name (git-ref-format/core/src/check.rs), against the rules of the
    git-check-ref-format manual page. */
module RefFormat {
  import opened Prelude
  import opened Path

  datatype Options = Options(allowOnelevel: bool, allowPattern: bool)

  datatype RefError =
    | Empty | LoneAt | Slash | DotLock | DotDot | AtOpenBrace | InvalidChar(c: char)
    | StartsDot | EndsDot | Control | Space | Pattern | OneLevel

  // ---------- The rules ----------

  /** Characters that must not occur anywhere. */
  predicate Forbidden(c: char) {
    c == '\0' || c == '\\' || c == '~' || c == '^' || c == ':' || c == '?' || c == '['
  }

  predicate IsControl(c: char) {
    c < ' ' || c == '\U{7f}'
  }

  predicate CharOk(c: char) {
    !Forbidden(c) && !IsControl(c) && c != ' '
  }

  predicate EndsWithLock(x: string) {
    |x| >= 5 && x[|x| - 5..] == ".lock"
  }

  /** `a` directly before `b`. */
  ghost predicate Adjacent(x: string, a: char, b: char) {
    exists i :: 0 <= i < |x| - 1 && x[i] == a && x[i + 1] == b
  }

  ghost predicate AllChars(x: string) {
    forall i | 0 <= i < |x| :: CharOk(x[i])
  }

  function Stars(s: string): nat {
    if s == [] then 0 else Stars(s[..|s| - 1]) + if s[|s| - 1] == '*' then 1 else 0
  }

  /** Not empty, no dot in front and no ".lock" at the end. */
  predicate ShapeOk(x: string) {
    x != [] && x[0] != '.' && !EndsWithLock(x)
  }

  ghost predicate AllShaped(cs: seq<string>) {
    forall i {:trigger ShapeOk(cs[i])} | 0 <= i < |cs| :: ShapeOk(cs[i])
  }

  predicate EndsInDot(x: string) {
    x != [] && x[|x| - 1] == '.'
  }

  /** The language of reference names: rules for its components, and rules for the whole name. */
  ghost predicate Declared(opts: Options, s: string) {
    && AllShaped(Split('/', s))
    && AllChars(s) && !Adjacent(s, '.', '.') && !Adjacent(s, '@', '{')
    && !EndsInDot(s) && s != "@"
    && (opts.allowOnelevel || |Split('/', s)| >= 2)
    && Stars(s) <= if opts.allowPattern then 1 else 0
  }

  /** What the check refuses beyond the rules: the last character of a component is looked at
      together with its first. */
  predicate Wraps(x: string) {
    x != [] && x[|x| - 1] == '@' && x[0] == '{'
  }

  ghost predicate SomeWraps(s: string) {
    exists i :: 0 <= i < |Split('/', s)| && Wraps(Split('/', s)[i])
  }

  /** And the rule against a dot at the end of the name is applied to every component. */
  ghost predicate InnerDot(s: string) {
    exists i :: 0 <= i < |Split('/', s)| - 1 && EndsInDot(Split('/', s)[i])
  }

  /** The rules as they are applied to one component. */
  ghost predicate ComponentOk(x: string) {
    && ShapeOk(x) && AllChars(x) && !EndsInDot(x)
    && !Adjacent(x, '.', '.') && !Adjacent(x, '@', '{')
  }

  /** What the check lets pass. */
  ghost predicate Passes(x: string) {
    ComponentOk(x) && !Wraps(x)
  }

  ghost predicate AllPass(cs: seq<string>) {
    forall i {:trigger Passes(cs[i])} | 0 <= i < |cs| :: Passes(cs[i])
  }

  ghost predicate Accepted(opts: Options, s: string) {
    && s != "@"
    && AllPass(Split('/', s))
    && (opts.allowOnelevel || |Split('/', s)| >= 2)
    && Stars(s) <= if opts.allowPattern then 1 else 0
  }

  // ---------- Rules for names and rules for components ----------

  /** The characters of a component, and which follow which. */
  ghost predicate CleanText(x: string) {
    AllChars(x) && !Adjacent(x, '.', '.') && !Adjacent(x, '@', '{')
  }

  ghost predicate AllClean(cs: seq<string>) {
    forall i {:trigger CleanText(cs[i])} | 0 <= i < |cs| :: CleanText(cs[i])
  }

  lemma AdjacentConcat(x: string, sep: char, y: string, a: char, b: char)
    requires a != sep && b != sep
    ensures Adjacent(x + [sep] + y, a, b) <==> Adjacent(x, a, b) || Adjacent(y, a, b)
  {
    var s := x + [sep] + y;
    var n := |x| + 1;
    if Adjacent(x, a, b) {
      var i :| 0 <= i < |x| - 1 && x[i] == a && x[i + 1] == b;
      assert s[i] == a && s[i + 1] == b;
    }
    if Adjacent(y, a, b) {
      var i :| 0 <= i < |y| - 1 && y[i] == a && y[i + 1] == b;
      assert s[n + i] == a && s[n + i + 1] == b;
    }
    if Adjacent(s, a, b) {
      var i :| 0 <= i < |s| - 1 && s[i] == a && s[i + 1] == b;
      assert s[|x|] == sep;
      if i < |x| {
        assert x[i] == a && x[i + 1] == b;
      } else {
        assert y[i - n] == a && y[i - n + 1] == b;
      }
    }
  }

  lemma CharsConcat(x: string, y: string)
    ensures AllChars(x + ['/'] + y) <==> AllChars(x) && AllChars(y)
  {
    var s := x + ['/'] + y;
    assert forall i | 0 <= i < |x| :: s[i] == x[i];
    assert forall i | 0 <= i < |y| :: s[|x| + 1 + i] == y[i];
  }

  lemma CleanConcat(x: string, y: string)
    ensures CleanText(x + ['/'] + y) <==> CleanText(x) && CleanText(y)
  {
    CharsConcat(x, y);
    AdjacentConcat(x, '/', y, '.', '.');
    AdjacentConcat(x, '/', y, '@', '{');
  }

  /** A text is clean exactly if its components are. */
  lemma {:induction false} CleanSplit(s: string)
    ensures CleanText(s) <==> AllClean(Split('/', s))
    decreases |s|
  {
    if Free('/', s) {
      SplitFree('/', s);
      assert CleanText(Split('/', s)[0]) <==> CleanText(s);
    } else {
      var head, rest := Cut('/', s);
      SplitFirst('/', head, rest);
      CleanSplit(rest);
      CleanConcat(head, rest);
      AllCleanCons(head, Split('/', rest));
    }
  }

  lemma AllCleanCons(c: string, cs: seq<string>)
    ensures AllClean([c] + cs) <==> CleanText(c) && AllClean(cs)
  {
    var all := [c] + cs;
    if AllClean(all) {
      assert CleanText(all[0]);
      forall i | 0 <= i < |cs| ensures CleanText(cs[i]) { assert CleanText(all[i + 1]); }
    }
    if CleanText(c) && AllClean(cs) {
      forall i | 0 <= i < |all| ensures CleanText(all[i]) { if i > 0 { assert CleanText(cs[i - 1]); } }
    }
  }

  /** A name ends in a dot exactly if its last component does. */
  lemma {:induction false} DotAtEnd(s: string)
    ensures EndsInDot(s) <==> EndsInDot(Split('/', s)[|Split('/', s)| - 1])
    decreases |s|
  {
    if Free('/', s) {
      SplitFree('/', s);
    } else {
      var head, rest := Cut('/', s);
      SplitFirst('/', head, rest);
      DotAtEnd(rest);
      if rest != [] { assert s[|s| - 1] == rest[|rest| - 1]; }
    }
  }

  /** The check lets pass the declared language, less the names with a component that wraps, and
      less those with a component before the last that ends in a dot. */
  lemma AcceptedIff(opts: Options, s: string)
    ensures Accepted(opts, s) <==> Declared(opts, s) && !SomeWraps(s) && !InnerDot(s)
  {
    var cs := Split('/', s);
    CleanSplit(s);
    DotAtEnd(s);
    if AllPass(cs) {
      forall i | 0 <= i < |cs|
        ensures ShapeOk(cs[i]) && CleanText(cs[i]) && !EndsInDot(cs[i]) && !Wraps(cs[i])
      {
        assert Passes(cs[i]);
      }
    }
    if AllShaped(cs) && AllClean(cs) && !EndsInDot(s) && !SomeWraps(s) && !InnerDot(s) {
      forall i | 0 <= i < |cs|
        ensures Passes(cs[i])
      {
        assert ShapeOk(cs[i]) && CleanText(cs[i]);
      }
    }
  }

  // ---------- One component ----------

  /** The character after `i`, or the first one after the last. */
  function NextChar(x: string, i: nat): char
    requires i < |x|
  {
    if i + 1 < |x| then x[i + 1] else x[0]
  }

  function CheckChar(x: string, i: nat): Option<RefError>
    requires i < |x|
  {
    var c := x[i];
    if c == '.' && NextChar(x, i) == '.' then Some(DotDot)
    else if c == '@' && NextChar(x, i) == '{' then Some(AtOpenBrace)
    else if Forbidden(c) then Some(InvalidChar(c))
    else if c == '*' then None
    else if c == '.' && i == 0 then Some(StartsDot)
    else if c == '.' && i == |x| - 1 then Some(EndsDot)
    else if c == ' ' then Some(Space)
    else if IsControl(c) then Some(Control)
    else None
  }

  /** The errors a component can be blamed for. */
  ghost predicate Blamed(x: string, e: RefError) {
    match e
    case Slash => x == []
    case DotLock => EndsWithLock(x)
    case DotDot => Adjacent(x, '.', '.') || (x != [] && x[0] == '.' && x[|x| - 1] == '.')
    case AtOpenBrace => Adjacent(x, '@', '{') || Wraps(x)
    case InvalidChar(c) => Forbidden(c) && c in x
    case StartsDot => x != [] && x[0] == '.'
    case EndsDot => x != [] && x[|x| - 1] == '.'
    case Space => ' ' in x
    case Control => exists i :: 0 <= i < |x| && IsControl(x[i])
    case _ => false
  }

  lemma CharBlamed(x: string, i: nat)
    requires i < |x| && CheckChar(x, i).Some?
    ensures Blamed(x, CheckChar(x, i).value)
  {
    assert x[i] in x;
    if i + 1 < |x| { assert NextChar(x, i) == x[i + 1]; }
  }

  lemma CharsPass(x: string)
    requires x != [] && !EndsWithLock(x) && forall i | 0 <= i < |x| :: CheckChar(x, i).None?
    ensures ComponentOk(x) && !Wraps(x)
  {
    assert CheckChar(x, 0).None? && CheckChar(x, |x| - 1).None?;
    forall i | 0 <= i < |x|
      ensures CharOk(x[i])
    {
      assert CheckChar(x, i).None?;
    }
    forall i | 0 <= i < |x| - 1
      ensures !(x[i] == '.' && x[i + 1] == '.') && !(x[i] == '@' && x[i + 1] == '{')
    {
      assert CheckChar(x, i).None?;
    }
  }

  lemma CharFails(x: string, i: nat)
    requires i < |x| && CheckChar(x, i).Some?
    ensures !ComponentOk(x) || Wraps(x)
  {
    if i + 1 < |x| { assert NextChar(x, i) == x[i + 1]; }
  }

  method CheckComponent(x: string, globs: nat) returns (r: Result<nat, RefError>)
    ensures r.Ok? <==> Passes(x)
    ensures r.Ok? ==> r.value == globs + Stars(x)
    ensures r.Err? ==> Blamed(x, r.error)
  {
    if x == [] { return Err(Slash); }
    if EndsWithLock(x) { return Err(DotLock); }
    var n := globs;
    for i := 0 to |x|
      invariant forall j | 0 <= j < i :: CheckChar(x, j).None?
      invariant n == globs + Stars(x[..i])
    {
      var e := CheckChar(x, i);
      if e.Some? {
        CharBlamed(x, i);
        CharFails(x, i);
        return Err(e.value);
      }
      assert x[..i + 1][..i] == x[..i];
      if x[i] == '*' { n := n + 1; }
    }
    assert x[..|x|] == x;
    CharsPass(x);
    return Ok(n);
  }

  // ---------- The whole name ----------

  function AllStars(cs: seq<string>): nat {
    if cs == [] then 0 else AllStars(cs[..|cs| - 1]) + Stars(cs[|cs| - 1])
  }

  lemma {:induction false} StarsConcat(a: string, b: string)
    ensures Stars(a + b) == Stars(a) + Stars(b)
  {
    if b == [] {
      assert a + b == a;
    } else {
      assert (a + b)[..|a + b| - 1] == a + b[..|b| - 1];
      StarsConcat(a, b[..|b| - 1]);
    }
  }

  lemma {:induction false} AllStarsCons(c: string, cs: seq<string>)
    ensures AllStars([c] + cs) == Stars(c) + AllStars(cs)
  {
    if cs == [] {
      assert [c] + cs == [c];
      assert AllStars([c][..0]) == 0;
    } else {
      assert ([c] + cs)[..|cs|] == [c] + cs[..|cs| - 1];
      AllStarsCons(c, cs[..|cs| - 1]);
    }
  }

  /** The stars of a name are those of its components. */
  lemma {:induction false} StarsSplit(sep: char, s: string)
    requires sep != '*'
    ensures AllStars(Split(sep, s)) == Stars(s)
    decreases |s|
  {
    if Free(sep, s) {
      SplitFree(sep, s);
      AllStarsCons(s, []);
    } else {
      var head, rest := Cut(sep, s);
      SplitFirst(sep, head, rest);
      AllStarsCons(head, Split(sep, rest));
      StarsSplit(sep, rest);
      StarsConcat(head + [sep], rest);
      StarsConcat(head, [sep]);
      assert [sep][..0] == [];
    }
  }

  /** Why a name is refused. */
  ghost predicate Explains(opts: Options, s: string, e: RefError) {
    match e
    case Empty => s == ""
    case LoneAt => s == "@"
    case OneLevel => !opts.allowOnelevel && Free('/', s)
    case Pattern => opts.allowPattern && Stars(s) > 1
    case InvalidChar('*') => !opts.allowPattern && Stars(s) > 0
    case _ => exists i :: 0 <= i < |Split('/', s)| && Blamed(Split('/', s)[i], e)
  }

  method CheckComponents(s: string) returns (r: Result<nat, RefError>)
    ensures r.Ok? <==> AllPass(Split('/', s))
    ensures r.Ok? ==> r.value == Stars(s)
    ensures r.Err? ==> exists i :: 0 <= i < |Split('/', s)| && Blamed(Split('/', s)[i], r.error)
  {
    var cs := Split('/', s);
    var globs := 0;
    for i := 0 to |cs|
      invariant forall j {:trigger Passes(cs[j])} | 0 <= j < i :: Passes(cs[j])
      invariant globs == AllStars(cs[..i])
    {
      r := CheckComponent(cs[i], globs);
      if r.Err? {
        assert !Passes(cs[i]);
        return;
      }
      globs := r.value;
      assert cs[..i + 1][..i] == cs[..i];
    }
    assert cs[..|cs|] == cs;
    StarsSplit('/', s);
    return Ok(globs);
  }

  /** The check accepts the declared language, less the names with a component that begins with an
      opening brace and ends with an at sign, and less those with a component before the last that
      ends in a dot; and what it refuses it blames rightly. */
  method CheckRefFormat(opts: Options, s: string) returns (r: Result<(), RefError>)
    ensures r.Ok? <==> Declared(opts, s) && !SomeWraps(s) && !InnerDot(s)
    ensures r.Err? ==> Explains(opts, s, r.error)
  {
    AcceptedIff(opts, s);
    if s == "" {
      EmptyRefused(opts, s);
      return Err(Empty);
    }
    if s == "@" { return Err(LoneAt); }
    if s == "." {
      DotRefused(opts, s);
      return Err(StartsDot);
    }
    var globs := CheckComponents(s);
    if globs.Err? { return Err(globs.error); }
    if |Split('/', s)| < 2 && !opts.allowOnelevel { return Err(OneLevel); }
    if globs.value > 1 && opts.allowPattern { return Err(Pattern); }
    if globs.value > 0 && !opts.allowPattern { return Err(InvalidChar('*')); }
    return Ok(());
  }

  lemma EmptyRefused(opts: Options, s: string)
    requires |s| == 0
    ensures !Accepted(opts, s)
  {
    SplitFree('/', s);
    assert !Passes(Split('/', s)[0]);
  }

  lemma DotRefused(opts: Options, s: string)
    requires |s| == 1 && s[0] == '.'
    ensures !Accepted(opts, s) && Explains(opts, s, StartsDot)
  {
    SplitFree('/', s);
    assert !Passes(Split('/', s)[0]) && Blamed(Split('/', s)[0], StartsDot);
  }

  /** The first extra rejection is real: such a component alone is a declared name. */
  lemma WrappingRefused(opts: Options, x: string)
    requires opts.allowOnelevel && ComponentOk(x) && Wraps(x) && Free('/', x) && Stars(x) == 0
    ensures Declared(opts, x) && !Accepted(opts, x)
  {
    SplitFree('/', x);
    assert |x| > 1;
    assert !Passes(Split('/', x)[0]);
    forall i | 0 <= i < |Split('/', x)| ensures ShapeOk(Split('/', x)[i]) {}
  }

  lemma WrappingExists()
    ensures ComponentOk("{a@") && Wraps("{a@") && Free('/', "{a@") && Stars("{a@") == 0
  {
    var x := "{a@";
    assert x[..2] == "{a" && "{a"[..1] == "{" && "{"[..0] == "";
  }

  /** So is the second: two components, the first of which ends in a dot. */
  lemma InnerDotRefused(opts: Options, x: string, y: string)
    requires ShapeOk(x) && CleanText(x) && EndsInDot(x) && Free('/', x) && Stars(x) == 0
    requires ComponentOk(y) && Free('/', y) && Stars(y) == 0
    ensures Declared(opts, x + ['/'] + y) && !Accepted(opts, x + ['/'] + y)
  {
    TwoComponents(x, y);
    CleanConcat(x, y);
    PairEnd(x, y);
    PairDeclared(opts, x + ['/'] + y, x, y);
  }

  lemma PairEnd(x: string, y: string)
    requires x != [] && y != [] && !EndsInDot(y)
    ensures !EndsInDot(x + ['/'] + y) && |x + ['/'] + y| > 1
  {
    var s := x + ['/'] + y;
    assert s[|s| - 1] == y[|y| - 1];
  }

  lemma PairDeclared(opts: Options, s: string, x: string, y: string)
    requires Split('/', s) == [x, y] && ShapeOk(x) && EndsInDot(x) && ShapeOk(y)
    requires CleanText(s) && !EndsInDot(s) && |s| > 1 && Stars(s) == 0
    ensures Declared(opts, s) && !Accepted(opts, s)
  {
    PairShapes(Split('/', s), x, y);
    NotLoneAt(s);
  }

  lemma PairShapes(cs: seq<string>, x: string, y: string)
    requires cs == [x, y] && ShapeOk(x) && EndsInDot(x) && ShapeOk(y)
    ensures AllShaped(cs) && !AllPass(cs) && |cs| == 2
  {
    assert !Passes(cs[0]);
  }

  lemma NotLoneAt(s: string)
    requires |s| > 1
    ensures s != "@"
  {
  }

  lemma TwoComponents(x: string, y: string)
    requires Free('/', x) && Free('/', y) && Stars(x) == Stars(y) == 0
    ensures Split('/', x + ['/'] + y) == [x, y] && Stars(x + ['/'] + y) == 0
  {
    SplitFirst('/', x, y);
    SplitFree('/', y);
    StarsConcat(x + ['/'], y);
    StarsConcat(x, ['/']);
    assert ['/'][..0] == [];
  }

  lemma InnerDotExists()
    ensures ShapeOk("a.") && CleanText("a.") && EndsInDot("a.") && Free('/', "a.") && Stars("a.") == 0
    ensures ComponentOk("b") && Free('/', "b") && Stars("b") == 0
    ensures "a." + ['/'] + "b" == "a./b"
  {
    assert "a."[..1] == "a" && "a"[..0] == "" && "b"[..0] == "";
  }
}
