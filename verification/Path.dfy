/** Splitting a string at a separator, and joining again. */
module Path {
  predicate Free(sep: char, s: string) {
    forall i | 0 <= i < |s| :: s[i] != sep
  }

  /** Where the first separator stands, or the length. */
  function First(sep: char, s: string): (n: nat)
    ensures n <= |s| && Free(sep, s[..n]) && (n < |s| ==> s[n] == sep)
  {
    if s == [] || s[0] == sep then 0 else
      assert forall i | 0 <= i < First(sep, s[1..]) :: s[i + 1] == s[1..][i];
      1 + First(sep, s[1..])
  }

  function Split(sep: char, s: string): (cs: seq<string>)
    ensures cs != []
    ensures |cs| == 1 <==> Free(sep, s)
    ensures forall i | 0 <= i < |cs| :: Free(sep, cs[i])
  {
    var n := First(sep, s);
    if n == |s| then assert s[..n] == s; [s] else [s[..n]] + Split(sep, s[n + 1..])
  }

  function Join(sep: char, cs: seq<string>): string
    requires cs != []
  {
    if |cs| == 1 then cs[0] else cs[0] + [sep] + Join(sep, cs[1..])
  }

  lemma FirstIs(sep: char, a: string, b: string)
    requires Free(sep, a)
    ensures First(sep, a + [sep] + b) == |a|
  {
    var s := a + [sep] + b;
    assert s[|a|] == sep;
    assert forall i | 0 <= i < |a| :: s[i] == a[i];
    assert First(sep, s) <= |a| by {
      assert forall n | |a| < n <= |s| :: s[..n][|a|] == sep;
    }
  }

  lemma SplitFirst(sep: char, a: string, b: string)
    requires Free(sep, a)
    ensures Split(sep, a + [sep] + b) == [a] + Split(sep, b)
  {
    var s := a + [sep] + b;
    FirstIs(sep, a, b);
    assert s[..|a|] == a && s[|a| + 1..] == b;
  }

  lemma SplitFree(sep: char, s: string)
    requires Free(sep, s)
    ensures Split(sep, s) == [s]
  {
    var n := First(sep, s);
    assert n == |s|;
  }

  lemma Cut(sep: char, s: string) returns (head: string, rest: string)
    requires !Free(sep, s)
    ensures s == head + [sep] + rest && Free(sep, head)
  {
    var n := First(sep, s);
    assert s[..|s|] == s;
    head, rest := s[..n], s[n + 1..];
  }

  lemma JoinCons(sep: char, c: string, cs: seq<string>)
    requires cs != []
    ensures Join(sep, [c] + cs) == c + [sep] + Join(sep, cs)
  {
    assert ([c] + cs)[1..] == cs;
  }

  /** Joining what was split gives the string back. */
  lemma {:induction false} JoinSplit(sep: char, s: string)
    ensures Join(sep, Split(sep, s)) == s
    decreases |s|
  {
    if Free(sep, s) {
      SplitFree(sep, s);
    } else {
      var head, rest := Cut(sep, s);
      SplitFirst(sep, head, rest);
      JoinSplit(sep, rest);
      JoinCons(sep, head, Split(sep, rest));
    }
  }

  /** Splitting what was joined gives the parts back. */
  lemma {:induction false} SplitJoin(sep: char, cs: seq<string>)
    requires cs != [] && forall i | 0 <= i < |cs| :: Free(sep, cs[i])
    ensures Split(sep, Join(sep, cs)) == cs
  {
    if |cs| == 1 {
      SplitFree(sep, cs[0]);
    } else {
      SplitJoin(sep, cs[1..]);
      SplitFirst(sep, cs[0], Join(sep, cs[1..]));
      assert [cs[0]] + cs[1..] == cs;
    }
  }

  lemma Associative<T>(a: seq<T>, b: seq<T>, c: seq<T>)
    ensures a + (b + c) == a + b + c
  {
  }

  lemma Regroup<T>(a: seq<T>, b: seq<T>, c: seq<T>, d: seq<T>, e: seq<T>)
    ensures (a + b + c) + d + e == a + b + (c + d + e)
  {
  }

  /** The parts of two strings with a separator between them. */
  lemma {:induction false} SplitConcat(sep: char, a: string, b: string)
    ensures Split(sep, a + [sep] + b) == Split(sep, a) + Split(sep, b)
    decreases |a|
  {
    if Free(sep, a) {
      SplitFree(sep, a);
      SplitFirst(sep, a, b);
    } else {
      var head, rest := Cut(sep, a);
      SplitFirst(sep, head, rest);
      SplitConcat(sep, rest, b);
      Regroup(head, [sep], rest, [sep], b);
      SplitFirst(sep, head, rest + [sep] + b);
      Associative([head], Split(sep, rest), Split(sep, b));
    }
  }

  /** Strings with the same parts are the same. */
  lemma SplitInjective(sep: char, a: string, b: string)
    requires Split(sep, a) == Split(sep, b)
    ensures a == b
  {
    JoinSplit(sep, a);
    JoinSplit(sep, b);
  }

  lemma PrefixOfFirst(sep: char, last: string, c: string, rest: string)
    requires Free(sep, last)
    ensures last <= c + [sep] + rest <==> last <= c
  {
    var s := c + [sep] + rest;
    assert s[|c|] == sep;
    if last <= s {
      assert forall n | |c| < n <= |s| :: s[..n][|c|] == sep;
      assert last == s[..|last|];
      assert forall i | 0 <= i < |last| :: last[i] == s[i] == c[i];
    }
  }

  lemma CancelHead(sep: char, a: string, b: string, x: string, y: string)
    requires Free(sep, a) && Free(sep, b)
    ensures a + [sep] + x <= b + [sep] + y <==> a == b && x <= y
  {
    var s, t := a + [sep] + x, b + [sep] + y;
    if s <= t {
      assert a == b by {
        assert s[|a|] == sep && t[|b|] == sep;
        assert forall i | 0 <= i < |a| :: t[i] == a[i];
        SameHead(sep, a, b, t);
      }
      assert forall i | 0 <= i < |x| :: x[i] == s[|a| + 1 + i] == t[|a| + 1 + i] == y[i];
    }
  }

  lemma SameHead(sep: char, a: string, b: string, t: string)
    requires Free(sep, a) && Free(sep, b) && |a| < |t| && |b| < |t|
    requires t[..|a|] == a && t[..|b|] == b && t[|a|] == sep && t[|b|] == sep
    ensures a == b
  {
    assert forall n | |a| < n <= |t| :: t[..n][|a|] == sep;
    assert forall n | |b| < n <= |t| :: t[..n][|b|] == sep;
  }

  /** A joined name begins with another, as a string, exactly when it has the same parts up to the
      last one, which only needs to begin the same. */
  lemma {:induction false} PrefixOfJoin(sep: char, base: seq<string>, last: string, cs: seq<string>)
    requires Free(sep, last) && cs != []
    requires (forall i | 0 <= i < |base| :: Free(sep, base[i])) && forall i | 0 <= i < |cs| :: Free(sep, cs[i])
    ensures Join(sep, base + [last]) <= Join(sep, cs) <==> |cs| > |base| && cs[..|base|] == base && last <= cs[|base|]
  {
    if base == [] {
      assert base + [last] == [last];
      if |cs| > 1 { PrefixOfFirst(sep, last, cs[0], Join(sep, cs[1..])); }
    } else {
      var more := base[1..] + [last];
      assert base + [last] == [base[0]] + more;
      JoinCons(sep, base[0], more);
      if |cs| == 1 {
        NoSepInside(sep, base[0], Join(sep, more), cs[0]);
      } else {
        CancelHead(sep, base[0], cs[0], Join(sep, more), Join(sep, cs[1..]));
        PrefixOfJoin(sep, base[1..], last, cs[1..]);
        TakeCons(base, cs);
      }
    }
  }

  lemma NoSepInside(sep: char, a: string, x: string, c: string)
    requires Free(sep, c)
    ensures !(a + [sep] + x <= c)
  {
    var s := a + [sep] + x;
    assert s[|a|] == sep;
    assert forall t: string | s <= t :: t[|a|] == sep;
  }

  lemma TakeCons(base: seq<string>, cs: seq<string>)
    requires base != [] && cs != []
    ensures (|cs| > |base| && cs[..|base|] == base)
            <==> (|cs[1..]| > |base[1..]| && cs[0] == base[0] && cs[1..][..|base[1..]|] == base[1..])
  {
    if |cs| > |base| {
      var n := |base|;
      assert cs[1..][..n - 1] == cs[1..n];
      assert cs[..n] == [cs[0]] + cs[1..n];
      assert base == [base[0]] + base[1..];
    }
  }
}
