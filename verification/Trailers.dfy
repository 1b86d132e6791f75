/** Git trailers: a combinator parser for the last paragraph of a message, and the printer
    (git-trailers/src/lib.rs). */
module Trailers {
  import opened Prelude

  datatype Trailer = Trailer(token: string, values: seq<string>)

  datatype Error = MissingParagraph | Trailing(rest: string)

  /** The character classes the parser consults: two of Unicode, and the blanks. */
  datatype Classes = Classes(alphanumeric: char -> bool, whitespace: char -> bool, blank: char -> bool)

  ghost predicate Sane(cls: Classes) {
    && (forall c :: cls.blank(c) <==> c == ' ' || c == '\t')
    && cls.whitespace(' ') && cls.whitespace('\t') && cls.whitespace('\n') && cls.whitespace('\r')
    && !cls.whitespace('-')
    && forall c :: cls.alphanumeric(c) ==> !cls.whitespace(c)
  }

  predicate TokenChar(cls: Classes, c: char) {
    cls.alphanumeric(c) || c == '-'
  }

  predicate InLine(c: char) {
    c != '\r' && c != '\n'
  }

  // ---------- The parsers ----------

  /** The length of the longest prefix of characters in a class. */
  function Span(p: char -> bool, s: string): (n: nat)
    ensures n <= |s|
  {
    if s == [] || !p(s[0]) then 0 else 1 + Span(p, s[1..])
  }

  function Blanks(cls: Classes, s: string): (n: nat)
    ensures n <= |s|
  {
    Span(cls.blank, s)
  }

  function Token(cls: Classes, s: string): Option<(string, string)> {
    var n := Span(c => TokenChar(cls, c), s);
    if n == 0 then None else Some((s[n..], s[..n]))
  }

  function Separator(cls: Classes, separators: string, s: string): Option<string> {
    var r := s[Blanks(cls, s)..];
    if r == [] || r[0] !in separators then None else Some(r[1..][Blanks(cls, r[1..])..])
  }

  /** The rest and the line; all of the input where there is no line ending, or where a carriage
      return without a newline comes first. */
  function UntilEol(s: string): (r: (string, string))
    ensures |r.0| <= |s|
  {
    var n := Span(InLine, s);
    if n == |s| then ([], s)
    else if s[n] == '\n' then (s[n + 1..], s[..n])
    else if n + 1 < |s| && s[n] == '\r' && s[n + 1] == '\n' then (s[n + 2..], s[..n])
    else ([], s)
  }

  function IndentedLine(cls: Classes, s: string): (r: Option<(string, string)>)
    ensures r.Some? ==> |r.value.0| < |s|
  {
    var n := Blanks(cls, s);
    if n == 0 then None else Some(UntilEol(s[n..]))
  }

  type Parser<T> = string -> Option<(string, T)>

  ghost predicate Shrinks<T(!new)>(p: Parser<T>) {
    forall s :: p(s).Some? ==> |p(s).value.0| < |s|
  }

  function LineParser(cls: Classes): Parser<string> {
    s => IndentedLine(cls, s)
  }

  /** As many as there are: the rest, and what was parsed. */
  function Many<T(!new)>(p: Parser<T>, s: string): (r: (string, seq<T>))
    requires Shrinks(p)
    ensures |r.0| <= |s|
    decreases |s|
  {
    match p(s)
    case None => (s, [])
    case Some((rest, x)) =>
      var more := Many(p, rest);
      (more.0, [x] + more.1)
  }

  function Values(cls: Classes, s: string): (r: (string, seq<string>))
    ensures |r.0| <= |s|
  {
    var line := UntilEol(s);
    var more := Many(LineParser(cls), line.0);
    (more.0, if line.1 == [] then more.1 else [line.1] + more.1)
  }

  function ParseTrailer(cls: Classes, separators: string, s: string): (r: Option<(string, Trailer)>)
    ensures r.Some? ==> |r.value.0| < |s|
  {
    match Token(cls, s)
    case None => None
    case Some((rest, token)) =>
      match Separator(cls, separators, rest)
      case None => None
      case Some(rest) =>
        var values := Values(cls, rest);
        Some((values.0, Trailer(token, values.1)))
  }

  function TrailerParser(cls: Classes, separators: string): Parser<Trailer> {
    s => ParseTrailer(cls, separators, s)
  }

  function ParseTrailers(cls: Classes, separators: string, s: string): (string, seq<Trailer>) {
    Many(TrailerParser(cls, separators), s)
  }

  predicate EmptyLineAt(s: string, i: nat) {
    i + 2 <= |s| && s[i] == '\n' && s[i + 1] == '\n'
  }

  /** Where the first empty line begins. */
  function FindEmptyLine(s: string, from: nat): (r: Option<nat>)
    ensures r.Some? ==>
              from <= r.value && EmptyLineAt(s, r.value) && forall i | from <= i < r.value :: !EmptyLineAt(s, i)
    ensures r.None? ==> forall i | from <= i :: !EmptyLineAt(s, i)
    decreases |s| - from
  {
    if from + 2 > |s| then None
    else if EmptyLineAt(s, from) then Some(from)
    else FindEmptyLine(s, from + 1)
  }

  /** The paragraphs of what begins at `from`. */
  function Paragraphs(s: string, from: nat): (r: seq<string>)
    requires from <= |s|
    ensures r != []
    decreases |s| - from
  {
    match FindEmptyLine(s, from)
    case None => [s[from..]]
    case Some(i) => [s[from..i]] + Paragraphs(s, i + 2)
  }

  function TrimEnd(cls: Classes, s: string): string {
    if s != [] && cls.whitespace(s[|s| - 1]) then TrimEnd(cls, s[..|s| - 1]) else s
  }

  function ParseParagraph(cls: Classes, separators: string, s: string): Result<seq<Trailer>, Error> {
    if s == [] then Err(MissingParagraph) else
      var parsed := ParseTrailers(cls, separators, s);
      if parsed.0 == [] then Ok(parsed.1) else Err(Trailing(parsed.0))
  }

  function Parse(cls: Classes, message: string, separators: string): Result<seq<Trailer>, Error> {
    var paragraphs := Paragraphs(TrimEnd(cls, message), 0);
    ParseParagraph(cls, separators, paragraphs[|paragraphs| - 1])
  }

  // ---------- The printer ----------

  /** A trailer and the separator chosen for its token. */
  datatype Entry = Entry(trailer: Trailer, separator: string)

  /** The indentation of the second value and those after it; the original fixes two spaces. */
  const INDENT := "  "

  function Indented(indent: string, values: seq<string>): string {
    if values == [] then [] else "\n" + indent + values[0] + Indented(indent, values[1..])
  }

  function Joined(indent: string, values: seq<string>): string {
    if values == [] then [] else values[0] + Indented(indent, values[1..])
  }

  function Display(indent: string, e: Entry): string {
    e.trailer.token + e.separator + Joined(indent, e.trailer.values)
  }

  function DisplayMany(indent: string, entries: seq<Entry>): string {
    if entries == [] then []
    else if |entries| == 1 then Display(indent, entries[0])
    else Display(indent, entries[0]) + "\n" + DisplayMany(indent, entries[1..])
  }

  // ---------- Well-formed trailers ----------

  ghost predicate ValueOk(cls: Classes, v: string) {
    (forall i | 0 <= i < |v| :: InLine(v[i])) && (v != [] ==> !cls.blank(v[0]))
  }

  ghost predicate TokenOk(cls: Classes, token: string) {
    token != [] && forall i | 0 <= i < |token| :: TokenChar(cls, token[i])
  }

  /** A text that is read as one line, as far as it goes: without line breaks, or with a carriage
      return that is no line ending before the first of them. */
  ghost predicate Whole(cls: Classes, v: string) {
    UntilEol(v) == ([], v) && NoEmptyLine(v) && (v != [] ==> !cls.blank(v[0]))
  }

  /** Values without line breaks or indentation; at the very end a text that is read as one line
      will do. */
  ghost predicate LinesOk(cls: Classes, values: seq<string>, last: bool) {
    forall i {:trigger values[i]} | 0 <= i < |values| ::
      if last && i == |values| - 1 then Whole(cls, values[i]) else ValueOk(cls, values[i])
  }

  ghost predicate TrailerOk(cls: Classes, t: Trailer, last: bool) {
    TokenOk(cls, t.token) && LinesOk(cls, t.values, last)
  }

  /** One of the separators, between blanks. */
  ghost predicate SeparatorOk(cls: Classes, separators: string, s: string) {
    var n := Blanks(cls, s);
    && n < |s| && s[n] in separators
    && !TokenChar(cls, s[n]) && !cls.whitespace(s[n])
    && forall i | n < i < |s| :: cls.blank(s[i])
  }

  ghost predicate EntryOk(cls: Classes, separators: string, e: Entry, last: bool) {
    TrailerOk(cls, e.trailer, last) && SeparatorOk(cls, separators, e.separator)
  }

  ghost predicate EntriesOk(cls: Classes, separators: string, entries: seq<Entry>) {
    entries != [] && forall i {:trigger entries[i]} | 0 <= i < |entries| ::
      EntryOk(cls, separators, entries[i], i == |entries| - 1)
  }

  /** The last value of all does not end in white space. */
  ghost predicate EndOk(cls: Classes, values: seq<string>) {
    values != [] ==> var v := values[|values| - 1]; v != [] && !cls.whitespace(v[|v| - 1])
  }

  ghost function TrailersOf(entries: seq<Entry>): seq<Trailer> {
    seq(|entries|, i requires 0 <= i < |entries| => entries[i].trailer)
  }

  /** A first value that is empty leaves no trace. */
  function Normal(t: Trailer): Trailer {
    if t.values != [] && t.values[0] == [] then t.(values := t.values[1..]) else t
  }

  ghost function NormalOf(entries: seq<Entry>): seq<Trailer> {
    seq(|entries|, i requires 0 <= i < |entries| => Normal(entries[i].trailer))
  }

  ghost predicate IndentOk(cls: Classes, indent: string) {
    indent != [] && forall i | 0 <= i < |indent| :: cls.blank(indent[i])
  }

  // ---------- Reading back one trailer ----------

  lemma {:induction false} SpanIs(p: char -> bool, s: string, n: nat)
    requires n <= |s| && (forall i | 0 <= i < n :: p(s[i])) && (n < |s| ==> !p(s[n]))
    ensures Span(p, s) == n
  {
    if n > 0 { SpanIs(p, s[1..], n - 1); }
  }

  function Drop(s: string): string {
    if s == [] then [] else s[1..]
  }

  /** Nothing, or a line break and something that does not begin with a blank. */
  ghost predicate TailOk(cls: Classes, tail: string) {
    tail == [] || (tail[0] == '\n' && (|tail| > 1 ==> !cls.blank(tail[1])))
  }

  /** A value that is read back in front of what comes after it. */
  ghost predicate Readable(cls: Classes, v: string, after: string) {
    && (v != [] ==> !cls.blank(v[0]))
    && (if after == [] then UntilEol(v) == ([], v) else after[0] == '\n' && forall i | 0 <= i < |v| :: InLine(v[i]))
  }

  lemma LineBack(cls: Classes, v: string, after: string)
    requires Readable(cls, v, after)
    ensures UntilEol(v + after) == (Drop(after), v)
  {
    if after == [] {
      assert v + after == v;
    } else {
      SpanIs(InLine, v + after, |v|);
      assert (v + after)[|v| + 1..] == after[1..];
    }
  }

  lemma InLineWhole(v: string)
    requires forall i | 0 <= i < |v| :: InLine(v[i])
    ensures UntilEol(v) == ([], v)
  {
    SpanIs(InLine, v, |v|);
  }

  /** Each of the values of a trailer is read back in front of those after it. */
  lemma LineReadable(indent: string, cls: Classes, values: seq<string>, last: bool, tail: string)
    requires values != [] && LinesOk(cls, values, last) && TailOk(cls, tail) && (last ==> tail == [])
    ensures Readable(cls, values[0], Indented(indent, values[1..]) + tail) && LinesOk(cls, values[1..], last)
  {
    var v, after := values[0], Indented(indent, values[1..]) + tail;
    IndentedStart(indent, cls, values[1..], tail);
    if ValueOk(cls, v) { InLineWhole(v); }
    if last && |values| == 1 { assert after == []; }
    forall i | 0 <= i < |values[1..]| ensures values[1..][i] == values[i + 1] {}
  }

  lemma IndentedStart(indent: string, cls: Classes, values: seq<string>, tail: string)
    requires TailOk(cls, tail)
    ensures Indented(indent, values) + tail != [] ==> (Indented(indent, values) + tail)[0] == '\n'
  {
    if values == [] { assert Indented(indent, values) + tail == tail; }
  }

  lemma Regroup(a: string, b: string, c: string, d: string, e: string)
    requires |a| == 1
    ensures Drop((a + b + c + d) + e) == b + (c + (d + e))
  {
    var s := b + (c + (d + e));
    assert (a + b + c + d) + e == a + s;
    assert (a + s)[1..] == s;
  }

  /** At each of the inputs `at` the parser reads one of `xs` and goes on with the next input; at
      the last it reads nothing. */
  ghost predicate ReadsVia<T(!new)>(p: Parser<T>, at: seq<string>, xs: seq<T>) {
    && |at| == |xs| + 1
    && (forall i {:trigger at[i]} | 0 <= i < |xs| :: p(at[i]) == Some((at[i + 1], xs[i])))
    && p(at[|xs|]) == None
  }

  lemma {:induction false} ReadsMany<T(!new)>(p: Parser<T>, at: seq<string>, xs: seq<T>, i: nat)
    requires Shrinks(p) && ReadsVia(p, at, xs) && i <= |xs|
    ensures Many(p, at[i]) == (at[|xs|], xs[i..])
    decreases |xs| - i
  {
    if i < |xs| {
      ReadsMany(p, at, xs, i + 1);
      assert [xs[i]] + xs[i + 1..] == xs[i..];
    } else {
      assert xs[i..] == [];
    }
  }

  lemma IndentedLineBack(indent: string, cls: Classes, v: string, after: string)
    requires Sane(cls) && IndentOk(cls, indent) && Readable(cls, v, after)
    ensures IndentedLine(cls, indent + (v + after)) == Some((Drop(after), v))
  {
    var s := indent + (v + after);
    SpanIs(cls.blank, s, |indent|);
    assert s[|indent|..] == v + after;
    LineBack(cls, v, after);
  }

  /** Reads an indented line, and nothing where no blank comes first. */
  ghost predicate ReadsLines(indent: string, cls: Classes, p: Parser<string>) {
    && Shrinks(p)
    && (forall v, after | Readable(cls, v, after) :: p(indent + (v + after)) == Some((Drop(after), v)))
    && forall s | s != [] ==> !cls.blank(s[0]) :: p(s) == None
  }

  lemma LineParserReads(indent: string, cls: Classes)
    requires Sane(cls) && IndentOk(cls, indent)
    ensures ReadsLines(indent, cls, LineParser(cls))
  {
    forall v, after | Readable(cls, v, after)
      ensures LineParser(cls)(indent + (v + after)) == Some((Drop(after), v))
    {
      IndentedLineBack(indent, cls, v, after);
    }
  }

  lemma LineStep(indent: string, cls: Classes, p: Parser<string>, values: seq<string>, last: bool, tail: string)
    requires ReadsLines(indent, cls, p) && values != [] && LinesOk(cls, values, last) && TailOk(cls, tail)
             && (last ==> tail == [])
    ensures p(Drop(Indented(indent, values) + tail)) == Some((Drop(Indented(indent, values[1..]) + tail), values[0]))
  {
    Regroup("\n", indent, values[0], Indented(indent, values[1..]), tail);
    LineReadable(indent, cls, values, last, tail);
  }

  lemma LinesOkFrom(cls: Classes, values: seq<string>, last: bool, n: nat)
    requires n <= |values| && LinesOk(cls, values, last)
    ensures LinesOk(cls, values[n..], last)
  {
    forall i | 0 <= i < |values[n..]| ensures values[n..][i] == values[n + i] {}
  }

  lemma LinesBack(indent: string, cls: Classes, p: Parser<string>, values: seq<string>, last: bool, tail: string)
    requires ReadsLines(indent, cls, p) && LinesOk(cls, values, last) && TailOk(cls, tail) && (last ==> tail == [])
    ensures Many(p, Drop(Indented(indent, values) + tail)) == (Drop(tail), values)
  {
    var n := |values|;
    var at := seq(n + 1, i requires 0 <= i <= n => Drop(Indented(indent, values[i..]) + tail));
    forall i {:trigger at[i]} | 0 <= i < n
      ensures p(at[i]) == Some((at[i + 1], values[i]))
    {
      LinesOkFrom(cls, values, last, i);
      assert values[i..][1..] == values[i + 1..];
      LineStep(indent, cls, p, values[i..], last, tail);
    }
    NoIndented(indent, values[n..], tail);
    ReadsMany(p, at, values, 0);
    assert values[0..] == values;
  }

  lemma NoIndented(indent: string, values: seq<string>, tail: string)
    requires |values| == 0
    ensures Indented(indent, values) + tail == tail
  {
  }

  /** The values are read back, but for a first one that is empty. */
  lemma ValuesBack(indent: string, cls: Classes, values: seq<string>, last: bool, tail: string)
    requires Sane(cls) && IndentOk(cls, indent) && TailOk(cls, tail) && LinesOk(cls, values, last)
             && (last ==> tail == [])
    ensures Values(cls, Joined(indent, values) + tail)
            == (Drop(tail), if values != [] && values[0] == [] then values[1..] else values)
  {
    LineParserReads(indent, cls);
    if values == [] {
      NoValuesBack(indent, cls, values, tail);
    } else {
      var after := Indented(indent, values[1..]) + tail;
      Associative(values[0], Indented(indent, values[1..]), tail);
      LineReadable(indent, cls, values, last, tail);
      LineBack(cls, values[0], after);
      LinesBack(indent, cls, LineParser(cls), values[1..], last, tail);
      Uncons(values);
    }
  }

  lemma NoValuesBack(indent: string, cls: Classes, values: seq<string>, tail: string)
    requires ReadsLines(indent, cls, LineParser(cls)) && TailOk(cls, tail) && values == []
    ensures Values(cls, Joined(indent, values) + tail) == (Drop(tail), values)
  {
    InLineWhole([]);
    LineBack(cls, [], tail);
    LinesBack(indent, cls, LineParser(cls), values, false, tail);
    NoIndented(indent, values, tail);
    assert Joined(indent, values) + tail == [] + tail;
  }

  lemma Uncons<T>(s: seq<T>)
    requires s != []
    ensures [s[0]] + s[1..] == s
  {
  }

  lemma TokenBack(cls: Classes, token: string, after: string)
    requires TokenOk(cls, token) && after != [] && !TokenChar(cls, after[0])
    ensures Token(cls, token + after) == Some((after, token))
  {
    SpanIs(c => TokenChar(cls, c), token + after, |token|);
    assert (token + after)[|token|..] == after;
  }

  lemma {:induction false} SpanBelow(p: char -> bool, s: string, i: nat)
    requires i < Span(p, s)
    ensures p(s[i])
  {
    if i > 0 { SpanBelow(p, s[1..], i - 1); }
  }

  lemma BlanksBefore(cls: Classes, s: string, after: string)
    requires Blanks(cls, s) < |s|
    ensures Blanks(cls, s + after) == Blanks(cls, s)
  {
    var n := Blanks(cls, s);
    forall i | 0 <= i < n
      ensures cls.blank((s + after)[i])
    {
      SpanBelow(cls.blank, s, i);
    }
    SpanEnds(cls.blank, s);
    SpanIs(cls.blank, s + after, n);
  }

  lemma {:induction false} SpanEnds(p: char -> bool, s: string)
    requires Span(p, s) < |s|
    ensures !p(s[Span(p, s)])
  {
    if p(s[0]) { SpanEnds(p, s[1..]); }
  }

  lemma SeparatorBack(cls: Classes, separators: string, sep: string, after: string)
    requires SeparatorOk(cls, separators, sep) && (after != [] ==> !cls.blank(after[0]))
    ensures Separator(cls, separators, sep + after) == Some(after)
  {
    var n := Blanks(cls, sep);
    BlanksBefore(cls, sep, after);
    var r := (sep + after)[n..];
    assert r[1..] == sep[n + 1..] + after;
    SpanIs(cls.blank, r[1..], |sep| - n - 1);
    assert r[1..][|sep| - n - 1..] == after;
  }

  lemma SeparatorStart(cls: Classes, separators: string, sep: string)
    requires Sane(cls) && SeparatorOk(cls, separators, sep)
    ensures !TokenChar(cls, sep[0])
  {
    if Blanks(cls, sep) > 0 { SpanBelow(cls.blank, sep, 0); }
  }

  lemma JoinedStart(indent: string, cls: Classes, values: seq<string>, last: bool, tail: string)
    requires Sane(cls) && LinesOk(cls, values, last) && TailOk(cls, tail) && (last ==> tail == [])
    ensures var s := Joined(indent, values) + tail; s != [] ==> !cls.blank(s[0])
  {
    if values == [] {
      assert Joined(indent, values) + tail == tail;
    } else {
      LineReadable(indent, cls, values, last, tail);
      Associative(values[0], Indented(indent, values[1..]), tail);
      ReadableStart(cls, values[0], Indented(indent, values[1..]) + tail);
    }
  }

  lemma ReadableStart(cls: Classes, v: string, after: string)
    requires Sane(cls) && Readable(cls, v, after)
    ensures v + after != [] ==> !cls.blank((v + after)[0])
  {
    if v == [] { assert v + after == after; }
  }

  lemma TrailerBack(indent: string, cls: Classes, separators: string, e: Entry, last: bool, tail: string)
    requires Sane(cls) && IndentOk(cls, indent) && EntryOk(cls, separators, e, last) && TailOk(cls, tail)
             && (last ==> tail == [])
    ensures ParseTrailer(cls, separators, Display(indent, e) + tail) == Some((Drop(tail), Normal(e.trailer)))
  {
    var t := e.trailer;
    var values := Joined(indent, t.values) + tail;
    assert Display(indent, e) + tail == t.token + (e.separator + values);
    SeparatorStart(cls, separators, e.separator);
    TokenBack(cls, t.token, e.separator + values);
    JoinedStart(indent, cls, t.values, last, tail);
    SeparatorBack(cls, separators, e.separator, values);
    ValuesBack(indent, cls, t.values, last, tail);
  }

  // ---------- Reading back the paragraph ----------

  lemma DisplayStart(indent: string, cls: Classes, separators: string, entries: seq<Entry>)
    requires Sane(cls) && EntriesOk(cls, separators, entries)
    ensures var s := DisplayMany(indent, entries); s != [] && TokenChar(cls, s[0]) && !cls.blank(s[0]) && s[0] != '\n'
  {
    var token := entries[0].trailer.token;
    assert TokenChar(cls, token[0]);
    assert Display(indent, entries[0])[0] == token[0];
  }

  /** Reads the rendering of a trailer, and nothing where nothing is left. */
  ghost predicate ReadsEntries(indent: string, cls: Classes, separators: string, p: Parser<Trailer>) {
    && Shrinks(p)
    && (forall e, last, tail {:trigger Display(indent, e) + tail, EntryOk(cls, separators, e, last)} |
          EntryOk(cls, separators, e, last) && TailOk(cls, tail) && (last ==> tail == []) ::
          p(Display(indent, e) + tail) == Some((Drop(tail), Normal(e.trailer))))
    && p([]) == None
  }

  lemma TrailerParserReads(indent: string, cls: Classes, separators: string)
    requires Sane(cls) && IndentOk(cls, indent)
    ensures ReadsEntries(indent, cls, separators, TrailerParser(cls, separators))
  {
    forall e, last, tail | EntryOk(cls, separators, e, last) && TailOk(cls, tail) && (last ==> tail == [])
      ensures TrailerParser(cls, separators)(Display(indent, e) + tail) == Some((Drop(tail), Normal(e.trailer)))
    {
      TrailerBack(indent, cls, separators, e, last, tail);
    }
  }

  lemma DisplayCons(indent: string, entries: seq<Entry>)
    requires |entries| > 1
    ensures DisplayMany(indent, entries) == Display(indent, entries[0]) + ("\n" + DisplayMany(indent, entries[1..]))
    ensures Drop("\n" + DisplayMany(indent, entries[1..])) == DisplayMany(indent, entries[1..])
  {
    Associative(Display(indent, entries[0]), "\n", DisplayMany(indent, entries[1..]));
  }

  lemma Associative(a: string, b: string, c: string)
    ensures a + b + c == a + (b + c)
    ensures |b| == 1 ==> Drop(b + c) == c
  {
    if |b| == 1 { assert (b + c)[1..] == c; }
  }

  lemma EntryStep(indent: string, cls: Classes, separators: string, p: Parser<Trailer>, entries: seq<Entry>)
    requires Sane(cls) && ReadsEntries(indent, cls, separators, p) && EntriesOk(cls, separators, entries)
    ensures p(DisplayMany(indent, entries)) == Some((DisplayMany(indent, entries[1..]), Normal(entries[0].trailer)))
  {
    var e := entries[0];
    assert EntryOk(cls, separators, e, |entries| == 1);
    if |entries| == 1 {
      assert TailOk(cls, []);
      assert Display(indent, e) + [] == Display(indent, e);
    } else {
      DisplayCons(indent, entries);
      EntriesOkFrom(cls, separators, entries, 1);
      DisplayStart(indent, cls, separators, entries[1..]);
      assert TailOk(cls, "\n" + DisplayMany(indent, entries[1..]));
    }
  }

  lemma EntriesOkFrom(cls: Classes, separators: string, entries: seq<Entry>, n: nat)
    requires n < |entries| && EntriesOk(cls, separators, entries)
    ensures EntriesOk(cls, separators, entries[n..])
  {
    forall i | 0 <= i < |entries[n..]| ensures entries[n..][i] == entries[n + i] {}
  }

  lemma EntriesBack(indent: string, cls: Classes, separators: string, p: Parser<Trailer>, entries: seq<Entry>)
    requires Sane(cls) && ReadsEntries(indent, cls, separators, p) && EntriesOk(cls, separators, entries)
    ensures Many(p, DisplayMany(indent, entries)) == ([], NormalOf(entries))
  {
    var n := |entries|;
    var at := seq(n + 1, i requires 0 <= i <= n => DisplayMany(indent, entries[i..]));
    forall i {:trigger at[i]} | 0 <= i < n
      ensures p(at[i]) == Some((at[i + 1], NormalOf(entries)[i]))
    {
      EntriesOkFrom(cls, separators, entries, i);
      assert entries[i..][1..] == entries[i + 1..];
      EntryStep(indent, cls, separators, p, entries[i..]);
    }
    ReadsMany(p, at, NormalOf(entries), 0);
    assert entries[0..] == entries && NormalOf(entries)[0..] == NormalOf(entries);
  }

  lemma ParagraphBack(indent: string, cls: Classes, separators: string, entries: seq<Entry>)
    requires Sane(cls) && IndentOk(cls, indent) && EntriesOk(cls, separators, entries)
    ensures ParseTrailers(cls, separators, DisplayMany(indent, entries)) == ([], NormalOf(entries))
  {
    TrailerParserReads(indent, cls, separators);
    EntriesBack(indent, cls, separators, TrailerParser(cls, separators), entries);
  }

  // ---------- Finding the paragraph ----------

  ghost predicate NoEmptyLine(s: string) {
    forall i | 0 <= i < |s| - 1 :: !(s[i] == '\n' && s[i + 1] == '\n')
  }

  lemma NoEmptyLineConcat(a: string, b: string)
    requires NoEmptyLine(a) && NoEmptyLine(b)
    requires a != [] && b != [] ==> !(a[|a| - 1] == '\n' && b[0] == '\n')
    ensures NoEmptyLine(a + b)
  {
    var s := a + b;
    forall i | 0 <= i < |s| - 1
      ensures !(s[i] == '\n' && s[i + 1] == '\n')
    {
      if i >= |a| {
        assert s[i] == b[i - |a|] && s[i + 1] == b[i - |a| + 1];
      } else if i + 1 < |a| {
        assert s[i] == a[i] && s[i + 1] == a[i + 1];
      }
    }
  }

  /** No line break at all. */
  ghost predicate OneLine(s: string) {
    forall i | 0 <= i < |s| :: s[i] != '\n'
  }

  ghost predicate EndsOpen(s: string) {
    s != [] && s[|s| - 1] != '\n'
  }

  lemma ValueNoEmptyLine(cls: Classes, values: seq<string>, last: bool)
    requires values != [] && LinesOk(cls, values, last)
    ensures NoEmptyLine(values[0]) && (!last || |values| > 1 ==> OneLine(values[0]))
  {
    var v := values[0];
  }

  lemma {:induction false} IndentedNoEmptyLine(indent: string, cls: Classes, values: seq<string>, last: bool)
    requires Sane(cls) && IndentOk(cls, indent) && LinesOk(cls, values, last)
    ensures NoEmptyLine(Indented(indent, values)) && (values != [] && !last ==> EndsOpen(Indented(indent, values)))
  {
    if values != [] {
      var v := values[0];
      var lead := "\n" + indent;
      assert NoEmptyLine(lead) && EndsOpen(lead);
      ValueNoEmptyLine(cls, values, last);
      NoEmptyLineConcat(lead, v);
      var head := lead + v;
      if |values| == 1 {
        assert Indented(indent, values) == head;
        if !last { OpenConcat(lead, v); }
      } else {
        LinesOkFrom(cls, values, last, 1);
        IndentedNoEmptyLine(indent, cls, values[1..], last);
        OpenConcat(lead, v);
        NoEmptyLineConcat(head, Indented(indent, values[1..]));
      }
    }
  }

  lemma OpenConcat(a: string, b: string)
    requires EndsOpen(a) && OneLine(b)
    ensures EndsOpen(a + b)
  {
    if b != [] { assert (a + b)[|a + b| - 1] == b[|b| - 1]; } else { assert a + b == a; }
  }

  lemma SeparatorOneLine(cls: Classes, separators: string, sep: string)
    requires Sane(cls) && SeparatorOk(cls, separators, sep)
    ensures OneLine(sep)
  {
    forall i | 0 <= i < |sep|
      ensures sep[i] != '\n'
    {
      if i < Blanks(cls, sep) { SpanBelow(cls.blank, sep, i); }
    }
  }

  lemma DisplayNoEmptyLine(indent: string, cls: Classes, separators: string, e: Entry, last: bool)
    requires Sane(cls) && IndentOk(cls, indent) && EntryOk(cls, separators, e, last)
    ensures NoEmptyLine(Display(indent, e)) && (!last ==> EndsOpen(Display(indent, e)))
  {
    var values := e.trailer.values;
    var head := e.trailer.token + e.separator;
    TokenOneLine(cls, e.trailer.token);
    SeparatorOneLine(cls, separators, e.separator);
    assert OneLine(head) && EndsOpen(head);
    if values == [] {
      assert Display(indent, e) == head;
    } else {
      ValueNoEmptyLine(cls, values, last);
      NoEmptyLineConcat(head, values[0]);
      var line := head + values[0];
      if |values| == 1 {
        assert Display(indent, e) == line;
        if !last { OpenConcat(head, values[0]); }
      } else {
        OpenConcat(head, values[0]);
        LinesOkFrom(cls, values, last, 1);
        IndentedNoEmptyLine(indent, cls, values[1..], last);
        NoEmptyLineConcat(line, Indented(indent, values[1..]));
        assert Display(indent, e) == line + Indented(indent, values[1..]);
      }
    }
  }

  lemma TokenOneLine(cls: Classes, token: string)
    requires Sane(cls) && TokenOk(cls, token)
    ensures OneLine(token)
  {
    forall i | 0 <= i < |token|
      ensures token[i] != '\n'
    {
      assert TokenChar(cls, token[i]);
    }
  }

  lemma {:induction false} DisplayManyNoEmptyLine(indent: string, cls: Classes, separators: string, entries: seq<Entry>)
    requires Sane(cls) && IndentOk(cls, indent) && EntriesOk(cls, separators, entries)
    ensures NoEmptyLine(DisplayMany(indent, entries))
  {
    DisplayNoEmptyLine(indent, cls, separators, entries[0], |entries| == 1);
    if |entries| > 1 {
      var rest := DisplayMany(indent, entries[1..]);
      EntriesOkFrom(cls, separators, entries, 1);
      DisplayManyNoEmptyLine(indent, cls, separators, entries[1..]);
      DisplayStart(indent, cls, separators, entries[1..]);
      BreakBetween(Display(indent, entries[0]), rest);
    }
  }

  lemma BreakBetween(a: string, b: string)
    requires NoEmptyLine(a) && EndsOpen(a) && NoEmptyLine(b) && b != [] && b[0] != '\n'
    ensures NoEmptyLine(a + "\n" + b)
  {
    NoEmptyLineConcat(a, "\n");
    NoEmptyLineConcat(a + "\n", b);
  }

  /** The number of line breaks right before `n`, down to `from`. */
  function BreaksBefore(s: string, from: nat, n: nat): nat
    requires n <= |s|
  {
    if n > from && s[n - 1] == '\n' then 1 + BreaksBefore(s, from, n - 1) else 0
  }

  function EndingBreaks(s: string): nat {
    BreaksBefore(s, 0, |s|)
  }

  ghost function Last<T>(s: seq<T>): T
    requires s != []
  {
    s[|s| - 1]
  }

  /** The paragraph after an empty line is the last one; if an odd number of line breaks stands
      before that empty line, one of them is left over in front of the paragraph. */
  lemma {:induction false} LastParagraph(s: string, from: nat, n: nat)
    requires from <= n && n + 2 < |s| && EmptyLineAt(s, n) && s[n + 2] != '\n'
    requires forall i | n + 2 <= i :: !EmptyLineAt(s, i)
    ensures Last(Paragraphs(s, from)) == if BreaksBefore(s, from, n) % 2 == 0 then s[n + 2..] else s[n + 1..]
    decreases |s| - from
  {
    var i := FindEmptyLine(s, from).value;
    if i + 2 <= n {
      NextParagraph(s, from, i);
      SkipKeepsParity(s, from, i, n);
      LastParagraph(s, i + 2, n);
    } else {
      FinalParagraph(s, from, i, n);
    }
  }

  lemma FinalParagraph(s: string, from: nat, i: nat, n: nat)
    requires from <= n && n + 2 < |s| && EmptyLineAt(s, n) && s[n + 2] != '\n'
    requires forall i | n + 2 <= i :: !EmptyLineAt(s, i)
    requires FindEmptyLine(s, from) == Some(i) && i <= n < i + 2
    ensures Last(Paragraphs(s, from)) == if BreaksBefore(s, from, n) % 2 == 0 then s[n + 2..] else s[n + 1..]
  {
    NextParagraph(s, from, i);
    OnlyParagraph(s, i + 2);
    BreaksAtSplit(s, from, i, n);
  }

  lemma BreaksAtSplit(s: string, from: nat, i: nat, n: nat)
    requires FindEmptyLine(s, from) == Some(i) && i <= n < i + 2 && n <= |s|
    ensures BreaksBefore(s, from, n) == n - i
  {
    NoBreaksBefore(s, from, i);
  }

  lemma NextParagraph(s: string, from: nat, i: nat)
    requires from <= |s| && FindEmptyLine(s, from) == Some(i)
    ensures Last(Paragraphs(s, from)) == Last(Paragraphs(s, i + 2))
  {
  }

  lemma OnlyParagraph(s: string, from: nat)
    requires from <= |s| && forall i | from <= i :: !EmptyLineAt(s, i)
    ensures Last(Paragraphs(s, from)) == s[from..]
  {
  }

  lemma NoBreaksBefore(s: string, from: nat, i: nat)
    requires FindEmptyLine(s, from) == Some(i)
    ensures BreaksBefore(s, from, i) == 0
  {
    if i > from { assert !EmptyLineAt(s, i - 1); }
  }

  /** Cutting after the first empty line keeps the parity of the line breaks before `n`. */
  lemma {:induction false} SkipKeepsParity(s: string, from: nat, i: nat, n: nat)
    requires FindEmptyLine(s, from) == Some(i) && i + 2 <= n <= |s|
    ensures BreaksBefore(s, from, n) % 2 == BreaksBefore(s, i + 2, n) % 2
  {
    if n == i + 2 {
      NoBreaksBefore(s, from, i);
      assert BreaksBefore(s, from, i + 1) == 1;
    } else if s[n - 1] == '\n' {
      SkipKeepsParity(s, from, i, n - 1);
    }
  }

  lemma {:induction false} SameBreaks(s: string, t: string, n: nat)
    requires n <= |s| && n <= |t| && s[..n] == t[..n]
    ensures BreaksBefore(s, 0, n) == BreaksBefore(t, 0, n)
  {
    if n > 0 {
      assert s[n - 1] == s[..n][n - 1] && t[n - 1] == t[..n][n - 1];
      assert s[..n - 1] == s[..n][..n - 1] && t[..n - 1] == t[..n][..n - 1];
      SameBreaks(s, t, n - 1);
    }
  }

  // ---------- Trimming the message ----------

  lemma {:induction false} TrimConcat(cls: Classes, a: string, b: string)
    requires TrimEnd(cls, b) != []
    ensures TrimEnd(cls, a + b) == a + TrimEnd(cls, b)
  {
    if cls.whitespace(b[|b| - 1]) {
      assert (a + b)[..|a + b| - 1] == a + b[..|b| - 1];
      TrimConcat(cls, a, b[..|b| - 1]);
    }
  }

  lemma {:induction false} TrimSeparator(cls: Classes, separators: string, sep: string, n: nat)
    requires Sane(cls) && SeparatorOk(cls, separators, sep) && Blanks(cls, sep) < n <= |sep|
    ensures TrimEnd(cls, sep[..n]) == sep[..Blanks(cls, sep) + 1]
  {
    if n > Blanks(cls, sep) + 1 {
      assert cls.blank(sep[n - 1]);
      assert sep[..n][..n - 1] == sep[..n - 1];
      TrimSeparator(cls, separators, sep, n - 1);
    }
  }

  lemma CutSeparator(cls: Classes, separators: string, sep: string)
    requires Sane(cls) && SeparatorOk(cls, separators, sep)
    ensures SeparatorOk(cls, separators, sep[..Blanks(cls, sep) + 1])
  {
    var n := Blanks(cls, sep);
    var cut := sep[..n + 1];
    forall i | 0 <= i < n
      ensures cls.blank(cut[i])
    {
      SpanBelow(cls.blank, sep, i);
    }
    SpanIs(cls.blank, cut, n);
  }

  /** Trimming a rendered trailer at most cuts the blanks after its separator. */
  lemma TrimDisplay(indent: string, cls: Classes, separators: string, e: Entry) returns (cut: Entry)
    requires Sane(cls) && EntryOk(cls, separators, e, true) && EndOk(cls, e.trailer.values)
    ensures EntryOk(cls, separators, cut, true) && cut.trailer == e.trailer
            && TrimEnd(cls, Display(indent, e)) == Display(indent, cut)
  {
    var sep := e.separator;
    var values := e.trailer.values;
    if values == [] {
      cut := e.(separator := sep[..Blanks(cls, sep) + 1]);
      CutSeparator(cls, separators, sep);
      TrimSeparator(cls, separators, sep, |sep|);
      assert sep[..|sep|] == sep;
      TrimConcat(cls, e.trailer.token, sep);
      assert Display(indent, e) == e.trailer.token + sep;
      assert Display(indent, cut) == e.trailer.token + cut.separator;
    } else {
      cut := e;
      JoinedEnd(indent, values);
      assert Display(indent, e)[|Display(indent, e)| - 1] == Joined(indent, values)[|Joined(indent, values)| - 1];
    }
  }

  lemma {:induction false} IndentedEnd(indent: string, values: seq<string>)
    requires values != [] && Last(values) != []
    ensures Indented(indent, values) != [] && Last(Indented(indent, values)) == Last(Last(values))
  {
    if |values| == 1 {
      assert Indented(indent, values) == "\n" + indent + values[0];
    } else {
      IndentedEnd(indent, values[1..]);
    }
  }

  lemma JoinedEnd(indent: string, values: seq<string>)
    requires values != [] && Last(values) != []
    ensures Joined(indent, values) != [] && Last(Joined(indent, values)) == Last(Last(values))
  {
    if |values| > 1 { IndentedEnd(indent, values[1..]); } else { assert Joined(indent, values) == values[0]; }
  }

  lemma {:induction false} TrimDisplayMany(indent: string, cls: Classes, separators: string, entries: seq<Entry>)
    returns (cut: seq<Entry>)
    requires Sane(cls) && EntriesOk(cls, separators, entries) && EndOk(cls, Last(entries).trailer.values)
    ensures EntriesOk(cls, separators, cut) && TrailersOf(cut) == TrailersOf(entries)
    ensures TrimEnd(cls, DisplayMany(indent, entries)) == DisplayMany(indent, cut)
  {
    assert EntryOk(cls, separators, entries[0], |entries| == 1);
    if |entries| == 1 {
      var e := TrimDisplay(indent, cls, separators, entries[0]);
      cut := [e];
      assert TrailersOf(cut) == TrailersOf(entries);
    } else {
      var rest := entries[1..];
      EntriesOkFrom(cls, separators, entries, 1);
      var more := TrimDisplayMany(indent, cls, separators, rest);
      DisplayStart(indent, cls, separators, more);
      TrimConcat(cls, Display(indent, entries[0]) + "\n", DisplayMany(indent, rest));
      cut := [entries[0]] + more;
      SameTrailers(entries, more);
      EntriesOkCons(cls, separators, entries[0], more);
      assert cut[1..] == more;
    }
  }

  lemma EntriesOkCons(cls: Classes, separators: string, e: Entry, more: seq<Entry>)
    requires EntryOk(cls, separators, e, false) && EntriesOk(cls, separators, more)
    ensures EntriesOk(cls, separators, [e] + more)
  {
    var all := [e] + more;
    forall i | 0 <= i < |all| ensures EntryOk(cls, separators, all[i], i == |all| - 1) {
      if i > 0 { assert all[i] == more[i - 1]; }
    }
  }

  lemma SameTrailers(entries: seq<Entry>, more: seq<Entry>)
    requires |entries| > 1 && TrailersOf(more) == TrailersOf(entries[1..])
    ensures TrailersOf([entries[0]] + more) == TrailersOf(entries) && more != []
  {
    assert |more| == |TrailersOf(more)| == |entries| - 1;
    var all := [entries[0]] + more;
    forall i | 0 <= i < |entries|
      ensures TrailersOf(all)[i] == TrailersOf(entries)[i]
    {
      if i > 0 { assert TrailersOf(more)[i - 1] == TrailersOf(entries[1..])[i - 1]; }
    }
  }

  // ---------- The round trip ----------

  /** Parsing a message that ends in an empty line and rendered trailers gives those trailers, but
      for first values that are empty, when the number of line breaks before that empty line is
      even; when it is odd nothing is parsed. */
  lemma ParseDisplayNormal(indent: string, cls: Classes, separators: string, prefix: string, entries: seq<Entry>)
    requires Sane(cls) && IndentOk(cls, indent) && EntriesOk(cls, separators, entries)
             && EndOk(cls, Last(entries).trailer.values)
    ensures var r := Parse(cls, prefix + "\n\n" + DisplayMany(indent, entries), separators);
            if EndingBreaks(prefix) % 2 == 0 then r == Ok(NormalOf(entries)) else r.Err?
  {
    var cut := TrimDisplayMany(indent, cls, separators, entries);
    var body := DisplayMany(indent, cut);
    DisplayStart(indent, cls, separators, cut);
    DisplayManyNoEmptyLine(indent, cls, separators, cut);
    LastOfMessage(cls, prefix, DisplayMany(indent, entries), body);
    if EndingBreaks(prefix) % 2 == 0 {
      ParagraphBack(indent, cls, separators, cut);
      SameNormal(cut, entries);
    } else {
      BreakFirst(cls, separators, body);
    }
  }

  lemma SameNormal(a: seq<Entry>, b: seq<Entry>)
    requires TrailersOf(a) == TrailersOf(b)
    ensures NormalOf(a) == NormalOf(b)
  {
    assert |a| == |TrailersOf(a)| == |b|;
    forall i | 0 <= i < |a| ensures NormalOf(a)[i] == NormalOf(b)[i] {
      assert TrailersOf(a)[i] == TrailersOf(b)[i];
    }
  }

  lemma LastOfMessage(cls: Classes, prefix: string, text: string, body: string)
    requires TrimEnd(cls, text) == body && body != [] && body[0] != '\n' && NoEmptyLine(body)
    ensures Last(Paragraphs(TrimEnd(cls, prefix + "\n\n" + text), 0))
            == if EndingBreaks(prefix) % 2 == 0 then body else "\n" + body
  {
    TrimConcat(cls, prefix + "\n\n", text);
    var s := prefix + "\n\n" + body;
    MessageShape(prefix, body);
    LastParagraph(s, 0, |prefix|);
    SameBreaks(s, prefix, |prefix|);
  }

  lemma MessageShape(prefix: string, body: string)
    requires body != [] && body[0] != '\n' && NoEmptyLine(body)
    ensures var s, n := prefix + "\n\n" + body, |prefix|;
            && n + 2 < |s| && EmptyLineAt(s, n) && s[n + 2] != '\n' && (forall i | n + 2 <= i :: !EmptyLineAt(s, i))
            && s[..n] == prefix[..n] && s[n + 1..] == "\n" + body && s[n + 2..] == body
  {
    var s := prefix + "\n\n" + body;
    var n := |prefix|;
    assert s[n + 2..] == body;
    forall i | n + 2 <= i
      ensures !EmptyLineAt(s, i)
    {
      if i + 2 <= |s| { assert s[i] == body[i - n - 2] && s[i + 1] == body[i - n - 1]; }
    }
  }

  lemma BreakFirst(cls: Classes, separators: string, s: string)
    requires Sane(cls)
    ensures ParseTrailers(cls, separators, "\n" + s) == ("\n" + s, [])
  {
    SpanIs(c => TokenChar(cls, c), "\n" + s, 0);
  }

  /** Text that does not end in a line break is followed by an even number of them: none. */
  lemma PlainText(prefix: string)
    requires prefix != [] ==> Last(prefix) != '\n'
    ensures EndingBreaks(prefix) % 2 == 0
  {
  }

  /** What the original renders with is covered. */
  lemma UsualLayout(cls: Classes)
    requires Sane(cls) && !TokenChar(cls, ':') && !cls.whitespace(':')
    ensures IndentOk(cls, INDENT) && SeparatorOk(cls, ":", ": ")
  {
    SpanIs(cls.blank, ": ", 0);
  }

  // ---------- What parsing makes of any text ----------

  /** A line ends at its line ending, and all of the text is one line if the first line ending
      character is no line ending, or if there is none. */
  lemma UntilEolSplits(s: string) returns (eol: string)
    ensures s == UntilEol(s).1 + eol + UntilEol(s).0
    ensures eol == "\n" || eol == "\r\n" ==> forall i | 0 <= i < |UntilEol(s).1| :: InLine(UntilEol(s).1[i])
    ensures eol == "\n" || eol == "\r\n" || (eol == [] && UntilEol(s) == ([], s))
  {
    var n := Span(InLine, s);
    forall i | 0 <= i < n
      ensures InLine(s[i])
    {
      SpanBelow(InLine, s, i);
    }
    if n < |s| && s[n] == '\n' {
      eol := "\n";
    } else if n + 1 < |s| && s[n] == '\r' && s[n + 1] == '\n' {
      eol := "\r\n";
    } else {
      eol := [];
    }
  }

  function JoinParagraphs(ps: seq<string>): string
    requires ps != []
  {
    if |ps| == 1 then ps[0] else ps[0] + "\n\n" + JoinParagraphs(ps[1..])
  }

  /** Paragraphs are what stands between empty lines. */
  lemma {:induction false} ParagraphsJoin(s: string, from: nat)
    requires from <= |s|
    ensures JoinParagraphs(Paragraphs(s, from)) == s[from..]
    decreases |s| - from
  {
    match FindEmptyLine(s, from) {
      case None =>
      case Some(i) =>
        ParagraphsJoin(s, i + 2);
        assert Paragraphs(s, from)[1..] == Paragraphs(s, i + 2);
        assert s[from..] == s[from..i] + "\n\n" + s[i + 2..];
    }
  }

  ghost predicate AllOk<T(!new)>(ok: T -> bool, xs: seq<T>) {
    forall i | 0 <= i < |xs| :: ok(xs[i])
  }

  lemma {:induction false} ManyOk<T(!new)>(p: Parser<T>, ok: T -> bool, s: string)
    requires Shrinks(p) && forall s :: p(s).Some? ==> ok(p(s).value.1)
    ensures AllOk(ok, Many(p, s).1)
    decreases |s|
  {
    if p(s).Some? {
      ManyOk(p, ok, p(s).value.0);
    }
  }

  ghost function HasToken(cls: Classes): Trailer -> bool {
    (t: Trailer) => TokenOk(cls, t.token)
  }

  lemma TrailerHasToken(cls: Classes, separators: string, s: string)
    requires ParseTrailer(cls, separators, s).Some?
    ensures TokenOk(cls, ParseTrailer(cls, separators, s).value.1.token)
  {
    var n := Span(c => TokenChar(cls, c), s);
    forall i | 0 <= i < n
      ensures TokenChar(cls, s[i])
    {
      SpanBelow(c => TokenChar(cls, c), s, i);
    }
  }

  /** Whatever the message, every trailer that is parsed has a token of token characters. */
  lemma ParsedTokens(cls: Classes, separators: string, message: string)
    requires Parse(cls, message, separators).Ok?
    ensures AllOk(HasToken(cls), Parse(cls, message, separators).value)
  {
    TokensRead(cls, separators, Last(Paragraphs(TrimEnd(cls, message), 0)));
  }

  lemma TokensRead(cls: Classes, separators: string, s: string)
    ensures AllOk(HasToken(cls), ParseTrailers(cls, separators, s).1)
  {
    var p := TrailerParser(cls, separators);
    forall t | p(t).Some? ensures HasToken(cls)(p(t).value.1) {
      TrailerHasToken(cls, separators, t);
    }
    ManyOk(p, HasToken(cls), s);
  }

  // ---------- The values of any message ----------

  /** What is left of a paragraph at the end of a message: no empty line, no white space at its
      end. */
  ghost predicate Tidy(cls: Classes, s: string) {
    NoEmptyLine(s) && (s != [] ==> !cls.whitespace(s[|s| - 1]))
  }

  lemma TidyFrom(cls: Classes, s: string, n: nat)
    requires Tidy(cls, s) && n <= |s|
    ensures Tidy(cls, s[n..])
  {
    forall i | 0 <= i < |s[n..]| - 1
      ensures !(s[n..][i] == '\n' && s[n..][i + 1] == '\n')
    {
      assert s[n..][i] == s[n + i] && s[n..][i + 1] == s[n + i + 1];
    }
  }

  /** A line ends at a line ending, or it is all there is. */
  lemma LineRead(cls: Classes, s: string)
    requires Sane(cls) && Tidy(cls, s) && (s != [] ==> !cls.blank(s[0]))
    ensures Tidy(cls, UntilEol(s).0)
    ensures if UntilEol(s).0 == [] then UntilEol(s) == ([], s) && Whole(cls, s) else ValueOk(cls, UntilEol(s).1)
  {
    var eol := UntilEolSplits(s);
    var (rest, line) := UntilEol(s);
    TidyFrom(cls, s, |line + eol|);
    assert rest == s[|line + eol|..];
    if eol != [] {
      assert s[|line + eol| - 1] == '\n';
      assert line != [] ==> line[0] == s[0];
    }
  }

  /** A line, and what follows it. */
  ghost predicate LineGood(cls: Classes, rest: string, v: string) {
    Tidy(cls, rest) && if rest == [] then Whole(cls, v) && EndOk(cls, [v]) else ValueOk(cls, v)
  }

  /** Values, and what follows them. */
  ghost predicate LinesGood(cls: Classes, rest: string, values: seq<string>) {
    Tidy(cls, rest) && LinesOk(cls, values, rest == []) && (rest == [] ==> EndOk(cls, values))
  }

  lemma IndentedLineRead(cls: Classes, s: string)
    requires Sane(cls) && Tidy(cls, s) && IndentedLine(cls, s).Some?
    ensures LineGood(cls, IndentedLine(cls, s).value.0, IndentedLine(cls, s).value.1)
  {
    var n := Blanks(cls, s);
    if n == |s| { SpanBelow(cls.blank, s, n - 1); } else { SpanEnds(cls.blank, s); }
    TidyFrom(cls, s, n);
    LineRead(cls, s[n..]);
  }

  lemma LinesGoodCons(cls: Classes, rest: string, v: string, more: seq<string>)
    requires ValueOk(cls, v) && LinesGood(cls, rest, more) && (more == [] ==> rest != [])
    ensures LinesGood(cls, rest, [v] + more)
  {
    var all := [v] + more;
    forall i | 0 <= i < |all|
      ensures if rest == [] && i == |all| - 1 then Whole(cls, all[i]) else ValueOk(cls, all[i])
    {
      if i > 0 { assert all[i] == more[i - 1]; }
    }
  }

  lemma NothingLeft<T(!new)>(p: Parser<T>)
    requires Shrinks(p)
    ensures Many(p, []) == ([], [])
  {
    assert p([]).None?;
  }

  lemma {:induction false} LinesRead(cls: Classes, p: Parser<string>, s: string)
    requires Shrinks(p) && Tidy(cls, s)
    requires forall t | Tidy(cls, t) && p(t).Some? :: LineGood(cls, p(t).value.0, p(t).value.1)
    ensures LinesGood(cls, Many(p, s).0, Many(p, s).1)
    decreases |s|
  {
    if p(s).Some? {
      var (rest, v) := p(s).value;
      if rest == [] {
        NothingLeft(p);
      } else {
        LinesRead(cls, p, rest);
        LinesGoodCons(cls, Many(p, rest).0, v, Many(p, rest).1);
      }
    }
  }

  lemma LineParserGood(cls: Classes)
    requires Sane(cls)
    ensures forall t | Tidy(cls, t) && LineParser(cls)(t).Some? ::
              LineGood(cls, LineParser(cls)(t).value.0, LineParser(cls)(t).value.1)
  {
    forall t | Tidy(cls, t) && LineParser(cls)(t).Some?
      ensures LineGood(cls, LineParser(cls)(t).value.0, LineParser(cls)(t).value.1)
    {
      IndentedLineRead(cls, t);
    }
  }

  lemma ValuesRead(cls: Classes, s: string)
    requires Sane(cls) && Tidy(cls, s) && (s != [] ==> !cls.blank(s[0]))
    ensures LinesGood(cls, Values(cls, s).0, Values(cls, s).1)
  {
    var (rest, line) := UntilEol(s);
    var p := LineParser(cls);
    LineRead(cls, s);
    if rest == [] {
      NothingLeft(p);
    } else {
      LineParserGood(cls);
      LinesRead(cls, p, rest);
      if line != [] { LinesGoodCons(cls, Many(p, rest).0, line, Many(p, rest).1); }
    }
  }

  /** A separator leaves an end of the text, which does not begin with a blank. */
  lemma SeparatorRead(cls: Classes, separators: string, s: string)
    requires Sane(cls) && Tidy(cls, s) && Separator(cls, separators, s).Some?
    ensures var r := Separator(cls, separators, s).value; Tidy(cls, r) && (r != [] ==> !cls.blank(r[0]))
  {
    var r := s[Blanks(cls, s)..];
    TidyFrom(cls, s, Blanks(cls, s));
    TidyFrom(cls, r, 1);
    TidyFrom(cls, r[1..], Blanks(cls, r[1..]));
    if Blanks(cls, r[1..]) < |r[1..]| { SpanEnds(cls.blank, r[1..]); }
  }

  lemma TrailerRead(cls: Classes, separators: string, s: string)
    requires Sane(cls) && Tidy(cls, s) && ParseTrailer(cls, separators, s).Some?
    ensures LinesGood(cls, ParseTrailer(cls, separators, s).value.0, ParseTrailer(cls, separators, s).value.1.values)
  {
    var (rest, token) := Token(cls, s).value;
    TidyFrom(cls, s, |token|);
    SeparatorRead(cls, separators, rest);
    ValuesRead(cls, Separator(cls, separators, rest).value);
  }

  /** Trailers whose values have no line breaks or indentation, but for the last of all. */
  ghost predicate Shaped(cls: Classes, trailers: seq<Trailer>, last: bool) {
    && (forall i {:trigger trailers[i]} | 0 <= i < |trailers| ::
        LinesOk(cls, trailers[i].values, last && i == |trailers| - 1))
    && (last && trailers != [] ==> EndOk(cls, Last(trailers).values))
  }

  lemma {:induction false} TrailersRead(cls: Classes, p: Parser<Trailer>, s: string)
    requires Shrinks(p) && Tidy(cls, s)
    requires forall t | Tidy(cls, t) && p(t).Some? :: LinesGood(cls, p(t).value.0, p(t).value.1.values)
    ensures Shaped(cls, Many(p, s).1, Many(p, s).0 == [])
    decreases |s|
  {
    if p(s).Some? {
      var (rest, t) := p(s).value;
      TrailersRead(cls, p, rest);
      if rest == [] { NothingLeft(p); }
      ShapedCons(cls, t, Many(p, rest).1, rest == [], Many(p, rest).0 == []);
    }
  }

  lemma ShapedCons(cls: Classes, t: Trailer, more: seq<Trailer>, only: bool, last: bool)
    requires LinesOk(cls, t.values, only) && (only ==> EndOk(cls, t.values))
    requires Shaped(cls, more, last) && (if more == [] then only == last else !only)
    ensures Shaped(cls, [t] + more, last)
  {
    var all := [t] + more;
    forall i | 0 <= i < |all|
      ensures LinesOk(cls, all[i].values, last && i == |all| - 1)
    {
      if i > 0 { assert all[i] == more[i - 1]; }
    }
    if more != [] { assert Last(all) == Last(more); }
  }

  lemma {:induction false} TrimmedEnd(cls: Classes, s: string)
    ensures var t := TrimEnd(cls, s); t != [] ==> !cls.whitespace(t[|t| - 1])
  {
    if s != [] && cls.whitespace(s[|s| - 1]) { TrimmedEnd(cls, s[..|s| - 1]); }
  }

  /** The last paragraph has no empty line, and ends where the text ends. */
  lemma {:induction false} LastIsTidy(cls: Classes, s: string, from: nat)
    requires from <= |s| && (s != [] ==> !cls.whitespace(s[|s| - 1]))
    ensures Tidy(cls, Last(Paragraphs(s, from)))
    decreases |s| - from
  {
    match FindEmptyLine(s, from) {
      case None =>
        forall i | 0 <= i < |s[from..]| - 1
          ensures !(s[from..][i] == '\n' && s[from..][i + 1] == '\n')
        {
          assert !EmptyLineAt(s, from + i);
        }
      case Some(i) =>
        LastIsTidy(cls, s, i + 2);
    }
  }

  /** Whatever the message, the values that are parsed have no line breaks or indentation; only
      the last of all may hold line breaks, after a carriage return that is no line ending, and it
      does not end in white space. */
  lemma ParsedValues(cls: Classes, separators: string, message: string)
    requires Sane(cls) && Parse(cls, message, separators).Ok?
    ensures Shaped(cls, Parse(cls, message, separators).value, true)
  {
    var s := TrimEnd(cls, message);
    var p := TrailerParser(cls, separators);
    TrimmedEnd(cls, message);
    LastIsTidy(cls, s, 0);
    forall t | Tidy(cls, t) && p(t).Some?
      ensures LinesGood(cls, p(t).value.0, p(t).value.1.values)
    {
      TrailerRead(cls, separators, t);
    }
    TrailersRead(cls, p, Last(Paragraphs(s, 0)));
  }

  // ---------- Exactly the trailers that are read back ----------

  ghost predicate FirstsOk(entries: seq<Entry>) {
    forall i {:trigger entries[i]} | 0 <= i < |entries| :: var vs := entries[i].trailer.values; vs != [] ==> vs[0] != []
  }

  /** Tokens of token characters; values without line breaks or indentation, the first of each
      trailer not empty; and at the very end no white space. */
  ghost predicate Faithful(cls: Classes, separators: string, entries: seq<Entry>) {
    EntriesOk(cls, separators, entries) && EndOk(cls, Last(entries).trailer.values) && FirstsOk(entries)
  }

  lemma NormalIff(entries: seq<Entry>)
    ensures NormalOf(entries) == TrailersOf(entries) <==> FirstsOk(entries)
  {
    if NormalOf(entries) == TrailersOf(entries) {
      forall i | 0 <= i < |entries|
        ensures Normal(entries[i].trailer) == entries[i].trailer
      {
        assert NormalOf(entries)[i] == TrailersOf(entries)[i];
      }
    }
  }

  lemma ReadIsOk(cls: Classes, separators: string, entries: seq<Entry>)
    requires entries != [] && forall i {:trigger entries[i]} | 0 <= i < |entries| ::
               SeparatorOk(cls, separators, entries[i].separator)
    requires AllOk(HasToken(cls), TrailersOf(entries)) && Shaped(cls, TrailersOf(entries), true)
    ensures EntriesOk(cls, separators, entries) && EndOk(cls, Last(entries).trailer.values)
  {
    var ts := TrailersOf(entries);
    assert Last(ts) == Last(entries).trailer;
    forall i | 0 <= i < |entries|
      ensures EntryOk(cls, separators, entries[i], i == |entries| - 1)
    {
      assert ts[i] == entries[i].trailer && HasToken(cls)(ts[i]);
    }
  }

  /** Parsing a message that ends in an empty line and rendered trailers gives back exactly these
      trailers if and only if they are faithful and the number of line breaks before that empty
      line is even. */
  lemma ParseDisplay(indent: string, cls: Classes, separators: string, prefix: string, entries: seq<Entry>)
    requires Sane(cls) && IndentOk(cls, indent) && entries != []
    requires forall i {:trigger entries[i]} | 0 <= i < |entries| :: SeparatorOk(cls, separators, entries[i].separator)
    ensures Parse(cls, prefix + "\n\n" + DisplayMany(indent, entries), separators) == Ok(TrailersOf(entries))
            <==> EndingBreaks(prefix) % 2 == 0 && Faithful(cls, separators, entries)
  {
    var message := prefix + "\n\n" + DisplayMany(indent, entries);
    NormalIff(entries);
    if Parse(cls, message, separators) == Ok(TrailersOf(entries)) {
      ParsedTokens(cls, separators, message);
      ParsedValues(cls, separators, message);
      ReadIsOk(cls, separators, entries);
      ParseDisplayNormal(indent, cls, separators, prefix, entries);
    } else if Faithful(cls, separators, entries) {
      ParseDisplayNormal(indent, cls, separators, prefix, entries);
    }
  }
}
