/** The canonical JSON formatter: an event machine with a stack of object buffers that writes
    every object with sorted keys (link-canonical/src/formatter.rs). */
module CanonicalJson {
  import opened Prelude

  /** Bytes, one character each. */
  type Bytes = string

  // ---------- Values ----------

  datatype CharEscape =
    | Quote | ReverseSolidus | Solidus | Backspace | FormFeed | LineFeed | CarriageReturn | Tab
    | AsciiControl(code: nat)

  /** A string as the serializer hands it over: runs of plain text, and escaped characters. */
  datatype Part = Text(text: string) | Escaped(escape: CharEscape)

  datatype Value =
    | Null
    | Bool(value: bool)
    | Integer(digits: Bytes)
    | NumberText(digits: Bytes)
    | Float(finite: bool)
    | Str(parts: seq<Part>)
    | Array(items: seq<Value>)
    | Object(members: seq<Member>)

  datatype Member = Member(key: seq<Part>, value: Value)

  /** No finite floating-point number anywhere; infinities and not-a-number are handed over as a
      null, and number texts are searched for a point or an exponent. */
  predicate FloatFree(v: Value) {
    match v
    case Float(finite) => !finite
    case NumberText(digits) => '.' !in digits && 'e' !in digits && 'E' !in digits
    case Array(items) => forall i | 0 <= i < |items| :: FloatFree(items[i])
    case Object(members) => FloatFreeMembers(members)
    case _ => true
  }

  predicate FloatFreeMembers(members: seq<Member>) {
    members == [] || (FloatFreeMembers(members[..|members| - 1]) && FloatFree(members[|members| - 1].value))
  }

  // ---------- The reference rendering ----------

  function HexDigit(n: nat): char
    requires n < 16
  {
    "0123456789abcdef"[n]
  }

  /** Section 7 of RFC 8259, with lower-case hexadecimal digits. */
  function EscapeBytes(e: CharEscape): Bytes {
    match e
    case Quote => "\\\""
    case ReverseSolidus => "\\\\"
    case Solidus => "\\/"
    case Backspace => "\\b"
    case FormFeed => "\\f"
    case LineFeed => "\\n"
    case CarriageReturn => "\\r"
    case Tab => "\\t"
    case AsciiControl(code) => "\\u00" + [HexDigit((code / 16) % 16), HexDigit(code % 16)]
  }

  /** Text is written in normalization form C; `nfc` gives the bytes of a run of text. */
  type Normalizer = string -> Bytes

  function PartBytes(nfc: Normalizer, p: Part): Bytes {
    match p
    case Text(text) => nfc(text)
    case Escaped(e) => EscapeBytes(e)
  }

  function PartsBytes(nfc: Normalizer, ps: seq<Part>): Bytes {
    if ps == [] then "" else PartsBytes(nfc, ps[..|ps| - 1]) + PartBytes(nfc, ps[|ps| - 1])
  }

  function StringBytes(nfc: Normalizer, ps: seq<Part>): Bytes {
    "\"" + PartsBytes(nfc, ps) + "\""
  }

  /** The bytes of a value: objects with the pairs of their sorted, deduplicated members. */
  function Render(nfc: Normalizer, v: Value): Bytes
    decreases v
  {
    match v
    case Null => "null"
    case Bool(b) => if b then "true" else "false"
    case Integer(digits) => digits
    case NumberText(digits) => digits
    case Float(_) => "null"
    case Str(parts) => StringBytes(nfc, parts)
    case Array(items) => "[" + ItemsBytes(nfc, items) + "]"
    case Object(members) => "{" + PairsBytes(Collect(nfc, members)) + "}"
  }

  function ItemsBytes(nfc: Normalizer, items: seq<Value>): Bytes
    decreases items
  {
    if items == [] then "" else
      ItemsBytes(nfc, items[..|items| - 1]) + (if |items| == 1 then "" else ",") + Render(nfc, items[|items| - 1])
  }

  /** The ordered map of rendered keys and values. */
  function Collect(nfc: Normalizer, members: seq<Member>): Pairs
    decreases members
  {
    if members == [] then [] else
      var last := members[|members| - 1];
      Put(Collect(nfc, members[..|members| - 1]), StringBytes(nfc, last.key), Render(nfc, last.value))
  }

  // ---------- Ordered maps ----------

  /** The contents of an ordered map, in order of the keys. */
  type Pairs = seq<(Bytes, Bytes)>

  predicate Less(a: Bytes, b: Bytes) {
    if b == [] then false
    else if a == [] then true
    else if a[0] == b[0] then Less(a[1..], b[1..])
    else a[0] < b[0]
  }

  function Put(m: Pairs, k: Bytes, v: Bytes): Pairs {
    if m == [] then [(k, v)]
    else if k == m[0].0 then [(k, v)] + m[1..]
    else if Less(k, m[0].0) then [(k, v)] + m
    else [m[0]] + Put(m[1..], k, v)
  }

  function PairsBytes(m: Pairs): Bytes {
    if m == [] then "" else
      PairsBytes(m[..|m| - 1]) + (if |m| == 1 then "" else ",") + m[|m| - 1].0 + ":" + m[|m| - 1].1
  }

  // ---------- The formatter ----------

  /** An object being built: what is done, and the member in progress. */
  datatype Building = Building(obj: Pairs, nextKey: Bytes, nextValue: Bytes, keyDone: bool)

  /** The open objects, and what was written outside of them. */
  datatype State = State(stack: seq<Building>, out: Bytes)

  /** `bytes` written where the formatter currently writes: the key or the value of the innermost
      open object, or the output. */
  function Written(s: State, bytes: Bytes): State {
    if s.stack == [] then s.(out := s.out + bytes) else
      var top := s.stack[|s.stack| - 1];
      s.(stack := s.stack[..|s.stack| - 1] +
                  [if top.keyDone then top.(nextValue := top.nextValue + bytes)
                   else top.(nextKey := top.nextKey + bytes)])
  }

  function Opened(s: State, b: Building): State {
    s.(stack := s.stack + [b])
  }

  lemma WrittenTwice(s: State, a: Bytes, b: Bytes)
    ensures Written(Written(s, a), b) == Written(s, a + b)
  {
    if s.stack == [] {
      assert s.out + a + b == s.out + (a + b);
    } else {
      var top := s.stack[|s.stack| - 1];
      assert top.nextValue + a + b == top.nextValue + (a + b);
      assert top.nextKey + a + b == top.nextKey + (a + b);
    }
  }

  lemma WrittenNothing(s: State)
    ensures Written(s, "") == s
  {
    assert s.out + "" == s.out;
    if s.stack != [] {
      var top := s.stack[|s.stack| - 1];
      assert top.nextValue + "" == top.nextValue && top.nextKey + "" == top.nextKey;
      assert s.stack[..|s.stack| - 1] + [top] == s.stack;
    }
  }

  /** Writing inside an open object touches its member in progress only. */
  lemma WrittenOpen(s: State, b: Building, bytes: Bytes)
    requires if b.keyDone then b.nextValue == "" else b.nextKey == ""
    ensures Written(Opened(s, b), bytes)
            == Opened(s, if b.keyDone then b.(nextValue := bytes) else b.(nextKey := bytes))
  {
    assert "" + bytes == bytes;
  }

  lemma {:induction false} FloatInside(members: seq<Member>, n: nat)
    requires n <= |members| && !FloatFreeMembers(members[..n])
    ensures !FloatFreeMembers(members)
  {
    if n < |members| {
      assert members[..|members| - 1][..n] == members[..n];
      FloatInside(members[..|members| - 1], n);
    } else {
      assert members[..n] == members;
    }
  }

  lemma WrittenPart(nfc: Normalizer, s: State, ps: seq<Part>, i: nat)
    requires i < |ps|
    ensures Written(Written(s, "\"" + PartsBytes(nfc, ps[..i])), PartBytes(nfc, ps[i]))
            == Written(s, "\"" + PartsBytes(nfc, ps[..i + 1]))
  {
    var quote: Bytes := "\"";
    var done, part := PartsBytes(nfc, ps[..i]), PartBytes(nfc, ps[i]);
    assert ps[..i + 1][..i] == ps[..i];
    assert quote + done + part == quote + (done + part);
    WrittenTwice(s, quote + done, part);
  }

  class CanonicalFormatter {
    const nfc: Normalizer
    var stack: seq<Building>
    var out: Bytes

    constructor (nfc: Normalizer)
      ensures this.nfc == nfc && View() == State([], "")
    {
      this.nfc, stack, out := nfc, [], "";
    }

    ghost function View(): State
      reads this
    {
      State(stack, out)
    }

    /** Appends to the buffer that the writer selection picks. */
    method Write(bytes: Bytes)
      modifies this
      ensures View() == Written(old(View()), bytes)
    {
      if stack == [] {
        out := out + bytes;
      } else {
        var top := stack[|stack| - 1];
        if top.keyDone {
          top := top.(nextValue := top.nextValue + bytes);
        } else {
          top := top.(nextKey := top.nextKey + bytes);
        }
        stack := stack[..|stack| - 1] + [top];
      }
    }

    method BeginObject()
      modifies this
      ensures View() == Opened(Written(old(View()), "{"), Building([], "", "", false))
    {
      Write("{");
      stack := stack + [Building([], "", "", false)];
    }

    /** Fails when no object is open. */
    method BeginObjectKey() returns (ok: bool)
      modifies this
      ensures ok <==> old(stack) != []
      ensures ok ==>
                View() == Opened(State(old(stack[..|stack| - 1]), old(out)), old(stack[|stack| - 1]).(keyDone := false))
      ensures !ok ==> View() == old(View())
    {
      ok := stack != [];
      if ok {
        stack := stack[..|stack| - 1] + [stack[|stack| - 1].(keyDone := false)];
      }
    }

    method EndObjectKey() returns (ok: bool)
      modifies this
      ensures ok <==> old(stack) != []
      ensures ok ==>
                View() == Opened(State(old(stack[..|stack| - 1]), old(out)), old(stack[|stack| - 1]).(keyDone := true))
      ensures !ok ==> View() == old(View())
    {
      ok := stack != [];
      if ok {
        stack := stack[..|stack| - 1] + [stack[|stack| - 1].(keyDone := true)];
      }
    }

    /** Moves the finished member into the object. */
    method EndObjectValue() returns (ok: bool)
      modifies this
      ensures ok <==> old(stack) != []
      ensures ok ==> View() == Opened(State(old(stack[..|stack| - 1]), old(out)), Inserted(old(stack[|stack| - 1])))
      ensures !ok ==> View() == old(View())
    {
      ok := stack != [];
      if ok {
        var top := stack[|stack| - 1];
        stack := stack[..|stack| - 1]
          + [top.(obj := Put(top.obj, top.nextKey, top.nextValue), nextKey := "", nextValue := "")];
      }
    }

    /** Closes the innermost object and writes its pairs in order where writing now goes. */
    method EndObject() returns (ok: bool)
      modifies this
      ensures ok <==> old(stack) != []
      ensures ok ==>
                View()
                  == Written(State(old(stack[..|stack| - 1]), old(out)), PairsBytes(old(stack[|stack| - 1]).obj) + "}")
      ensures !ok ==> View() == old(View())
    {
      if stack == [] {
        return false;
      }
      var pairs := stack[|stack| - 1].obj;
      stack := stack[..|stack| - 1];
      ghost var s := View();
      var first := true;
      WrittenNothing(s);
      for i := 0 to |pairs|
        invariant first <==> i == 0
        invariant View() == Written(s, PairsBytes(pairs[..i]))
      {
        var bytes := (if first then "" else ",") + pairs[i].0 + ":" + pairs[i].1;
        Write(bytes);
        WrittenTwice(s, PairsBytes(pairs[..i]), bytes);
        PairsAppend(pairs, i);
        first := false;
      }
      assert pairs[..|pairs|] == pairs;
      Write("}");
      WrittenTwice(s, PairsBytes(pairs), "}");
      ok := true;
    }

    // The call sequence of the serializer.

    method PlayString(ps: seq<Part>)
      modifies this
      ensures View() == Written(old(View()), StringBytes(nfc, ps))
    {
      ghost var s := View();
      Write("\"");
      assert "\"" + PartsBytes(nfc, ps[..0]) == "\"";
      for i := 0 to |ps|
        invariant View() == Written(s, "\"" + PartsBytes(nfc, ps[..i]))
      {
        Write(PartBytes(nfc, ps[i]));
        WrittenPart(nfc, s, ps, i);
      }
      assert ps[..|ps|] == ps;
      Write("\"");
      WrittenTwice(s, "\"" + PartsBytes(nfc, ps), "\"");
    }

    /** Serializing a value fails exactly on a finite floating-point number; otherwise it appends the
        rendering of the value where writing currently goes and changes nothing else. */
    method Play(v: Value) returns (ok: bool)
      modifies this
      ensures ok <==> FloatFree(v)
      ensures ok ==> View() == Written(old(View()), Render(nfc, v))
      decreases v, 2
    {
      match v {
        case Null => Write("null"); ok := true;
        case Bool(b) => Write(if b then "true" else "false"); ok := true;
        case Integer(digits) => Write(digits); ok := true;
        case NumberText(digits) =>
          ok := FloatFree(v);
          if ok { Write(digits); }
        case Float(finite) =>
          ok := !finite;
          if ok { Write("null"); }
        case Str(parts) => PlayString(parts); ok := true;
        case Array(items) => ok := PlayArray(v);
        case Object(members) => ok := PlayObject(v);
      }
    }

    method PlayArray(v: Value) returns (ok: bool)
      requires v.Array?
      modifies this
      ensures ok <==> FloatFree(v)
      ensures ok ==> View() == Written(old(View()), Render(nfc, v))
      decreases v, 1
    {
      ghost var s := View();
      Write("[");
      ok := PlayItems(v, s);
      if ok {
        Write("]");
        WrittenTwice(s, "[" + ItemsBytes(nfc, v.items), "]");
      }
    }

    method PlayItems(v: Value, ghost s: State) returns (ok: bool)
      requires v.Array? && View() == Written(s, "[")
      modifies this
      ensures ok <==> forall i :: 0 <= i < |v.items| ==> FloatFree(v.items[i])
      ensures ok ==> View() == Written(s, "[" + ItemsBytes(nfc, v.items))
      decreases v, 0
    {
      var items := v.items;
      assert "[" + ItemsBytes(nfc, items[..0]) == "[";
      for i := 0 to |items|
        invariant forall j :: 0 <= j < i ==> FloatFree(items[j])
        invariant View() == Written(s, "[" + ItemsBytes(nfc, items[..i]))
      {
        ghost var before := "[" + ItemsBytes(nfc, items[..i]);
        ghost var sep: Bytes := if i == 0 then "" else ",";
        if i > 0 {
          Write(",");
          WrittenTwice(s, before, ",");
        }
        assert before + "" == before;
        ok := Play(items[i]);
        if !ok { return; }
        WrittenTwice(s, before + sep, Render(nfc, items[i]));
        ItemsAppend(nfc, items, i);
      }
      assert items[..|items|] == items;
      ok := true;
    }

    method PlayObject(v: Value) returns (ok: bool)
      requires v.Object?
      modifies this
      ensures ok <==> FloatFree(v)
      ensures ok ==> View() == Written(old(View()), Render(nfc, v))
      decreases v, 1
    {
      ghost var s := View();
      BeginObject();
      ok := PlayMembers(v, Written(s, "{"));
      if ok {
        ghost var pairs := Collect(nfc, v.members);
        ok := EndObject();
        WrittenTwice(s, "{", PairsBytes(pairs) + "}");
        assert "{" + (PairsBytes(pairs) + "}") == "{" + PairsBytes(pairs) + "}";
      }
    }

    method PlayMembers(v: Value, ghost s: State) returns (ok: bool)
      requires v.Object? && View() == Opened(s, Building([], "", "", false))
      modifies this
      ensures ok <==> FloatFreeMembers(v.members)
      ensures ok ==> View() == Opened(s, Building(Collect(nfc, v.members), "", "", v.members != []))
      decreases v, 0
    {
      var members := v.members;
      for i := 0 to |members|
        invariant FloatFreeMembers(members[..i])
        invariant View() == Opened(s, Building(Collect(nfc, members[..i]), "", "", i > 0))
      {
        ok := PlayMember(members[i], s, Collect(nfc, members[..i]), i > 0);
        assert members[..i + 1][..i] == members[..i];
        if !ok {
          FloatInside(members, i + 1);
          return;
        }
      }
      assert members[..|members|] == members;
      ok := true;
    }

    method PlayMember(m: Member, ghost s: State, ghost done: Pairs, ghost b: bool) returns (ok: bool)
      requires View() == Opened(s, Building(done, "", "", b))
      modifies this
      ensures ok <==> FloatFree(m.value)
      ensures ok ==>
                View() == Opened(s, Building(Put(done, StringBytes(nfc, m.key), Render(nfc, m.value)), "", "", true))
      decreases m
    {
      ok := BeginObjectKey();
      PlayString(m.key);
      WrittenOpen(s, Building(done, "", "", false), StringBytes(nfc, m.key));
      ok := EndObjectKey();
      ok := Play(m.value);
      if !ok { return; }
      WrittenOpen(s, Building(done, StringBytes(nfc, m.key), "", true), Render(nfc, m.value));
      ok := EndObjectValue();
    }
  }

  lemma ItemsAppend(nfc: Normalizer, items: seq<Value>, i: nat)
    requires i < |items|
    ensures "[" + ItemsBytes(nfc, items[..i + 1])
         == "[" + ItemsBytes(nfc, items[..i]) + (if i == 0 then "" else ",") + Render(nfc, items[i])
  {
    assert items[..i + 1][..i] == items[..i];
  }

  function Inserted(b: Building): Building {
    b.(obj := Put(b.obj, b.nextKey, b.nextValue), nextKey := "", nextValue := "")
  }

  lemma PairsAppend(m: Pairs, i: nat)
    requires i < |m|
    ensures PairsBytes(m[..i + 1]) == PairsBytes(m[..i]) + ((if i == 0 then "" else ",") + m[i].0 + ":" + m[i].1)
  {
    assert m[..i + 1][..i] == m[..i];
    var sep: Bytes := if i == 0 then "" else ",";
    assert PairsBytes(m[..i]) + sep + m[i].0 + ":" + m[i].1 == PairsBytes(m[..i]) + (sep + m[i].0 + ":" + m[i].1);
  }

  // ---------- The order of the keys ----------

  lemma {:induction false} LessIrreflexive(a: Bytes)
    ensures !Less(a, a)
  {
    if a != [] { LessIrreflexive(a[1..]); }
  }

  lemma {:induction false} LessTransitive(a: Bytes, b: Bytes, c: Bytes)
    requires Less(a, b) && Less(b, c)
    ensures Less(a, c)
  {
    if a != [] && a[0] == b[0] == c[0] { LessTransitive(a[1..], b[1..], c[1..]); }
  }

  lemma {:induction false} LessTotal(a: Bytes, b: Bytes)
    ensures a == b || Less(a, b) || Less(b, a)
  {
    if a != [] && b != [] && a[0] == b[0] {
      LessTotal(a[1..], b[1..]);
      assert a == [a[0]] + a[1..] && b == [b[0]] + b[1..];
    }
  }

  predicate Increasing(m: Pairs) {
    forall i, j | 0 <= i < j < |m| :: Less(m[i].0, m[j].0)
  }

  lemma IncreasingTail(m: Pairs)
    requires m != [] && Increasing(m)
    ensures Increasing(m[1..])
    ensures forall i | 0 <= i < |m[1..]| :: Less(m[0].0, m[1..][i].0)
  {
  }

  lemma IncreasingCons(p: (Bytes, Bytes), m: Pairs)
    requires Increasing(m)
    requires forall i | 0 <= i < |m| :: Less(p.0, m[i].0)
    ensures Increasing([p] + m)
  {
    var r := [p] + m;
    forall i, j | 0 <= i < j < |r|
      ensures Less(r[i].0, r[j].0)
    {
      assert r[j] == m[j - 1];
      if i > 0 { assert r[i] == m[i - 1]; }
    }
  }

  /** Inserting keeps the keys strictly increasing, and brings in no key but its own. */
  lemma {:induction false} PutIncreasing(m: Pairs, k: Bytes, v: Bytes)
    requires Increasing(m)
    ensures Increasing(Put(m, k, v))
    ensures forall i | 0 <= i < |Put(m, k, v)| ::
              Put(m, k, v)[i].0 == k || exists j :: 0 <= j < |m| && Put(m, k, v)[i].0 == m[j].0
    decreases m, 1
  {
    if m == [] {
    } else if k == m[0].0 {
      IncreasingTail(m);
      IncreasingCons((k, v), m[1..]);
    } else if Less(k, m[0].0) {
      forall i | 0 <= i < |m|
        ensures Less(k, m[i].0)
      {
        if i > 0 { LessTransitive(k, m[0].0, m[i].0); }
      }
      IncreasingCons((k, v), m);
    } else {
      PutAbove(m, k, v);
    }
  }

  lemma {:induction false} PutAbove(m: Pairs, k: Bytes, v: Bytes)
    requires Increasing(m) && m != [] && k != m[0].0 && !Less(k, m[0].0)
    ensures Increasing(Put(m, k, v))
    ensures forall i | 0 <= i < |Put(m, k, v)| ::
              Put(m, k, v)[i].0 == k || exists j :: 0 <= j < |m| && Put(m, k, v)[i].0 == m[j].0
    decreases m, 0
  {
    var rest := m[1..];
    var put := Put(rest, k, v);
    IncreasingTail(m);
    PutIncreasing(rest, k, v);
    LessTotal(k, m[0].0);
    forall i | 0 <= i < |put|
      ensures Less(m[0].0, put[i].0)
    {
      if put[i].0 != k {
        var j :| 0 <= j < |rest| && put[i].0 == rest[j].0;
      }
    }
    IncreasingCons(m[0], put);
    forall i | 0 <= i < |Put(m, k, v)|
      ensures Put(m, k, v)[i].0 == k || exists j :: 0 <= j < |m| && Put(m, k, v)[i].0 == m[j].0
    {
      if i > 0 && put[i - 1].0 != k {
        var j :| 0 <= j < |rest| && put[i - 1].0 == rest[j].0;
        assert rest[j] == m[j + 1];
      }
    }
  }

  /** The members of an object come out with strictly increasing keys. */
  lemma {:induction false} CollectIncreasing(nfc: Normalizer, members: seq<Member>)
    ensures Increasing(Collect(nfc, members))
  {
    if members != [] {
      var last := members[|members| - 1];
      CollectIncreasing(nfc, members[..|members| - 1]);
      PutIncreasing(Collect(nfc, members[..|members| - 1]), StringBytes(nfc, last.key), Render(nfc, last.value));
    }
  }

  // ---------- The last entry wins ----------

  function Lookup(m: Pairs, k: Bytes): Option<Bytes> {
    if m == [] then None else if m[0].0 == k then Some(m[0].1) else Lookup(m[1..], k)
  }

  lemma {:induction false} LookupPut(m: Pairs, k: Bytes, v: Bytes, x: Bytes)
    ensures Lookup(Put(m, k, v), x) == if x == k then Some(v) else Lookup(m, x)
  {
    if m != [] {
      var put := Put(m, k, v);
      if k == m[0].0 {
        assert put[1..] == m[1..];
      } else if Less(k, m[0].0) {
        assert put[1..] == m;
      } else {
        assert put[1..] == Put(m[1..], k, v);
        LookupPut(m[1..], k, v, x);
      }
    }
  }

  ghost predicate HasKey(nfc: Normalizer, members: seq<Member>, i: nat, k: Bytes) {
    i < |members| && StringBytes(nfc, members[i].key) == k
  }

  /** Putting keys and values into the ordered map one after the other. */
  function PutAll(keys: seq<Bytes>, values: seq<Bytes>): Pairs
    requires |keys| == |values|
  {
    if keys == [] then [] else
      var n := |keys| - 1;
      Put(PutAll(keys[..n], values[..n]), keys[n], values[n])
  }

  lemma {:induction false} LastPutWins(keys: seq<Bytes>, values: seq<Bytes>, i: nat)
    requires |keys| == |values| && i < |keys| && forall j | i < j < |keys| :: keys[j] != keys[i]
    ensures Lookup(PutAll(keys, values), keys[i]) == Some(values[i])
  {
    var n := |keys| - 1;
    LookupPut(PutAll(keys[..n], values[..n]), keys[n], values[n], keys[i]);
    if i < n { LastPutWins(keys[..n], values[..n], i); }
  }

  lemma {:induction false} NeverPut(keys: seq<Bytes>, values: seq<Bytes>, k: Bytes)
    requires |keys| == |values| && k !in keys
    ensures Lookup(PutAll(keys, values), k) == None
  {
    if keys != [] {
      var n := |keys| - 1;
      LookupPut(PutAll(keys[..n], values[..n]), keys[n], values[n], k);
      NeverPut(keys[..n], values[..n], k);
    }
  }

  /** The rendered keys, and the rendered values. */
  function Keys(nfc: Normalizer, members: seq<Member>): seq<Bytes> {
    seq(|members|, i requires 0 <= i < |members| => StringBytes(nfc, members[i].key))
  }

  function Values(nfc: Normalizer, members: seq<Member>): seq<Bytes> {
    seq(|members|, i requires 0 <= i < |members| => Render(nfc, members[i].value))
  }

  lemma InitRendered(nfc: Normalizer, members: seq<Member>, n: nat)
    requires n <= |members|
    ensures Keys(nfc, members[..n]) == Keys(nfc, members)[..n] && Values(nfc, members[..n]) == Values(nfc, members)[..n]
  {
  }

  lemma CollectPuts(nfc: Normalizer, members: seq<Member>, n: nat)
    requires |members| == n + 1
    ensures Collect(nfc, members) == Put(Collect(nfc, members[..n]), Keys(nfc, members)[n], Values(nfc, members)[n])
  {
  }

  lemma NothingCollected(nfc: Normalizer)
    ensures Collect(nfc, []) == PutAll(Keys(nfc, []), Values(nfc, []))
  {
  }

  lemma PutAllStep(keys: seq<Bytes>, values: seq<Bytes>, n: nat)
    requires |keys| == |values| == n + 1
    ensures PutAll(keys, values) == Put(PutAll(keys[..n], values[..n]), keys[n], values[n])
  {
  }

  /** Collecting members is putting their rendered keys and values. */
  lemma {:induction false} CollectIsPutAll(nfc: Normalizer, members: seq<Member>)
    ensures Collect(nfc, members) == PutAll(Keys(nfc, members), Values(nfc, members))
  {
    if members == [] {
      NothingCollected(nfc);
    } else {
      var n := |members| - 1;
      CollectPuts(nfc, members, n);
      CollectIsPutAll(nfc, members[..n]);
      InitRendered(nfc, members, n);
      PutAllStep(Keys(nfc, members), Values(nfc, members), n);
    }
  }

  /** The value written for a key is the value of the last member whose key renders that way. */
  lemma LastEntryWins(nfc: Normalizer, members: seq<Member>, i: nat, k: Bytes)
    requires HasKey(nfc, members, i, k)
    requires forall j | i < j < |members| :: !HasKey(nfc, members, j, k)
    ensures Lookup(Collect(nfc, members), k) == Some(Render(nfc, members[i].value))
  {
    var keys := Keys(nfc, members);
    forall j | i < j < |keys| ensures keys[j] != keys[i] {
      assert !HasKey(nfc, members, j, k);
    }
    LastPutWins(keys, Values(nfc, members), i);
    CollectIsPutAll(nfc, members);
  }

  lemma NoEntry(nfc: Normalizer, members: seq<Member>, k: Bytes)
    requires forall j | 0 <= j < |members| :: !HasKey(nfc, members, j, k)
    ensures Lookup(Collect(nfc, members), k) == None
  {
    var keys := Keys(nfc, members);
    forall j | 0 <= j < |keys| ensures keys[j] != k {
      assert !HasKey(nfc, members, j, k);
    }
    NeverPut(keys, Values(nfc, members), k);
    CollectIsPutAll(nfc, members);
  }

  // ---------- The order of the entries does not matter ----------

  lemma {:induction false} LookupAbsent(m: Pairs, k: Bytes)
    requires forall i | 0 <= i < |m| :: m[i].0 != k
    ensures Lookup(m, k) == None
  {
    if m != [] {
      assert m[0].0 != k;
      forall i | 0 <= i < |m[1..]| ensures m[1..][i].0 != k { assert m[1..][i] == m[i + 1]; }
      LookupAbsent(m[1..], k);
    }
  }

  lemma LookupBelow(m: Pairs, k: Bytes)
    requires forall i | 0 <= i < |m| :: Less(k, m[i].0)
    ensures Lookup(m, k) == None
  {
    LessIrreflexive(k);
    LookupAbsent(m, k);
  }

  /** A strictly increasing listing is determined by what it maps each key to. */
  lemma {:induction false} ListingUnique(a: Pairs, b: Pairs)
    requires Increasing(a) && Increasing(b)
    requires forall k :: Lookup(a, k) == Lookup(b, k)
    ensures a == b
  {
    EmptyTogether(a, b);
    EmptyTogether(b, a);
    if a != [] {
      HeadsAgree(a, b);
      IncreasingTail(a);
      IncreasingTail(b);
      LookupBelow(a[1..], a[0].0);
      LookupBelow(b[1..], a[0].0);
      forall k
        ensures Lookup(a[1..], k) == Lookup(b[1..], k)
      {
        assert Lookup(a, k) == Lookup(b, k);
      }
      ListingUnique(a[1..], b[1..]);
      assert a == [a[0]] + a[1..] && b == [b[0]] + b[1..];
    }
  }

  lemma EmptyTogether(a: Pairs, b: Pairs)
    requires forall k :: Lookup(a, k) == Lookup(b, k)
    ensures a == [] ==> b == []
  {
    if b != [] { assert Lookup(a, b[0].0) == Lookup(b, b[0].0); }
  }

  lemma HeadsAgree(a: Pairs, b: Pairs)
    requires a != [] && b != [] && Increasing(a) && Increasing(b)
    requires forall k :: Lookup(a, k) == Lookup(b, k)
    ensures a[0] == b[0]
  {
    assert Lookup(a, a[0].0) == Lookup(b, a[0].0);
    assert Lookup(a, b[0].0) == Lookup(b, b[0].0);
    HeadNotBelow(a, b);
    HeadNotBelow(b, a);
    LessTotal(a[0].0, b[0].0);
  }

  lemma HeadNotBelow(a: Pairs, b: Pairs)
    requires a != [] && b != [] && Increasing(b)
    requires Lookup(b, a[0].0) != None
    ensures !Less(a[0].0, b[0].0)
  {
    if Less(a[0].0, b[0].0) {
      forall i | 0 <= i < |b|
        ensures Less(a[0].0, b[i].0)
      {
        if i > 0 { LessTransitive(a[0].0, b[0].0, b[i].0); }
      }
      LookupBelow(b, a[0].0);
    }
  }

  /** The same tree up to the order in which objects list their members. */
  ghost predicate Reordered(v: Value, w: Value)
    decreases v
  {
    match v
    case Array(items) =>
      && w.Array? && |items| == |w.items|
      && forall i | 0 <= i < |items| :: Reordered(items[i], w.items[i])
    case Object(members) =>
      && w.Object?
      && (forall i {:trigger HasPartner(members[i], w.members)} | 0 <= i < |members| ::
          HasPartner(members[i], w.members))
      && (forall j {:trigger IsPartner(members, w.members[j])} | 0 <= j < |w.members| ::
          IsPartner(members, w.members[j]))
    case _ => v == w
  }

  ghost predicate Partners(m: Member, n: Member)
    decreases m, 0
  {
    m.key == n.key && Reordered(m.value, n.value)
  }

  ghost predicate HasPartner(m: Member, ns: seq<Member>)
    decreases m, 1
  {
    exists j :: 0 <= j < |ns| && Partners(m, ns[j])
  }

  ghost predicate IsPartner(ms: seq<Member>, n: Member)
    decreases ms
  {
    exists i :: 0 <= i < |ms| && Partners(ms[i], n)
  }

  /** No object, at any depth, has two members whose keys render the same. */
  ghost predicate DistinctKeys(nfc: Normalizer, v: Value) {
    match v
    case Array(items) => forall i | 0 <= i < |items| :: DistinctKeys(nfc, items[i])
    case Object(members) =>
      && KeysApart(nfc, members)
      && forall i | 0 <= i < |members| :: DistinctKeys(nfc, members[i].value)
    case _ => true
  }

  /** Trees that differ only in the order of object entries have the same canonical bytes. */
  lemma {:induction false} OrderIrrelevant(nfc: Normalizer, v: Value, w: Value)
    requires Reordered(v, w) && DistinctKeys(nfc, v) && DistinctKeys(nfc, w)
    ensures Render(nfc, v) == Render(nfc, w)
    decreases v, 1
  {
    match v {
      case Array(items) =>
        forall i | 0 <= i < |items|
          ensures Render(nfc, items[i]) == Render(nfc, w.items[i])
        {
          OrderIrrelevant(nfc, items[i], w.items[i]);
        }
        SameItems(nfc, items, w.items);
      case Object(members) =>
        Counterparts(nfc, v, w);
        forall k
          ensures Lookup(Collect(nfc, members), k) == Lookup(Collect(nfc, w.members), k)
        {
          SameLookup(nfc, members, w.members, k);
        }
        CollectIncreasing(nfc, members);
        CollectIncreasing(nfc, w.members);
        ListingUnique(Collect(nfc, members), Collect(nfc, w.members));
      case _ =>
    }
  }

  lemma {:induction false} Counterparts(nfc: Normalizer, v: Value, w: Value)
    requires v.Object? && Reordered(v, w) && DistinctKeys(nfc, v) && DistinctKeys(nfc, w)
    ensures AllMatched(nfc, v.members, w.members) && AllMatched(nfc, w.members, v.members)
    decreases v, 0
  {
    forall i: nat | i < |v.members|
      ensures HasMatch(nfc, v.members, i, w.members)
    {
      assert HasPartner(v.members[i], w.members);
      var j: nat :| j < |w.members| && Partners(v.members[i], w.members[j]);
      PartnersMatch(nfc, v.members[i], w.members[j]);
    }
    forall j: nat | j < |w.members|
      ensures HasMatch(nfc, w.members, j, v.members)
    {
      assert IsPartner(v.members, w.members[j]);
      var i: nat :| i < |v.members| && Partners(v.members[i], w.members[j]);
      PartnersMatch(nfc, v.members[i], w.members[j]);
    }
  }

  lemma {:induction false} PartnersMatch(nfc: Normalizer, m: Member, n: Member)
    requires Partners(m, n) && DistinctKeys(nfc, m.value) && DistinctKeys(nfc, n.value)
    ensures Matches(nfc, m, n) && Matches(nfc, n, m)
    decreases m
  {
    OrderIrrelevant(nfc, m.value, n.value);
  }

  lemma {:induction false} SameItems(nfc: Normalizer, a: seq<Value>, b: seq<Value>)
    requires |a| == |b| && forall i | 0 <= i < |a| :: Render(nfc, a[i]) == Render(nfc, b[i])
    ensures ItemsBytes(nfc, a) == ItemsBytes(nfc, b)
  {
    if a != [] { SameItems(nfc, a[..|a| - 1], b[..|a| - 1]); }
  }

  ghost predicate Matches(nfc: Normalizer, m: Member, n: Member) {
    m.key == n.key && Render(nfc, m.value) == Render(nfc, n.value)
  }

  ghost predicate HasMatch(nfc: Normalizer, a: seq<Member>, i: nat, b: seq<Member>)
    requires i < |a|
  {
    exists j: nat :: j < |b| && Matches(nfc, a[i], b[j])
  }

  ghost predicate AllMatched(nfc: Normalizer, a: seq<Member>, b: seq<Member>) {
    forall i: nat | i < |a| :: HasMatch(nfc, a, i, b)
  }

  ghost predicate KeysApart(nfc: Normalizer, members: seq<Member>) {
    forall i, j | 0 <= i < j < |members| :: StringBytes(nfc, members[i].key) != StringBytes(nfc, members[j].key)
  }

  lemma SameLookup(nfc: Normalizer, a: seq<Member>, b: seq<Member>, k: Bytes)
    requires KeysApart(nfc, a) && KeysApart(nfc, b)
    requires AllMatched(nfc, a, b) && AllMatched(nfc, b, a)
    ensures Lookup(Collect(nfc, a), k) == Lookup(Collect(nfc, b), k)
  {
    if i: nat :| HasKey(nfc, a, i, k) {
      assert HasMatch(nfc, a, i, b);
      var j: nat :| j < |b| && Matches(nfc, a[i], b[j]);
      assert HasKey(nfc, b, j, k);
      OnlyEntry(nfc, a, i, k);
      OnlyEntry(nfc, b, j, k);
    } else {
      forall j: nat | j < |b|
        ensures !HasKey(nfc, b, j, k)
      {
        assert HasMatch(nfc, b, j, a);
        var i: nat :| i < |a| && Matches(nfc, b[j], a[i]);
        assert !HasKey(nfc, a, i, k);
      }
      NoEntry(nfc, a, k);
      NoEntry(nfc, b, k);
    }
  }

  lemma OnlyEntry(nfc: Normalizer, members: seq<Member>, i: nat, k: Bytes)
    requires HasKey(nfc, members, i, k)
    requires KeysApart(nfc, members)
    ensures Lookup(Collect(nfc, members), k) == Some(Render(nfc, members[i].value))
  {
    forall j | i < j < |members|
      ensures !HasKey(nfc, members, j, k)
    {
      assert StringBytes(nfc, members[i].key) != StringBytes(nfc, members[j].key);
    }
    LastEntryWins(nfc, members, i, k);
  }
}
