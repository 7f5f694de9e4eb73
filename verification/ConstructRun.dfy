/** The parsers and builders on a stream and a context that they update in place. */
module ConstructRun {
  import opened Common
  import opened Streams
  import opened Construct

  /** A Container used as context. */
  class Scope {
    var entries: Context

    constructor ()
      ensures entries == map[]
    {
      entries := map[];
    }
  }

  class Sink {
    var data: seq<byte>

    constructor ()
      ensures data == []
    {
      data := [];
    }
  }

  // ----- parsing -----

  /** What a parser did, in terms of what Construct.Parse says it should do. */
  ghost predicate DidParse(p: Result<Parsed, Error>, r: Result<Value, Error>, rest: seq<byte>, entries: Context) {
    match p case Err(e) => r == Err(e) case Ok(x) => r == Ok(x.value) && rest == x.rest && entries == x.context
  }

  /** `_parse`. */
  method ParseValue(l: Layout, stream: Stream, context: Scope) returns (r: Result<Value, Error>)
    requires stream.pos <= |stream.data|
    modifies stream, context
    ensures stream.pos <= |stream.data|
    ensures DidParse(Parse(l, old(stream.Rest()), old(context.entries)), r, stream.Rest(), context.entries)
    decreases l, 2, 0
  {
    match l {
      case Int(_, n, signed, littleEndian) =>
        var data := stream.Read(n);
        if |data| != n { return Err(FieldError); }
        r := Ok(Num(Unpack(data, signed, littleEndian)));
      case CString(_) => r := ParseString(stream, context);
      case Struct(_, _) => r := ParseStruct(l, stream);
      case Array(count, e) => r := ParseElements(e, count, stream, context);
      case Prefixed(length, e) => r := ParsePrefixed(l, stream, context);
    }
  }

  method ParsePrefixed(l: Layout, stream: Stream, context: Scope) returns (r: Result<Value, Error>)
    requires l.Prefixed?
    requires stream.pos <= |stream.data|
    modifies stream, context
    ensures stream.pos <= |stream.data|
    ensures DidParse(Parse(l, old(stream.Rest()), old(context.entries)), r, stream.Rest(), context.entries)
    decreases l, 1, 0
  {
    var name := NameOf(l.length);
    var length := ParseValue(l.length, stream, context);
    if length.Err? { return length; }
    context.entries := context.entries[name := length.value];
    if !context.entries[name].Num? { return Err(WrongType); }
    r := ParseElements(l.elem, context.entries[name].number, stream, context);
    if r.Ok? { context.entries := context.entries[NameOf(l.elem) := r.value]; }
  }

  /** RepeatUntil with a one-byte field, and the adapter that joins the characters. */
  method ParseString(stream: Stream, context: Scope) returns (r: Result<Value, Error>)
    requires stream.pos <= |stream.data|
    modifies stream
    ensures stream.pos <= |stream.data|
    ensures DidParse(ParseText(old(stream.Rest()), [], context.entries), r, stream.Rest(), context.entries)
  {
    var obj: seq<byte> := [];
    ghost var all := ParseText(stream.Rest(), [], context.entries);
    while true
      invariant stream.pos <= |stream.data| && ParseText(stream.Rest(), obj, context.entries) == all
      decreases |stream.Rest()|
    {
      ghost var rest := stream.Rest();
      var c := stream.Read(1);
      if |c| != 1 { return Err(ArrayError); }
      assert c == [rest[0]] && stream.Rest() == rest[1..];
      if c[0] == 0 { break; }
      obj := obj + c;
    }
    r := Ok(Text(obj));
  }

  /** `Struct._parse`: the members are parsed in a new context. */
  method ParseStruct(l: Layout, stream: Stream) returns (r: Result<Value, Error>)
    requires l.Struct?
    requires stream.pos <= |stream.data|
    modifies stream
    ensures stream.pos <= |stream.data|
    ensures match ParseFields(l, 0, old(stream.Rest()), map[], map[])
      case Err(e) => r == Err(e)
      case Ok(p) => r == Ok(p.value) && stream.Rest() == p.rest
    decreases l, 1, 0
  {
    var obj: map<FieldName, Value> := map[];
    var context := new Scope();
    ghost var all := ParseFields(l, 0, stream.Rest(), map[], map[]);
    for i := 0 to |l.fields|
      invariant stream.pos <= |stream.data| && ParseFields(l, i, stream.Rest(), context.entries, obj) == all
    {
      var f := l.fields[i];
      var subobj := ParseValue(f, stream, context);
      if subobj.Err? { return subobj; }
      obj := obj[NameOf(f) := subobj.value];
      context.entries := context.entries[NameOf(f) := subobj.value];
    }
    r := Ok(Rec(obj));
  }

  /** `MetaArray._parse`. */
  method ParseElements(l: Layout, count: int, stream: Stream, context: Scope) returns (r: Result<Value, Error>)
    requires stream.pos <= |stream.data|
    modifies stream, context
    ensures stream.pos <= |stream.data|
    ensures DidParse(ParseMany(l, count, old(stream.Rest()), old(context.entries), []), r, stream.Rest(), context.entries)
    decreases l, 3, 0
  {
    var obj: seq<Value> := [];
    var c := 0;
    ghost var all := ParseMany(l, count, stream.Rest(), context.entries, []);
    while c < count
      invariant c >= 0 && stream.pos <= |stream.data| && ParseMany(l, count - c, stream.Rest(), context.entries, obj) == all
    {
      var x := ParseValue(l, stream, context);
      if x.Err? { return Err(Wrapped(x.error)); }
      obj := obj + [x.value];
      c := c + 1;
    }
    r := Ok(List(obj));
  }

  // ----- building -----

  ghost predicate DidBuild(b: Result<Built, Error>, before: seq<byte>, error: Option<Error>, after: seq<byte>, entries: Context) {
    match b case Err(e) => error == Some(e) case Ok(x) => error == None && after == before + x.bytes && entries == x.context
  }

  /** The rest of a loop, started where `now` stands, does what the whole loop does from `start`. */
  ghost predicate Continues(whole: Result<Built, Error>, start: seq<byte>, rest: Result<Built, Error>, now: seq<byte>) {
    match whole
    case Err(e) => rest == Err(e)
    case Ok(x) => rest.Ok? && rest.value.context == x.context && start + x.bytes == now + rest.value.bytes
  }

  lemma ContinuesFurther(whole: Result<Built, Error>, start: seq<byte>, rest: Result<Built, Error>, now: seq<byte>,
      first: seq<byte>, next: Result<Built, Error>)
    requires Continues(whole, start, rest, now)
    requires match next case Err(e) => rest == Err(e) case Ok(c) => rest == Ok(Built(first + c.bytes, c.context))
    ensures Continues(whole, start, next, now + first)
  {
    if next.Ok? { assert now + (first + next.value.bytes) == now + first + next.value.bytes; }
  }

  /** `_build`. */
  method BuildValue(l: Layout, v: Value, sink: Sink, context: Scope) returns (error: Option<Error>)
    modifies sink, context
    ensures DidBuild(Build(l, v, old(context.entries)), old(sink.data), error, sink.data, context.entries)
    decreases l, 2, 0
  {
    error := None;
    match l {
      case Int(_, n, signed, littleEndian) =>
        if !v.Num? || !InRange(v.number, n, signed) { return Some(FieldError); }
        sink.data := sink.data + Pack(v.number, n, littleEndian);
      case CString(_) =>
        if !v.Text? { return Some(WrongType); }
        BuildString(v.text, sink);
      case Struct(_, _) => error := BuildStruct(l, v, sink);
      case Array(count, e) =>
        if !v.List? { return Some(WrongType); }
        if |v.items| != count { return Some(ArrayError); }
        error := BuildElements(e, v.items, sink, context);
      case Prefixed(_, _) => error := BuildPrefixed(l, v, sink, context);
    }
  }

  method BuildPrefixed(l: Layout, v: Value, sink: Sink, context: Scope) returns (error: Option<Error>)
    requires l.Prefixed?
    modifies sink, context
    ensures DidBuild(Build(l, v, old(context.entries)), old(sink.data), error, sink.data, context.entries)
    decreases l, 1, 0
  {
    if !v.List? { return Some(WrongType); }
    var name, number := NameOf(l.length), Num(|v.items|);
    context.entries := context.entries[name := number];
    error := BuildValue(l.length, number, sink, context);
    if error.Some? { return; }
    context.entries := context.entries[NameOf(l.elem) := v];
    if name !in context.entries { return Some(MissingField); }
    if context.entries[name] != number { return Some(if context.entries[name].Num? then ArrayError else WrongType); }
    error := BuildElements(l.elem, v.items, sink, context);
  }

  /** RepeatUntil: it stops behind the first terminator. */
  method BuildString(text: seq<byte>, sink: Sink)
    modifies sink
    ensures sink.data == old(sink.data) + UpToNul(text + [0])
  {
    var s := text + [0];
    var i := 0;
    while true
      invariant 0 <= i <= |text| && sink.data + UpToNul(s[i..]) == old(sink.data) + UpToNul(s)
      decreases |s| - i
    {
      assert s[i..][1..] == s[i + 1..];
      ghost var now := sink.data;
      sink.data := sink.data + [s[i]];
      if s[i] == 0 { break; }
      assert now + ([s[i]] + UpToNul(s[i + 1..])) == sink.data + UpToNul(s[i + 1..]);
      i := i + 1;
    }
  }

  method BuildStruct(l: Layout, v: Value, sink: Sink) returns (error: Option<Error>)
    requires l.Struct?
    modifies sink
    ensures match BuildFields(l, 0, v, map[])
      case Err(e) => error == Some(e)
      case Ok(b) => error == None && sink.data == old(sink.data) + b.bytes
    decreases l, 1, 0
  {
    var context := new Scope();
    ghost var all := BuildFields(l, 0, v, map[]);
    for i := 0 to |l.fields|
      invariant Continues(all, old(sink.data), BuildFields(l, i, v, context.entries), sink.data)
    {
      var f := l.fields[i];
      if !v.Rec? || NameOf(f) !in v.members { return Some(MissingField); }
      var subobj := v.members[NameOf(f)];
      ghost var now, rest := sink.data, BuildFields(l, i, v, context.entries);
      context.entries := context.entries[NameOf(f) := subobj];
      ghost var b := Build(f, subobj, context.entries);
      error := BuildValue(f, subobj, sink, context);
      if error.Some? { return; }
      ContinuesFurther(all, old(sink.data), rest, now, b.value.bytes, BuildFields(l, i + 1, v, context.entries));
    }
    error := None;
  }

  method BuildElements(l: Layout, items: seq<Value>, sink: Sink, context: Scope) returns (error: Option<Error>)
    modifies sink, context
    ensures DidBuild(BuildMany(l, items, 0, old(context.entries)), old(sink.data), error, sink.data, context.entries)
    decreases l, 3, 0
  {
    ghost var all := BuildMany(l, items, 0, context.entries);
    for i := 0 to |items|
      invariant Continues(all, old(sink.data), BuildMany(l, items, i, context.entries), sink.data)
    {
      ghost var now, rest := sink.data, BuildMany(l, items, i, context.entries);
      ghost var b := Build(l, items[i], context.entries);
      error := BuildValue(l, items[i], sink, context);
      if error.Some? { return; }
      ContinuesFurther(all, old(sink.data), rest, now, b.value.bytes, BuildMany(l, items, i + 1, context.entries));
    }
    error := None;
  }

  /** Build into a new stream, append anything, parse: the same object, and the stream stands exactly
      behind the built bytes. */
  method BuildThenParse(l: Layout, v: Value, suffix: seq<byte>) returns (built: bool, r: Result<Value, Error>, position: nat, length: nat)
    requires Lossless(l, v)
    ensures built <==> Fits(l, v)
    ensures built ==> r == Ok(v) && position == length
  {
    var sink := new Sink();
    var context := new Scope();
    var error := BuildValue(l, v, sink, context);
    BuildsIff(l, v, map[]);
    position, length, r := 0, |sink.data|, Err(WrongType);
    built := error.None?;
    if !built { return; }
    RoundTrip(l, v, map[], map[], suffix);
    var stream := new Stream(sink.data + suffix, 0);
    assert stream.Rest() == sink.data + suffix;
    assert sink.data == Build(l, v, map[]).value.bytes;
    var scope := new Scope();
    r := ParseValue(l, stream, scope);
    position := stream.pos;
  }
}
