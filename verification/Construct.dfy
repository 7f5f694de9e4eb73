/** The declarative parser library: what layouts parse and build, contexts included, and that the two are
    inverse. */
module Construct {
  import opened Common
  import opened Streams

  type FieldName = string

  /** Constructs with the names under which their values go into objects and contexts. `Int` is a
      FormatField of `n` bytes, `Array` a MetaArray with a fixed count, `Prefixed` a PrefixedArray. */
  datatype Layout =
    | Int(name: FieldName, n: nat, signed: bool, littleEndian: bool)
    | CString(name: FieldName)
    | Struct(name: FieldName, fields: seq<Layout>)
    | Array(count: nat, elem: Layout)
    | Prefixed(length: Layout, elem: Layout)

  datatype Value = Num(number: int) | Text(text: seq<byte>) | List(items: seq<Value>) | Rec(members: map<FieldName, Value>)

  type Context = map<FieldName, Value>

  datatype Error = FieldError | ArrayError | MissingField | WrongType

  /** A parsed value, what is left of the input, and the context that parsing left behind. */
  datatype Parsed = Parsed(value: Value, rest: seq<byte>, context: Context)

  datatype Built = Built(bytes: seq<byte>, context: Context)

  /** Arrays have the name of their element. */
  function NameOf(l: Layout): FieldName {
    match l
    case Int(name, _, _, _) => name
    case CString(name) => name
    case Struct(name, _) => name
    case Array(_, e) => NameOf(e)
    case Prefixed(_, e) => NameOf(e)
  }

  // ----- fixed-width integers -----

  predicate InRange(x: int, n: nat, signed: bool) {
    var p: int := Pow256(n);
    if signed then -p <= 2 * x < p else 0 <= x < p
  }

  function Pack(x: int, n: nat, littleEndian: bool): seq<byte> {
    ToBytes(x % Pow256(n), n, littleEndian)
  }

  function Unpack(s: seq<byte>, signed: bool, littleEndian: bool): int {
    var u := Number(s, littleEndian);
    if signed && 2 * u >= Pow256(|s|) then u - Pow256(|s|) else u
  }

  lemma UnpackPack(x: int, n: nat, signed: bool, littleEndian: bool)
    requires InRange(x, n, signed)
    ensures Unpack(Pack(x, n, littleEndian), signed, littleEndian) == x
  {
    var p := Pow256(n);
    if x >= 0 { DivModUnique(x, p, 0, x); } else { DivModUnique(x, p, -1, x + p); }
    NumberOfBytes(x % p, n, littleEndian);
  }

  // ----- strings -----

  /** Characters up to the terminator, which is consumed. */
  function ParseText(s: seq<byte>, acc: seq<byte>, context: Context): Result<Parsed, Error> {
    if s == [] then Err(ArrayError)
    else if s[0] == 0 then Ok(Parsed(Text(acc), s[1..], context))
    else ParseText(s[1..], acc + [s[0]], context)
  }

  /** The characters that are written: none behind the first terminator. */
  function UpToNul(t: seq<byte>): seq<byte> {
    if t == [] then [] else if t[0] == 0 then [0] else [t[0]] + UpToNul(t[1..])
  }

  // ----- parsing -----

  function Wrapped(e: Error): Error {
    if e.FieldError? then ArrayError else e
  }

  function Parse(l: Layout, s: seq<byte>, context: Context): Result<Parsed, Error>
    decreases l, 2, 0
  {
    match l
    case Int(_, n, signed, littleEndian) =>
      if |s| < n then Err(FieldError) else Ok(Parsed(Num(Unpack(s[..n], signed, littleEndian)), s[n..], context))
    case CString(_) => ParseText(s, [], context)
    case Struct(_, _) =>
      // a context of its own
      (match ParseFields(l, 0, s, map[], map[])
        case Err(e) => Err(e)
        case Ok(p) => Ok(Parsed(p.value, p.rest, context)))
    case Array(count, e) => ParseMany(e, count, s, context, [])
    case Prefixed(length, e) =>
      match Parse(length, s, context)
      case Err(e) => Err(e)
      case Ok(p) =>
        var shared := p.context[NameOf(length) := p.value];
        if !shared[NameOf(length)].Num? then Err(WrongType)
        else match ParseMany(e, shared[NameOf(length)].number, p.rest, shared, [])
          case Err(x) => Err(x)
          case Ok(q) => Ok(Parsed(q.value, q.rest, q.context[NameOf(e) := q.value]))
  }

  function ParseFields(l: Layout, i: nat, s: seq<byte>, context: Context, members: map<FieldName, Value>): Result<Parsed, Error>
    requires l.Struct? && i <= |l.fields|
    decreases l, 1, |l.fields| - i
  {
    if i == |l.fields| then Ok(Parsed(Rec(members), s, context))
    else match Parse(l.fields[i], s, context)
      case Err(e) => Err(e)
      case Ok(p) =>
        var name := NameOf(l.fields[i]);
        ParseFields(l, i + 1, p.rest, p.context[name := p.value], members[name := p.value])
  }

  /** `n` elements in one shared context. */
  function ParseMany(l: Layout, n: int, s: seq<byte>, context: Context, items: seq<Value>): Result<Parsed, Error>
    decreases l, 3, n
  {
    if n <= 0 then Ok(Parsed(List(items), s, context))
    else match Parse(l, s, context)
      case Err(e) => Err(Wrapped(e))
      case Ok(p) => ParseMany(l, n - 1, p.rest, p.context, items + [p.value])
  }

  // ----- building -----

  function Build(l: Layout, v: Value, context: Context): Result<Built, Error>
    decreases l, 2, 0
  {
    match l
    case Int(_, n, signed, littleEndian) =>
      if v.Num? && InRange(v.number, n, signed) then Ok(Built(Pack(v.number, n, littleEndian), context)) else Err(FieldError)
    case CString(_) =>
      if v.Text? then Ok(Built(UpToNul(v.text + [0]), context)) else Err(WrongType)
    case Struct(_, _) =>
      (match BuildFields(l, 0, v, map[])
        case Err(e) => Err(e)
        case Ok(b) => Ok(Built(b.bytes, context)))
    case Array(count, e) =>
      if !v.List? then Err(WrongType)
      else if |v.items| != count then Err(ArrayError)
      else BuildMany(e, v.items, 0, context)
    case Prefixed(length, e) =>
      if !v.List? then Err(WrongType)
      else
        var number := Num(|v.items|);
        match Build(length, number, context[NameOf(length) := number])
        case Err(e) => Err(e)
        case Ok(b) =>
          var shared := b.context[NameOf(e) := v];
          if NameOf(length) !in shared then Err(MissingField)
          else if shared[NameOf(length)] != number then Err(if shared[NameOf(length)].Num? then ArrayError else WrongType)
          else match BuildMany(e, v.items, 0, shared)
            case Err(x) => Err(x)
            case Ok(c) => Ok(Built(b.bytes + c.bytes, c.context))
  }

  function BuildFields(l: Layout, i: nat, v: Value, context: Context): Result<Built, Error>
    requires l.Struct? && i <= |l.fields|
    decreases l, 1, |l.fields| - i
  {
    if i == |l.fields| then Ok(Built([], context))
    else
      var name := NameOf(l.fields[i]);
      if !v.Rec? || name !in v.members then Err(MissingField)
      else match Build(l.fields[i], v.members[name], context[name := v.members[name]])
        case Err(e) => Err(e)
        case Ok(b) =>
          match BuildFields(l, i + 1, v, b.context)
          case Err(e) => Err(e)
          case Ok(c) => Ok(Built(b.bytes + c.bytes, c.context))
  }

  function BuildMany(l: Layout, items: seq<Value>, i: nat, context: Context): Result<Built, Error>
    requires i <= |items|
    decreases l, 3, |items| - i
  {
    if i == |items| then Ok(Built([], context))
    else match Build(l, items[i], context)
      case Err(e) => Err(e)
      case Ok(b) =>
        match BuildMany(l, items, i + 1, b.context)
        case Err(e) => Err(e)
        case Ok(c) => Ok(Built(b.bytes + c.bytes, c.context))
  }

  // ----- what builds -----

  /** The objects that a layout can write. The element of a PrefixedArray may not have the name of its
      length field: the list would take the place of the length in the context. */
  ghost predicate Fits(l: Layout, v: Value)
    decreases l
  {
    match l
    case Int(_, n, signed, _) => v.Num? && InRange(v.number, n, signed)
    case CString(_) => v.Text?
    case Struct(_, fields) =>
      forall i :: 0 <= i < |fields| ==> v.Rec? && NameOf(fields[i]) in v.members && Fits(fields[i], v.members[NameOf(fields[i])])
    case Array(count, e) => v.List? && |v.items| == count && forall i :: 0 <= i < |v.items| ==> Fits(e, v.items[i])
    case Prefixed(length, e) =>
      && NameOf(length) != NameOf(e) && v.List? && Fits(length, Num(|v.items|))
      && forall i :: 0 <= i < |v.items| ==> Fits(e, v.items[i])
  }

  ghost predicate MemberFits(l: Layout, v: Value, i: nat)
    requires l.Struct? && i < |l.fields|
  {
    v.Rec? && NameOf(l.fields[i]) in v.members && Fits(l.fields[i], v.members[NameOf(l.fields[i])])
  }

  lemma FitsIff(l: Layout, v: Value)
    requires l.Struct?
    ensures Fits(l, v) <==> forall i :: 0 <= i < |l.fields| ==> MemberFits(l, v, i)
  {
    if Fits(l, v) {
      forall i | 0 <= i < |l.fields| ensures MemberFits(l, v, i) {
        var f := l.fields[i];
        assert v.Rec?;
        assert NameOf(f) in v.members;
        assert Fits(f, v.members[NameOf(f)]);
      }
    } else {
      var i :| 0 <= i < |l.fields| && !(v.Rec? && NameOf(l.fields[i]) in v.members && Fits(l.fields[i], v.members[NameOf(l.fields[i])]));
      assert !MemberFits(l, v, i);
    }
  }

  /** Whether an object builds depends on the layout and the object alone, not on the context. */
  lemma {:induction false} BuildsIff(l: Layout, v: Value, context: Context)
    ensures Build(l, v, context).Ok? <==> Fits(l, v)
    decreases l, 2, 0
  {
    match l
    case Int(_, _, _, _) =>
    case CString(_) =>
    case Struct(_, _) =>
      FieldsBuildIff(l, 0, v, map[]);
      FitsIff(l, v);
    case Array(count, e) => if v.List? { ManyBuildIff(e, v.items, 0, context); }
    case Prefixed(length, e) => PrefixedBuildsIff(l, v, context);
  }

  lemma {:induction false} PrefixedBuildsIff(l: Layout, v: Value, context: Context)
    requires l.Prefixed?
    ensures Build(l, v, context).Ok? <==> Fits(l, v)
    decreases l, 1, 0
  {
    if v.List? {
      var number := Num(|v.items|);
      var start := context[NameOf(l.length) := number];
      BuildsIff(l.length, number, start);
      if Fits(l.length, number) {
        NumberKeepsContext(l.length, number, start);
        ManyBuildIff(l.elem, v.items, 0, start[NameOf(l.elem) := v]);
      }
    }
  }

  /** What writes a number leaves the context alone. */
  lemma NumberKeepsContext(l: Layout, v: Value, context: Context)
    requires v.Num? && Build(l, v, context).Ok?
    ensures Build(l, v, context).value.context == context
  {
  }

  lemma {:induction false} ManyBuildIff(l: Layout, items: seq<Value>, i: nat, context: Context)
    requires i <= |items|
    ensures BuildMany(l, items, i, context).Ok? <==> forall k :: i <= k < |items| ==> Fits(l, items[k])
    decreases l, 3, |items| - i
  {
    if i < |items| {
      BuildsIff(l, items[i], context);
      if Fits(l, items[i]) { ManyBuildIff(l, items, i + 1, Build(l, items[i], context).value.context); }
    }
  }

  lemma {:induction false} FieldsBuildIff(l: Layout, i: nat, v: Value, context: Context)
    requires l.Struct? && i <= |l.fields|
    ensures BuildFields(l, i, v, context).Ok? <==> forall k :: i <= k < |l.fields| ==> MemberFits(l, v, k)
    decreases l, 1, |l.fields| - i
  {
    if i < |l.fields| {
      var f, name := l.fields[i], NameOf(l.fields[i]);
      if v.Rec? && name in v.members {
        var x := v.members[name];
        var start := context[name := x];
        BuildsIff(f, x, start);
        assert MemberFits(l, v, i) <==> Fits(f, x);
        if Fits(f, x) {
          FieldsBuildIff(l, i + 1, v, Build(f, x, start).value.context);
        } else {
          assert BuildFields(l, i, v, context).Err?;
        }
      } else {
        assert !MemberFits(l, v, i);
      }
    }
  }

  // ----- parsing inverts building -----

  /** What a layout can hold without loss: NUL-free strings, and records with the declared members only. */
  ghost predicate Lossless(l: Layout, v: Value)
    decreases l, 1
  {
    match l
    case Int(_, _, _, _) => true
    case CString(_) => v.Text? && 0 !in v.text
    case Struct(_, fields) =>
      v.Rec? && FirstMembers(l, v, |fields|, v.members) && forall i :: 0 <= i < |fields| ==> MemberLossless(l, v, i)
    case Array(_, e) => v.List? && forall i :: 0 <= i < |v.items| ==> Lossless(e, v.items[i])
    case Prefixed(length, e) => v.List? && Lossless(length, Num(|v.items|)) && forall i :: 0 <= i < |v.items| ==> Lossless(e, v.items[i])
  }

  ghost predicate MemberLossless(l: Layout, v: Value, i: nat)
    requires l.Struct? && i < |l.fields| && v.Rec?
    decreases l, 0
  {
    NameOf(l.fields[i]) in v.members ==> Lossless(l.fields[i], v.members[NameOf(l.fields[i])])
  }

  /** `members` holds the first `i` fields of `v`. */
  ghost predicate FirstMembers(l: Layout, v: Value, i: nat, members: map<FieldName, Value>)
    requires l.Struct? && v.Rec? && i <= |l.fields|
  {
    && (forall name :: name in members <==> FieldBefore(l, i, name))
    && (forall name :: name in members ==> name in v.members && members[name] == v.members[name])
  }

  ghost predicate FieldBefore(l: Layout, i: nat, name: FieldName)
    requires l.Struct? && i <= |l.fields|
  {
    exists j :: 0 <= j < i && NameOf(l.fields[j]) == name
  }

  lemma {:induction false} TextRoundTrip(t: seq<byte>, suffix: seq<byte>, acc: seq<byte>, context: Context)
    requires 0 !in t
    ensures UpToNul(t + [0]) == t + [0] && ParseText(t + [0] + suffix, acc, context) == Ok(Parsed(Text(acc + t), suffix, context))
    decreases |t|
  {
    if t == [] {
      var s := t + [0] + suffix;
      assert s[0] == 0 && s[1..] == suffix && acc + t == acc;
    } else {
      var s := t + [0] + suffix;
      TextRoundTrip(t[1..], suffix, acc + [t[0]], context);
      assert (t + [0])[1..] == t[1..] + [0] && s[1..] == t[1..] + [0] + suffix;
      assert acc + [t[0]] + t[1..] == acc + t;
    }
  }

  /** The main result: an object that fits the layout and that the layout can hold without loss builds, and
      what was built, followed by anything, parses to that object and leaves exactly what followed, in any
      two contexts. */
  lemma RoundTrip(l: Layout, v: Value, building: Context, parsing: Context, suffix: seq<byte>)
    requires Fits(l, v) && Lossless(l, v)
    ensures Build(l, v, building).Ok?
    ensures var p := Parse(l, Build(l, v, building).value.bytes + suffix, parsing);
      p.Ok? && p.value.value == v && p.value.rest == suffix
  {
    BuildsIff(l, v, building);
    BuiltRoundTrip(l, v, building, parsing, suffix);
  }

  lemma {:induction false} BuiltRoundTrip(l: Layout, v: Value, building: Context, parsing: Context, suffix: seq<byte>)
    requires Lossless(l, v) && Build(l, v, building).Ok?
    ensures var p := Parse(l, Build(l, v, building).value.bytes + suffix, parsing);
      p.Ok? && p.value.value == v && p.value.rest == suffix
    decreases l, 2, 0
  {
    match l
    case Int(_, n, signed, littleEndian) =>
      UnpackPack(v.number, n, signed, littleEndian);
      var s := Pack(v.number, n, littleEndian);
      assert (s + suffix)[..n] == s && (s + suffix)[n..] == suffix;
    case CString(_) =>
      TextRoundTrip(v.text, suffix, [], parsing);
      assert [] + v.text == v.text;
    case Struct(_, fields) => FieldsRoundTrip(l, 0, v, map[], map[], suffix, map[]);
    case Array(count, e) => ManyRoundTrip(e, v.items, 0, building, parsing, suffix);
    case Prefixed(length, e) => PrefixedRoundTrip(l, v, building, parsing, suffix);
  }

  lemma {:induction false} ManyRoundTrip(l: Layout, items: seq<Value>, i: nat, building: Context, parsing: Context, suffix: seq<byte>)
    requires i <= |items| && (forall k :: i <= k < |items| ==> Lossless(l, items[k]))
    requires BuildMany(l, items, i, building).Ok?
    ensures var p := ParseMany(l, |items| - i, BuildMany(l, items, i, building).value.bytes + suffix, parsing, items[..i]);
      p.Ok? && p.value.value == List(items) && p.value.rest == suffix
    decreases l, 3, |items| - i
  {
    if i == |items| {
      assert [] + suffix == suffix && items[..i] == items;
    } else {
      var b := Build(l, items[i], building).value;
      var c := BuildMany(l, items, i + 1, b.context).value;
      assert b.bytes + c.bytes + suffix == b.bytes + (c.bytes + suffix);
      BuiltRoundTrip(l, items[i], building, parsing, c.bytes + suffix);
      var p := Parse(l, b.bytes + (c.bytes + suffix), parsing).value;
      assert items[..i] + [items[i]] == items[..i + 1];
      ManyRoundTrip(l, items, i + 1, b.context, p.context, suffix);
    }
  }

  /** The number of elements is read from the shared context right after it was put there; what the
      elements put there later does not matter. */
  lemma {:induction false} PrefixedRoundTrip(l: Layout, v: Value, building: Context, parsing: Context, suffix: seq<byte>)
    requires l.Prefixed? && Lossless(l, v) && Build(l, v, building).Ok?
    ensures var p := Parse(l, Build(l, v, building).value.bytes + suffix, parsing);
      p.Ok? && p.value.value == v && p.value.rest == suffix
    decreases l, 1, 0
  {
    var number := Num(|v.items|);
    var start := building[NameOf(l.length) := number];
    var b := Build(l.length, number, start).value;
    var shared := b.context[NameOf(l.elem) := v];
    var c := BuildMany(l.elem, v.items, 0, shared).value;
    assert b.bytes + c.bytes + suffix == b.bytes + (c.bytes + suffix);
    BuiltRoundTrip(l.length, number, start, parsing, c.bytes + suffix);
    var p := Parse(l.length, b.bytes + (c.bytes + suffix), parsing).value;
    assert v.items[..0] == [];
    ManyRoundTrip(l.elem, v.items, 0, shared, p.context[NameOf(l.length) := number], suffix);
  }

  lemma {:induction false} FieldsRoundTrip(l: Layout, i: nat, v: Value, building: Context, parsing: Context, suffix: seq<byte>, members: map<FieldName, Value>)
    requires l.Struct? && i <= |l.fields| && Lossless(l, v)
    requires BuildFields(l, i, v, building).Ok? && FirstMembers(l, v, i, members)
    ensures var p := ParseFields(l, i, BuildFields(l, i, v, building).value.bytes + suffix, parsing, members);
      p.Ok? && p.value.value == v && p.value.rest == suffix
    decreases l, 1, |l.fields| - i, 1
  {
    if i == |l.fields| {
      FieldsDone(l, i, v, building, parsing, suffix, members);
    } else {
      var next := i + 1;
      var nextBuilding, nextParsing, more := FieldRoundTrip(l, i, next, v, building, parsing, suffix, members);
      FieldsRoundTrip(l, next, v, nextBuilding, nextParsing, suffix, more);
    }
  }

  lemma FieldsDone(l: Layout, i: nat, v: Value, building: Context, parsing: Context, suffix: seq<byte>, members: map<FieldName, Value>)
    requires l.Struct? && i == |l.fields| && Lossless(l, v) && FirstMembers(l, v, i, members)
    ensures BuildFields(l, i, v, building).Ok?
    ensures ParseFields(l, i, BuildFields(l, i, v, building).value.bytes + suffix, parsing, members) == Ok(Parsed(v, suffix, parsing))
  {
    assert [] + suffix == suffix;
    AllMembers(l, v, members);
  }

  /** One field: what remains is the round trip of the fields behind it. */
  lemma {:induction false} FieldRoundTrip(l: Layout, i: nat, next: nat, v: Value, building: Context, parsing: Context, suffix: seq<byte>, members: map<FieldName, Value>)
    returns (nextBuilding: Context, nextParsing: Context, more: map<FieldName, Value>)
    requires l.Struct? && i < |l.fields| && next == i + 1 && Lossless(l, v) && BuildFields(l, i, v, building).Ok?
    requires FirstMembers(l, v, i, members)
    ensures BuildFields(l, next, v, nextBuilding).Ok? && FirstMembers(l, v, next, more)
    ensures ParseFields(l, i, BuildFields(l, i, v, building).value.bytes + suffix, parsing, members)
      == ParseFields(l, next, BuildFields(l, next, v, nextBuilding).value.bytes + suffix, nextParsing, more)
    decreases l, 1, |l.fields| - i, 0
  {
    var f, name := l.fields[i], NameOf(l.fields[i]);
    assert MemberLossless(l, v, i);
    var x := v.members[name];
    var start := building[name := x];
    var b := Build(f, x, start).value;
    nextBuilding, more := b.context, members[name := x];
    var tail := BuildFields(l, next, v, nextBuilding).value.bytes + suffix;
    assert BuildFields(l, i, v, building).value.bytes + suffix == b.bytes + tail;
    BuiltRoundTrip(f, x, start, parsing, tail);
    nextParsing := Parse(f, b.bytes + tail, parsing).value.context[name := x];
    MemberAdded(l, v, i, members);
  }

  lemma AllMembers(l: Layout, v: Value, members: map<FieldName, Value>)
    requires l.Struct? && v.Rec? && FirstMembers(l, v, |l.fields|, members) && FirstMembers(l, v, |l.fields|, v.members)
    ensures Rec(members) == v
  {
    assert forall name :: name in members <==> name in v.members;
    assert members == v.members;
  }

  lemma MemberAdded(l: Layout, v: Value, i: nat, members: map<FieldName, Value>)
    requires l.Struct? && v.Rec? && i < |l.fields| && NameOf(l.fields[i]) in v.members && FirstMembers(l, v, i, members)
    ensures FirstMembers(l, v, i + 1, members[NameOf(l.fields[i]) := v.members[NameOf(l.fields[i])]])
  {
    var name := NameOf(l.fields[i]);
    forall other ensures FieldBefore(l, i + 1, other) <==> other == name || FieldBefore(l, i, other) {
      if other == name { assert NameOf(l.fields[i]) == other; }
    }
  }

  // ----- which bytes are written -----

  /** The digits of an integer in two's complement, the lowest first or last. */
  function Digits(x: int, n: nat, littleEndian: bool): seq<byte> {
    seq(n, i requires 0 <= i < n => DigitAt(x, if littleEndian then i else n - 1 - i))
  }

  /** The bytes of an object, without any context: digits, a string and its terminator, members in declared order,
      elements in order, and a count before its elements. */
  function Encoding(l: Layout, v: Value): seq<byte>
    decreases l, 2, 0
  {
    match l
    case Int(_, n, _, littleEndian) => if v.Num? then Digits(v.number, n, littleEndian) else []
    case CString(_) => if v.Text? then v.text + [0] else []
    case Struct(_, fields) => EncodingOfFields(l, 0, v)
    case Array(_, e) => if v.List? then EncodingOfMany(e, v.items, 0) else []
    case Prefixed(length, e) => if v.List? then Encoding(length, Num(|v.items|)) + EncodingOfMany(e, v.items, 0) else []
  }

  function EncodingOfFields(l: Layout, i: nat, v: Value): seq<byte>
    requires l.Struct? && i <= |l.fields|
    decreases l, 1, |l.fields| - i
  {
    if i == |l.fields| || !v.Rec? || NameOf(l.fields[i]) !in v.members then []
    else Encoding(l.fields[i], v.members[NameOf(l.fields[i])]) + EncodingOfFields(l, i + 1, v)
  }

  function EncodingOfMany(l: Layout, items: seq<Value>, i: nat): seq<byte>
    requires i <= |items|
    decreases l, 3, |items| - i
  {
    if i == |items| then [] else Encoding(l, items[i]) + EncodingOfMany(l, items, i + 1)
  }

  lemma PackIsDigits(x: int, n: nat, littleEndian: bool)
    ensures Pack(x, n, littleEndian) == Digits(x, n, littleEndian)
  {
    forall i | 0 <= i < n ensures Pack(x, n, littleEndian)[i] == Digits(x, n, littleEndian)[i] {
      ToBytesDigits(x, n, if littleEndian then i else n - 1 - i, littleEndian);
    }
  }

  /** What is built are those bytes, in any context. */
  lemma {:induction false} BuildIsEncoding(l: Layout, v: Value, context: Context)
    requires Lossless(l, v) && Build(l, v, context).Ok?
    ensures Build(l, v, context).value.bytes == Encoding(l, v)
    decreases l, 2, 0
  {
    match l
    case Int(_, n, signed, littleEndian) => PackIsDigits(v.number, n, littleEndian);
    case CString(_) => TextRoundTrip(v.text, [], [], context);
    case Struct(_, _) => FieldsAreEncoding(l, 0, v, map[]);
    case Array(_, e) => ManyAreEncoding(e, v.items, 0, context);
    case Prefixed(length, e) =>
      var number := Num(|v.items|);
      var start := context[NameOf(length) := number];
      BuildIsEncoding(length, number, start);
      ManyAreEncoding(e, v.items, 0, Build(length, number, start).value.context[NameOf(e) := v]);
  }

  lemma {:induction false} ManyAreEncoding(l: Layout, items: seq<Value>, i: nat, context: Context)
    requires i <= |items| && (forall k :: i <= k < |items| ==> Lossless(l, items[k])) && BuildMany(l, items, i, context).Ok?
    ensures BuildMany(l, items, i, context).value.bytes == EncodingOfMany(l, items, i)
    decreases l, 3, |items| - i
  {
    if i < |items| {
      BuildIsEncoding(l, items[i], context);
      ManyAreEncoding(l, items, i + 1, Build(l, items[i], context).value.context);
    }
  }

  lemma {:induction false} FieldsAreEncoding(l: Layout, i: nat, v: Value, context: Context)
    requires l.Struct? && i <= |l.fields| && v.Rec? && (forall k :: i <= k < |l.fields| ==> MemberLossless(l, v, k))
    requires BuildFields(l, i, v, context).Ok?
    ensures BuildFields(l, i, v, context).value.bytes == EncodingOfFields(l, i, v)
    decreases l, 1, |l.fields| - i
  {
    if i < |l.fields| {
      var f := l.fields[i];
      var x := v.members[NameOf(f)];
      var start := context[NameOf(f) := x];
      assert MemberLossless(l, v, i);
      BuildIsEncoding(f, x, start);
      FieldsAreEncoding(l, i + 1, v, Build(f, x, start).value.context);
    }
  }

  // ----- the conditions are needed -----

  /** Whatever goes wrong in an element, an array never fails with the error of a field. */
  lemma {:induction false} ArrayFailure(l: Layout, n: int, s: seq<byte>, context: Context, items: seq<Value>)
    ensures ParseMany(l, n, s, context, items).Err? ==> ParseMany(l, n, s, context, items).error != FieldError
    decreases n
  {
    if n > 0 && Parse(l, s, context).Ok? {
      var p := Parse(l, s, context).value;
      ArrayFailure(l, n - 1, p.rest, p.context, items + [p.value]);
    }
  }

  /** A string that builds comes back as itself if and only if it is NUL-free; otherwise it comes back cut. */
  lemma {:induction false} TextIff(t: seq<byte>, suffix: seq<byte>, acc: seq<byte>, context: Context)
    ensures var p := ParseText(UpToNul(t + [0]) + suffix, acc, context);
      p.Ok? && p.value.rest == suffix && (p.value.value == Text(acc + t) <==> 0 !in t)
    decreases |t|
  {
    var s := UpToNul(t + [0]) + suffix;
    if t == [] || t[0] == 0 {
      assert |acc + t| == |acc| + |t|;
      assert s[0] == 0 && s[1..] == suffix && (t == [] ==> acc + t == acc);
    } else {
      assert (t + [0])[1..] == t[1..] + [0];
      assert s[0] == t[0] && s[1..] == UpToNul(t[1..] + [0]) + suffix;
      TextIff(t[1..], suffix, acc + [t[0]], context);
      assert acc + [t[0]] + t[1..] == acc + t;
    }
  }

  /** A PrefixedArray whose element has the name of its length field parses but never builds. */
  lemma SameNameNeverBuilds(l: Layout, v: Value, context: Context)
    requires l.Prefixed? && NameOf(l.length) == NameOf(l.elem)
    ensures Build(l, v, context).Err?
  {
    BuildsIff(l, v, context);
  }
}
