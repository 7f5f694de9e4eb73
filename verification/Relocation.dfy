/** Relocations applied in place to the bytes of a section. */
module Relocation {
  import opened Common
  import opened Streams

  /** The `_reloc_calc_*` functions. */
  datatype Formula =
    | Identity | SymPlusValue | SymPlusValuePcrel | SymPlusAddend | SymPlusAddendPcrel
    | ValueMinusSymAddend | ArmPcrel | Bpf

  datatype Recipe = Recipe(bytesize: nat, hasAddend: bool, formula: Formula)

  /** An architecture: whether it demands RELA (or REL) entries, its recipes for either kind, and the types
      that it refuses in a RELA entry with secondary types. */
  datatype Machine = Machine(demandsRela: Option<bool>, rel: map<nat, Recipe>, rela: map<nat, Recipe>, single: set<nat>)

  /** `addend` is present in RELA entries; `combined` says that r_type2, r_type3 or r_ssym is not zero. */
  datatype Reloc = Reloc(offset: nat, sym: nat, kind: nat, addend: Option<int>, combined: bool)

  /** What does not change while a list is applied: `symbols` are the st_value fields. */
  datatype Context = Context(machine: Machine, symbols: seq<nat>, littleEndian: bool)

  datatype Error = BadSymbol | UnexpectedKind | Combined | UnsupportedType | BadSize | ShortRead | NoAddend

  function Calculate(f: Formula, value: int, sym: int, offset: int, addend: int): int {
    match f
    case Identity => value
    case SymPlusValue => sym + value + addend
    case SymPlusValuePcrel => sym + value - offset
    case SymPlusAddend => sym + addend
    case SymPlusAddendPcrel => sym + addend - offset
    case ValueMinusSymAddend => value - sym - addend
    case ArmPcrel => sym / 4 + value - offset / 4
    case Bpf => (sym + addend) / 8 - 1
  }

  /** `x` wrapped around to `n` bytes. */
  function Cut(x: int, n: nat): (r: nat)
    ensures r < Pow256(n)
  {
    x % Pow256(n)
  }

  // ----- one relocation -----

  function RecipeFor(m: Machine, r: Reloc): Result<Recipe, Error> {
    if m.demandsRela.Some? && m.demandsRela.value != r.addend.Some? then Err(UnexpectedKind)
    else if r.addend.Some? && r.combined && r.kind in m.single then Err(Combined)
    else
      var recipes := if r.addend.Some? then m.rela else m.rel;
      if r.kind !in recipes then Err(UnsupportedType)
      else if recipes[r.kind].bytesize !in [1, 2, 4, 8] then Err(BadSize)
      else Ok(recipes[r.kind])
  }

  /** Why a relocation cannot be applied to a section of the given length. */
  function Problem(c: Context, r: Reloc, length: nat): Option<Error> {
    if r.sym >= |c.symbols| then Some(BadSymbol)
    else match RecipeFor(c.machine, r)
      case Err(e) => Some(e)
      case Ok(recipe) =>
        if r.offset + recipe.bytesize > length then Some(ShortRead)
        else if recipe.hasAddend && r.addend.None? then Some(NoAddend)
        else None
  }

  function Size(c: Context, r: Reloc): nat
    requires RecipeFor(c.machine, r).Ok?
  {
    RecipeFor(c.machine, r).value.bytesize
  }

  /** The relocated value of a field that holds `value`. */
  function Relocated(c: Context, r: Reloc, value: nat): nat
    requires r.sym < |c.symbols| && RecipeFor(c.machine, r).Ok?
  {
    var recipe := RecipeFor(c.machine, r).value;
    var addend := if recipe.hasAddend && r.addend.Some? then r.addend.value else 0;
    Cut(Calculate(recipe.formula, value, c.symbols[r.sym], r.offset, addend), recipe.bytesize)
  }

  function NewField(c: Context, r: Reloc, field: seq<byte>): (s: seq<byte>)
    requires r.sym < |c.symbols| && RecipeFor(c.machine, r).Ok?
    ensures |s| == Size(c, r)
  {
    ToBytes(Relocated(c, r, Number(field, c.littleEndian)), Size(c, r), c.littleEndian)
  }

  function Field(c: Context, r: Reloc, bytes: seq<byte>): seq<byte>
    requires Problem(c, r, |bytes|).None?
  {
    bytes[r.offset..r.offset + Size(c, r)]
  }

  function ApplyOne(c: Context, r: Reloc, bytes: seq<byte>): (s: seq<byte>)
    requires Problem(c, r, |bytes|).None?
    ensures |s| == |bytes|
  {
    bytes[..r.offset] + NewField(c, r, Field(c, r, bytes)) + bytes[r.offset + Size(c, r)..]
  }

  /** The bytes after the list, and the error that stopped it. */
  datatype Applied = Applied(bytes: seq<byte>, error: Option<Error>)

  function Apply(c: Context, rs: seq<Reloc>, bytes: seq<byte>): (r: Applied)
    ensures |r.bytes| == |bytes|
  {
    if rs == [] then Applied(bytes, None)
    else if Problem(c, rs[0], |bytes|).Some? then Applied(bytes, Problem(c, rs[0], |bytes|))
    else Apply(c, rs[1..], ApplyOne(c, rs[0], bytes))
  }

  // ----- in place -----

  lemma OneMoreByte(before: seq<byte>, offset: nat, s: seq<byte>, i: nat, now: seq<byte>)
    requires offset + |s| <= |before| && i < |s| && now == before[..offset] + s[..i] + before[offset + i..]
    ensures now[offset + i := s[i]] == before[..offset] + s[..i + 1] + before[offset + i + 1..]
  {
  }

  method WriteBytes(a: array<byte>, offset: nat, s: seq<byte>)
    requires offset + |s| <= a.Length
    modifies a
    ensures a[..] == old(a[..])[..offset] + s + old(a[..])[offset + |s|..]
  {
    ghost var before := a[..];
    for i := 0 to |s|
      invariant a[..] == before[..offset] + s[..i] + before[offset + i..]
    {
      ghost var now := a[..];
      OneMoreByte(before, offset, s, i, now);
      a[offset + i] := s[i];
      assert a[..] == now[offset + i := s[i]];
    }
    assert s[..|s|] == s;
  }

  /** `_do_apply_relocation`. */
  method DoApplyRelocation(c: Context, a: array<byte>, r: Reloc) returns (error: Option<Error>)
    modifies a
    ensures error == Problem(c, r, a.Length)
    ensures a[..] == if error.None? then ApplyOne(c, r, old(a[..])) else old(a[..])
  {
    if r.sym >= |c.symbols| { return Some(BadSymbol); }
    var recipe := RecipeFor(c.machine, r);
    if recipe.Err? { return Some(recipe.error); }
    var size := recipe.value.bytesize;
    if r.offset + size > a.Length { return Some(ShortRead); }
    var value := Number(a[r.offset..r.offset + size], c.littleEndian);
    if recipe.value.hasAddend && r.addend.None? { return Some(NoAddend); }
    assert a[r.offset..r.offset + size] == a[..][r.offset..r.offset + size];
    WriteBytes(a, r.offset, ToBytes(Relocated(c, r, value), size, c.littleEndian));
    error := None;
  }

  /** `apply_section_relocations`. */
  method ApplySectionRelocations(c: Context, a: array<byte>, rs: seq<Reloc>) returns (error: Option<Error>)
    modifies a
    ensures Applied(a[..], error) == Apply(c, rs, old(a[..]))
  {
    for i := 0 to |rs|
      invariant Apply(c, rs[i..], a[..]) == Apply(c, rs, old(a[..]))
    {
      error := DoApplyRelocation(c, a, rs[i]);
      assert rs[i..][1..] == rs[i + 1..];
      if error.Some? { return; }
    }
    error := None;
  }

  // ----- only the addressed fields change -----

  ghost predicate Inside(c: Context, r: Reloc, k: int)
    requires RecipeFor(c.machine, r).Ok?
  {
    r.offset <= k < r.offset + Size(c, r)
  }

  ghost predicate Addresses(c: Context, r: Reloc, k: int) {
    RecipeFor(c.machine, r).Ok? && Inside(c, r, k)
  }

  lemma OneChange(c: Context, r: Reloc, bytes: seq<byte>)
    requires Problem(c, r, |bytes|).None?
    ensures Field(c, r, ApplyOne(c, r, bytes)) == NewField(c, r, Field(c, r, bytes))
    ensures forall k :: 0 <= k < |bytes| && !Addresses(c, r, k) ==> ApplyOne(c, r, bytes)[k] == bytes[k]
  {
  }

  /** Whatever the list, and whether or not an error stops it, a byte that no field contains is kept. */
  lemma {:induction false} OthersKept(c: Context, rs: seq<Reloc>, bytes: seq<byte>, k: nat)
    requires k < |bytes| && forall i :: 0 <= i < |rs| ==> !Addresses(c, rs[i], k)
    ensures Apply(c, rs, bytes).bytes[k] == bytes[k]
    decreases |rs|
  {
    if rs != [] && Problem(c, rs[0], |bytes|).None? {
      OneChange(c, rs[0], bytes);
      OthersKept(c, rs[1..], ApplyOne(c, rs[0], bytes), k);
    }
  }

  /** A list is applied to its end exactly when every entry of it could be applied on its own. */
  lemma {:induction false} ErrorIff(c: Context, rs: seq<Reloc>, bytes: seq<byte>)
    ensures Apply(c, rs, bytes).error.None? <==> forall i :: 0 <= i < |rs| ==> Problem(c, rs[i], |bytes|).None?
    decreases |rs|
  {
    if rs != [] {
      if Problem(c, rs[0], |bytes|).None? {
        ErrorIff(c, rs[1..], ApplyOne(c, rs[0], bytes));
        assert forall i :: 0 < i < |rs| ==> rs[i] == rs[1..][i - 1];
      }
    }
  }

  // ----- disjoint fields: any order -----

  ghost predicate Apart(c: Context, r: Reloc, s: Reloc) {
    forall k: int :: !(Addresses(c, r, k) && Addresses(c, s, k))
  }

  ghost predicate Disjoint(c: Context, rs: seq<Reloc>) {
    forall i, j :: 0 <= i < j < |rs| ==> Apart(c, rs[i], rs[j])
  }

  ghost predicate AllFine(c: Context, rs: seq<Reloc>, length: nat) {
    forall r :: r in rs ==> Problem(c, r, length).None?
  }

  lemma SameField(c: Context, r: Reloc, x: seq<byte>, y: seq<byte>)
    requires |x| == |y| && Problem(c, r, |x|).None?
    requires forall k :: 0 <= k < |x| && Addresses(c, r, k) ==> x[k] == y[k]
    ensures Field(c, r, x) == Field(c, r, y)
  {
    forall k | r.offset <= k < r.offset + Size(c, r) ensures x[k] == y[k] { assert Addresses(c, r, k); }
  }

  lemma OneKeeps(c: Context, s: Reloc, bytes: seq<byte>, r: Reloc)
    requires Problem(c, s, |bytes|).None? && Problem(c, r, |bytes|).None? && Apart(c, s, r)
    ensures Field(c, r, ApplyOne(c, s, bytes)) == Field(c, r, bytes)
  {
    OneChange(c, s, bytes);
    SameField(c, r, ApplyOne(c, s, bytes), bytes);
  }

  lemma ListKeeps(c: Context, rs: seq<Reloc>, bytes: seq<byte>, r: Reloc)
    requires Problem(c, r, |bytes|).None? && forall s :: s in rs ==> Apart(c, r, s)
    ensures Field(c, r, Apply(c, rs, bytes).bytes) == Field(c, r, bytes)
  {
    forall k | 0 <= k < |bytes| && Addresses(c, r, k) ensures Apply(c, rs, bytes).bytes[k] == bytes[k] {
      assert forall i :: 0 <= i < |rs| ==> Apart(c, r, rs[i]);
      OthersKept(c, rs, bytes, k);
    }
    SameField(c, r, Apply(c, rs, bytes).bytes, bytes);
  }

  lemma ApplyFirst(c: Context, rs: seq<Reloc>, bytes: seq<byte>)
    requires rs != [] && Problem(c, rs[0], |bytes|).None?
    ensures Apply(c, rs, bytes) == Apply(c, rs[1..], ApplyOne(c, rs[0], bytes))
  {
  }

  /** With disjoint fields every field ends as its own relocation of its original value. */
  lemma {:induction false} FieldsOnTheirOwn(c: Context, rs: seq<Reloc>, bytes: seq<byte>, r: Reloc)
    requires Disjoint(c, rs) && AllFine(c, rs, |bytes|) && r in rs
    ensures Problem(c, r, |bytes|).None?
    ensures Field(c, r, Apply(c, rs, bytes).bytes) == NewField(c, r, Field(c, r, bytes))
    decreases |rs|
  {
    var first, rest := rs[0], rs[1..];
    var after := ApplyOne(c, first, bytes);
    ApplyFirst(c, rs, bytes);
    forall s | s in rest ensures s in rs && Apart(c, first, s) {
      var i :| 0 <= i < |rest| && rest[i] == s;
      assert rs[i + 1] == s;
    }
    if r == first {
      OneChange(c, r, bytes);
      ListKeeps(c, rest, after, r);
    } else {
      assert r in rest;
      FieldsOnTheirOwn(c, rest, after, r);
      OneKeeps(c, first, bytes, r);
    }
  }

  lemma ByteOfField(c: Context, r: Reloc, x: seq<byte>, y: seq<byte>, k: nat)
    requires |x| == |y| && k < |x| && Problem(c, r, |x|).None? && Addresses(c, r, k) && Field(c, r, x) == Field(c, r, y)
    ensures x[k] == y[k]
  {
    assert x[k] == Field(c, r, x)[k - r.offset] && y[k] == Field(c, r, y)[k - r.offset];
  }

  /** Every byte after a list with disjoint fields is determined by the set of its entries. */
  lemma SameByte(c: Context, rs: seq<Reloc>, ss: seq<Reloc>, bytes: seq<byte>, k: nat)
    requires (forall r :: r in rs <==> r in ss) && Disjoint(c, rs) && Disjoint(c, ss) && AllFine(c, rs, |bytes|) && k < |bytes|
    ensures Apply(c, rs, bytes).bytes[k] == Apply(c, ss, bytes).bytes[k]
  {
    if r :| r in rs && Addresses(c, r, k) {
      FieldsOnTheirOwn(c, rs, bytes, r);
      FieldsOnTheirOwn(c, ss, bytes, r);
      ByteOfField(c, r, Apply(c, rs, bytes).bytes, Apply(c, ss, bytes).bytes, k);
    } else {
      forall i | 0 <= i < |ss| ensures !Addresses(c, ss[i], k) { assert ss[i] in ss; }
      OthersKept(c, rs, bytes, k);
      OthersKept(c, ss, bytes, k);
    }
  }

  /** Lists with the same entries and pairwise disjoint fields give the same bytes, in whatever order. */
  lemma AnyOrder(c: Context, rs: seq<Reloc>, ss: seq<Reloc>, bytes: seq<byte>)
    requires multiset(rs) == multiset(ss) && Disjoint(c, rs) && Disjoint(c, ss) && AllFine(c, rs, |bytes|)
    ensures Apply(c, rs, bytes) == Apply(c, ss, bytes)
  {
    assert forall r :: r in rs <==> r in multiset(rs);
    assert forall r :: r in ss <==> r in multiset(ss);
    ErrorIff(c, rs, bytes);
    ErrorIff(c, ss, bytes);
    assert forall i :: 0 <= i < |ss| ==> ss[i] in ss;
    forall k | 0 <= k < |bytes| ensures Apply(c, rs, bytes).bytes[k] == Apply(c, ss, bytes).bytes[k] {
      SameByte(c, rs, ss, bytes, k);
    }
  }

  // ----- ADD and SUB entries on one field -----

  ghost predicate AddsOrSubtracts(c: Context, r: Reloc) {
    && r.sym < |c.symbols| && RecipeFor(c.machine, r).Ok? && r.addend.Some?
    && var recipe := RecipeFor(c.machine, r).value;
      recipe.hasAddend && (recipe.formula.SymPlusValue? || recipe.formula.ValueMinusSymAddend?)
  }

  /** The signed contribution of one entry. */
  function Delta(c: Context, r: Reloc): int
    requires AddsOrSubtracts(c, r)
  {
    var x := c.symbols[r.sym] + r.addend.value;
    if RecipeFor(c.machine, r).value.formula.SymPlusValue? then x else -x
  }

  ghost predicate OnField(c: Context, rs: seq<Reloc>, offset: nat, n: nat) {
    forall r :: r in rs ==> AddsOrSubtracts(c, r) && r.offset == offset && Size(c, r) == n
  }

  function TotalDelta(c: Context, rs: seq<Reloc>): int
    requires forall r :: r in rs ==> AddsOrSubtracts(c, r)
  {
    if rs == [] then 0 else Delta(c, rs[0]) + TotalDelta(c, rs[1..])
  }

  lemma CutPlus(v: int, u: int, a: int, b: int, all: int, n: nat)
    requires u == Cut(v + a, n) && all == a + b
    ensures Cut(u + b, n) == Cut(v + all, n)
  {
    var w, x := Pow256(n), v + a;
    var q, m := x / w, x % w + b;
    assert x == q * w + x % w && m == m / w * w + m % w;
    assert v + all == (q + m / w) * w + m % w;
    DivModUnique(v + all, w, q + m / w, m % w);
  }

  lemma RelocatedByDelta(c: Context, r: Reloc, v: nat, d: int, n: nat, u: nat)
    requires AddsOrSubtracts(c, r) && Size(c, r) == n && d == Delta(c, r) && u == Cut(v + d, n)
    ensures Relocated(c, r, v) == u
  {
    var recipe := RecipeFor(c.machine, r).value;
    assert Calculate(recipe.formula, v, c.symbols[r.sym], r.offset, r.addend.value) == v + d;
  }

  /** The number that a field holds. */
  function Value(bytes: seq<byte>, offset: nat, n: nat, littleEndian: bool): nat
    requires offset + n <= |bytes|
  {
    Number(bytes[offset..offset + n], littleEndian)
  }

  lemma FieldIs(c: Context, r: Reloc, offset: nat, n: nat, bytes: seq<byte>)
    requires AddsOrSubtracts(c, r) && r.offset == offset && Size(c, r) == n && offset + n <= |bytes|
    ensures Problem(c, r, |bytes|).None? && Field(c, r, bytes) == bytes[offset..offset + n]
  {
  }

  lemma NewValue(c: Context, r: Reloc, field: seq<byte>, v: nat, u: nat)
    requires r.sym < |c.symbols| && RecipeFor(c.machine, r).Ok?
    requires v == Number(field, c.littleEndian) && u == Relocated(c, r, v)
    ensures Number(NewField(c, r, field), c.littleEndian) == u
  {
    NumberOfBytes(u, Size(c, r), c.littleEndian);
  }

  /** A relocation can be applied if and only if its symbol exists, its kind of entry and its type are supported, the
      field lies in the section, and an addend that the recipe needs is there. */
  lemma AppliesIff(c: Context, r: Reloc, length: nat)
    ensures Problem(c, r, length).None? <==>
      && r.sym < |c.symbols|
      && (c.machine.demandsRela == Some(true) ==> r.addend.Some?) && (c.machine.demandsRela == Some(false) ==> r.addend.None?)
      && !(r.addend.Some? && r.combined && r.kind in c.machine.single)
      && (r.addend.Some? ==> r.kind in c.machine.rela) && (r.addend.None? ==> r.kind in c.machine.rel)
      && var recipe := if r.addend.Some? then c.machine.rela[r.kind] else c.machine.rel[r.kind];
         && (recipe.bytesize == 1 || recipe.bytesize == 2 || recipe.bytesize == 4 || recipe.bytesize == 8)
         && r.offset + recipe.bytesize <= length && (recipe.hasAddend ==> r.addend.Some?)
  {
  }

  /** What each formula makes of a field that holds `v`: the new value `u`, up to a multiple of the width `w`. */
  ghost predicate Meets(f: Formula, u: int, v: int, sym: int, offset: int, addend: int, w: nat)
    requires w > 0
  {
    match f
    case Identity => (u - v) % w == 0
    case SymPlusValue => (u - sym - v - addend) % w == 0
    case SymPlusValuePcrel => (u + offset - sym - v) % w == 0
    case SymPlusAddend => (u - sym - addend) % w == 0
    case SymPlusAddendPcrel => (u + offset - sym - addend) % w == 0
    case ValueMinusSymAddend => (u + sym + addend - v) % w == 0
    case ArmPcrel => (u + offset / 4 - sym / 4 - v) % w == 0
    case Bpf => (u + 1 - (sym + addend) / 8) % w == 0
  }

  lemma CutMeets(x: int, n: nat, d: int)
    requires d == Cut(x, n) - x
    ensures d % Pow256(n) == 0
  {
    var w := Pow256(n);
    var q := x / w;
    assert d == (-q) * w + 0;
    DivModUnique(d, w, -q, 0);
  }

  lemma CalculationMeets(f: Formula, v: int, sym: int, offset: int, addend: int, n: nat, u: nat)
    requires u == Cut(Calculate(f, v, sym, offset, addend), n)
    ensures Meets(f, u, v, sym, offset, addend, Pow256(n))
  {
    var x := Calculate(f, v, sym, offset, addend);
    CutMeets(x, n, u - x);
  }

  /** After an applied relocation its field holds the number that its formula asks for, with the addend only where
      the recipe has one. */
  lemma FieldMeaning(c: Context, r: Reloc, bytes: seq<byte>, recipe: Recipe, addend: int, v: nat, u: nat)
    requires Problem(c, r, |bytes|).None? && RecipeFor(c.machine, r) == Ok(recipe)
    requires addend == if recipe.hasAddend then r.addend.value else 0
    requires v == Value(bytes, r.offset, recipe.bytesize, c.littleEndian)
    requires u == Value(ApplyOne(c, r, bytes), r.offset, recipe.bytesize, c.littleEndian)
    ensures u < Pow256(recipe.bytesize) && Meets(recipe.formula, u, v, c.symbols[r.sym], r.offset, addend, Pow256(recipe.bytesize))
  {
    var n := recipe.bytesize;
    var field, after := Field(c, r, bytes), ApplyOne(c, r, bytes);
    assert after[r.offset..r.offset + n] == NewField(c, r, field);
    NewValue(c, r, field, v, Relocated(c, r, v));
    CalculationMeets(recipe.formula, v, c.symbols[r.sym], r.offset, addend, n, u);
  }

  lemma DeltaOnField(c: Context, r: Reloc, offset: nat, n: nat, bytes: seq<byte>, v: nat, d: int, u: nat)
    requires AddsOrSubtracts(c, r) && r.offset == offset && Size(c, r) == n && offset + n <= |bytes|
    requires v == Value(bytes, offset, n, c.littleEndian) && d == Delta(c, r) && u == Cut(v + d, n)
    ensures Problem(c, r, |bytes|).None?
    ensures Value(ApplyOne(c, r, bytes), offset, n, c.littleEndian) == u
  {
    FieldIs(c, r, offset, n, bytes);
    var field, after := Field(c, r, bytes), ApplyOne(c, r, bytes);
    FieldIs(c, r, offset, n, after);
    OneChange(c, r, bytes);
    RelocatedByDelta(c, r, v, d, n, u);
    NewValue(c, r, field, v, u);
    assert Value(after, offset, n, c.littleEndian) == Number(NewField(c, r, field), c.littleEndian);
  }

  lemma TotalFirst(c: Context, rs: seq<Reloc>)
    requires rs != [] && forall r :: r in rs ==> AddsOrSubtracts(c, r)
    ensures TotalDelta(c, rs) == Delta(c, rs[0]) + TotalDelta(c, rs[1..])
  {
  }

  /** Any sequence of ADD and SUB entries on one field leaves the original value `v` plus the signed sum,
      in the field's width. */
  lemma {:induction false} AddSubSum(c: Context, rs: seq<Reloc>, offset: nat, n: nat, bytes: seq<byte>, v: nat, total: int)
    requires OnField(c, rs, offset, n) && offset + n <= |bytes|
    requires v == Value(bytes, offset, n, c.littleEndian) && total == TotalDelta(c, rs)
    ensures Apply(c, rs, bytes).error == None
    ensures Cut(Value(Apply(c, rs, bytes).bytes, offset, n, c.littleEndian), n) == Cut(v + total, n)
    decreases |rs|
  {
    if rs != [] {
      var r, rest := rs[0], rs[1..];
      assert r in rs && forall s :: s in rest ==> s in rs;
      var d, more := Delta(c, r), TotalDelta(c, rest);
      var u := Cut(v + d, n);
      DeltaOnField(c, r, offset, n, bytes, v, d, u);
      ApplyFirst(c, rs, bytes);
      TotalFirst(c, rs);
      var after := ApplyOne(c, r, bytes);
      AddSubSum(c, rest, offset, n, after, u, more);
      CutPlus(v, u, d, more, total, n);
    }
  }

  lemma ValueFits(bytes: seq<byte>, offset: nat, n: nat, littleEndian: bool)
    requires offset + n <= |bytes|
    ensures Cut(Value(bytes, offset, n, littleEndian), n) == Value(bytes, offset, n, littleEndian)
  {
    var u := Value(bytes, offset, n, littleEndian);
    NumberBounded(bytes[offset..offset + n], littleEndian);
    DivModUnique(u, Pow256(n), 0, u);
  }

  /** The field then holds exactly the original value `v` plus the signed sum, modulo its width. */
  lemma AddSubResult(c: Context, rs: seq<Reloc>, offset: nat, n: nat, bytes: seq<byte>, v: nat, total: int)
    requires OnField(c, rs, offset, n) && offset + n <= |bytes|
    requires v == Value(bytes, offset, n, c.littleEndian) && total == TotalDelta(c, rs)
    ensures Apply(c, rs, bytes).error == None
    ensures Value(Apply(c, rs, bytes).bytes, offset, n, c.littleEndian) == Cut(v + total, n)
  {
    AddSubSum(c, rs, offset, n, bytes, v, total);
    ValueFits(Apply(c, rs, bytes).bytes, offset, n, c.littleEndian);
  }

  // ----- LoongArch -----

  /** The recipes of MIPS: either kind of entry, and R_MIPS_64 only on its own. */
  const Mips := Machine(None,
    map[0 := Recipe(4, false, Identity), 2 := Recipe(4, false, SymPlusValue)],
    map[0 := Recipe(4, true, Identity), 2 := Recipe(4, true, SymPlusValue), 18 := Recipe(8, true, SymPlusValue)],
    {18})

  /** The recipes of LoongArch, which demands RELA entries. */
  const LoongArch := Machine(Some(true), map[], map[
    0 := Recipe(4, false, Identity), 1 := Recipe(4, true, SymPlusAddend), 2 := Recipe(8, true, SymPlusAddend),
    47 := Recipe(1, true, SymPlusValue), 48 := Recipe(2, true, SymPlusValue),
    50 := Recipe(4, true, SymPlusValue), 51 := Recipe(8, true, SymPlusValue),
    52 := Recipe(1, true, ValueMinusSymAddend), 53 := Recipe(2, true, ValueMinusSymAddend),
    55 := Recipe(4, true, ValueMinusSymAddend), 56 := Recipe(8, true, ValueMinusSymAddend),
    99 := Recipe(4, true, SymPlusAddendPcrel), 109 := Recipe(8, true, SymPlusAddendPcrel)], {})

  /** R_LARCH_ADD8 .. R_LARCH_ADD64 and R_LARCH_SUB8 .. R_LARCH_SUB64, with their widths. */
  ghost predicate LoongArchAddSub(c: Context, r: Reloc, n: nat) {
    && c.machine == LoongArch && r.sym < |c.symbols| && r.addend.Some?
    && match n
      case 1 => r.kind in {47, 52}
      case 2 => r.kind in {48, 53}
      case 4 => r.kind in {50, 55}
      case 8 => r.kind in {51, 56}
      case _ => false
  }

  lemma LoongArchRecipe(c: Context, r: Reloc, n: nat)
    requires LoongArchAddSub(c, r, n)
    ensures AddsOrSubtracts(c, r) && Size(c, r) == n
  {
  }

  /** Any sequence of LoongArch ADD and SUB entries of one width on one field is a list to which
      AddSubResult applies. */
  lemma LoongArchOnField(c: Context, rs: seq<Reloc>, offset: nat, n: nat)
    requires forall r :: r in rs ==> LoongArchAddSub(c, r, n) && r.offset == offset
    ensures OnField(c, rs, offset, n)
  {
    forall r | r in rs ensures AddsOrSubtracts(c, r) && Size(c, r) == n { LoongArchRecipe(c, r, n); }
  }
}
