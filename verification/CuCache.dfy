/** The compile units of .debug_info: a lazily filled, bisected cache, direct access by header
    offset, lookup by contained address, and generators over the units, in any interleaving. */
module CuCache {
  import opened Common

  type positive = n: nat | n > 0 witness 1

  /** The header fields of a unit that decide its extent. */
  datatype UnitHeader = UnitHeader(unitLength: nat, lengthFieldSize: positive) {
    function Size(): positive { unitLength + lengthFieldSize }
  }

  datatype Error = DwarfError | ValueError

  /** A section: its size and what the unit header parser yields at each offset. */
  datatype Section = Section(size: nat, header: nat -> UnitHeader) {
    function Next(o: nat): nat { o + header(o).Size() }

    /** The offset at which unit `i` starts, or the section size after the last unit. */
    function StartOf(offs: seq<nat>, i: nat): nat {
      if i < |offs| then offs[i] else size
    }

    /** `offs` lists the units that tile the section. */
    ghost predicate Tiled(offs: seq<nat>) {
      && StartOf(offs, 0) == 0
      && forall i {:trigger Next(offs[i])} :: 0 <= i < |offs| ==>
           offs[i] + header(offs[i]).unitLength + header(offs[i]).lengthFieldSize == StartOf(offs, i + 1)
    }

    lemma {:induction false} StartsIncrease(offs: seq<nat>, i: nat, j: nat)
      requires Tiled(offs) && i < j <= |offs|
      ensures StartOf(offs, i) < StartOf(offs, j)
      decreases j - i
    {
      assert offs[i] < Next(offs[i]);
      if i + 1 < j { StartsIncrease(offs, i + 1, j); }
    }

    /** The reference lookup: walk the units from `o` on. */
    ghost function Scan(offs: seq<nat>, i: nat, refaddr: nat): Option<nat>
      decreases |offs| - i
    {
      if |offs| <= i then None
      else if offs[i] <= refaddr < Next(offs[i]) then Some(offs[i])
      else Scan(offs, i + 1, refaddr)
    }

    /** A scan may start at any unit that does not lie beyond the address. */
    lemma {:induction false} ScanFrom(offs: seq<nat>, i: nat, refaddr: nat)
      requires Tiled(offs) && i < |offs| && offs[i] <= refaddr
      ensures Scan(offs, 0, refaddr) == Scan(offs, i, refaddr)
    {
      if i > 0 {
        StartsIncrease(offs, i - 1, i);
        ScanFrom(offs, i - 1, refaddr);
        assert Next(offs[i - 1]) == StartOf(offs, i);
      }
    }

    /** Every address of the section lies in exactly one unit. */
    lemma {:induction false} ScanFinds(offs: seq<nat>, i: nat, refaddr: nat)
      requires Tiled(offs) && i <= |offs| && StartOf(offs, i) <= refaddr < size
      ensures Scan(offs, i, refaddr).Some?
      ensures forall j :: 0 <= j < |offs| ==> (Scan(offs, i, refaddr) == Some(offs[j]) <==> offs[j] <= refaddr < Next(offs[j]))
      decreases |offs| - i
    {
      assert Next(offs[i]) == StartOf(offs, i + 1);
      if Next(offs[i]) <= refaddr { ScanFinds(offs, i + 1, refaddr); }
      forall j | 0 <= j < |offs|
        ensures Scan(offs, i, refaddr) == Some(offs[j]) <==> offs[j] <= refaddr < Next(offs[j])
      {
        assert Next(offs[j]) == StartOf(offs, j + 1);
        if j < i { StartsNotAfter(offs, j + 1, i); } else if i < j { StartsNotAfter(offs, i + 1, j); StartsIncrease(offs, i, j); }
      }
    }

    lemma StartsNotAfter(offs: seq<nat>, i: nat, j: nat)
      requires Tiled(offs) && i <= j <= |offs|
      ensures StartOf(offs, i) <= StartOf(offs, j)
    {
      if i < j { StartsIncrease(offs, i, j); }
    }

    /** What the loop of `get_CU_containing` finds when it starts at any offset: the first header on the way
        from there whose extent contains the address. */
    ghost function From(o: nat, refaddr: nat): Option<nat>
      decreases size - o
    {
      if size <= o then None
      else if o <= refaddr < Next(o) then Some(o)
      else From(Next(o), refaddr)
    }

    /** The walk over headers from `o` comes to `target`. */
    ghost predicate Reaches(o: nat, target: nat)
      decreases target - o
    {
      o == target || (o < target && Reaches(Next(o), target))
    }

    lemma {:induction false} FromReaches(o: nat, refaddr: nat)
      ensures From(o, refaddr).Some? ==> var f := From(o, refaddr).value; Reaches(o, f) && f <= refaddr < Next(f) && f < size
      decreases size - o
    {
      if o < size && !(o <= refaddr < Next(o)) { FromReaches(Next(o), refaddr); }
    }

    lemma {:induction false} ReachedIsFound(o: nat, target: nat, refaddr: nat)
      requires Reaches(o, target) && target <= refaddr < Next(target) && target < size
      ensures From(o, refaddr) == Some(target)
      decreases target - o
    {
      if o != target {
        ReachesNotBelow(Next(o), target);
        ReachedIsFound(Next(o), target, refaddr);
      }
    }

    lemma {:induction false} ReachesNotBelow(o: nat, target: nat)
      requires Reaches(o, target)
      ensures o <= target
    {
    }

    /** A start that is a unit reaches every later unit. */
    lemma {:induction false} UnitsReached(offs: seq<nat>, i: nat, j: nat)
      requires Tiled(offs) && i <= j < |offs|
      ensures Reaches(offs[i], offs[j])
      decreases j - i
    {
      if i < j {
        assert Next(offs[i]) == StartOf(offs, i + 1);
        UnitsReached(offs, i + 1, j);
        StartsNotAfter(offs, i + 1, j);
      }
    }

    /** From any start at or below the address, the loop finds the unit that a scan from offset 0 finds if and
        only if the headers lead from the start to that unit. */
    lemma FromIsScanIff(offs: seq<nat>, start: nat, refaddr: nat)
      requires Tiled(offs) && start <= refaddr < size
      ensures Scan(offs, 0, refaddr).Some?
      ensures From(start, refaddr) == Scan(offs, 0, refaddr) <==> Reaches(start, Scan(offs, 0, refaddr).value)
    {
      ScanFinds(offs, 0, refaddr);
      var target := Scan(offs, 0, refaddr).value;
      ScanContains(offs, 0, refaddr);
      FromReaches(start, refaddr);
      if Reaches(start, target) { ReachedIsFound(start, target, refaddr); }
    }

    lemma {:induction false} ScanContains(offs: seq<nat>, i: nat, refaddr: nat)
      ensures Scan(offs, i, refaddr).Some? ==> var u := Scan(offs, i, refaddr).value; u in offs && u <= refaddr < Next(u)
      decreases |offs| - i
    {
      if i < |offs| { ScanContains(offs, i + 1, refaddr); }
    }

    /** In particular from any unit that does not lie beyond the address. */
    lemma FromUnit(offs: seq<nat>, start: nat, refaddr: nat)
      requires Tiled(offs) && start in offs && start <= refaddr < size
      ensures From(start, refaddr) == Scan(offs, 0, refaddr)
    {
      FromIsScanIff(offs, start, refaddr);
      ScanContains(offs, 0, refaddr);
      var i :| 0 <= i < |offs| && offs[i] == start;
      var j :| 0 <= j < |offs| && offs[j] == Scan(offs, 0, refaddr).value;
      if j < i {
        assert Next(offs[j]) == StartOf(offs, j + 1);
        StartsNotAfter(offs, j + 1, i);
      }
      UnitsReached(offs, i, j);
    }
  }

  /** A header parsed where no unit starts can hide the unit: here address 9 lies in the unit at 0, but a
      look from offset 8 finds a unit at 8. */
  lemma MisalignedStart()
    ensures exists section: Section, offs: seq<nat> ::
      section.Tiled(offs) && section.Scan(offs, 0, 9) == Some(0) && section.From(8, 9) == Some(8)
  {
    var section := Section(20, (o: nat) => if o == 0 then UnitHeader(16, 4) else UnitHeader(2, 4));
    assert section.Next(0) == 20 && section.Next(8) == 14;
    assert section.Tiled([0]) && section.Scan([0], 0, 9) == Some(0);
  }

  class CompileUnit {
    const cuOffset: nat
    const header: UnitHeader

    constructor (cuOffset: nat, header: UnitHeader)
      ensures this.cuOffset == cuOffset && this.header == header
    {
      this.cuOffset, this.header := cuOffset, header;
    }
  }

  /** The two parallel arrays, sorted by offset, hold exactly the map `objects`. */
  ghost predicate Parallel(cus: seq<CompileUnit>, offsets: seq<nat>, objects: map<nat, CompileUnit>) {
    && |cus| == |offsets| && StrictlySorted(offsets)
    && (forall i :: 0 <= i < |cus| ==> offsets[i] in objects && objects[offsets[i]] == cus[i])
    && (forall o :: o in objects ==> o in offsets)
  }

  lemma InsertKeepsParallel(cus: seq<CompileUnit>, offsets: seq<nat>, objects: map<nat, CompileUnit>, i: nat, o: nat, cu: CompileUnit)
    requires Parallel(cus, offsets, objects) && i <= |cus|
    requires forall k :: 0 <= k < i ==> offsets[k] < o
    requires forall k :: i <= k < |offsets| ==> o < offsets[k]
    ensures o !in objects && Parallel(Insert(cus, i, cu), Insert(offsets, i, o), objects[o := cu])
  {
    var cus', offsets', objects' := Insert(cus, i, cu), Insert(offsets, i, o), objects[o := cu];
    InsertKeepsSorted(offsets, i, o);
    forall k | 0 <= k < |cus'| ensures offsets'[k] in objects' && objects'[offsets'[k]] == cus'[k] {
      if k != i {
        var j := if k < i then k else k - 1;
        assert offsets'[k] == offsets[j] && cus'[k] == cus[j];
      }
    }
    forall p | p in objects' ensures p in offsets' { StillListed(offsets, i, o, p); }
  }

  lemma StillListed(offsets: seq<nat>, i: nat, o: nat, p: nat)
    requires i <= |offsets| && (p == o || p in offsets)
    ensures p in Insert(offsets, i, o)
  {
    var offsets' := Insert(offsets, i, o);
    if p == o {
      assert offsets'[i] == p;
    } else {
      var k :| 0 <= k < |offsets| && offsets[k] == p;
      assert offsets'[if k < i then k else k + 1] == p;
    }
  }

  class DwarfInfo {
    const section: Section
    ghost const offs: seq<nat>
    var cuCache: seq<CompileUnit>
    var cuOffsetsMap: seq<nat>
    ghost var objects: map<nat, CompileUnit>  // the cache as a map from unit offset to object

    constructor (section: Section, ghost offs: seq<nat>)
      requires section.Tiled(offs)
      ensures Valid() && this.section == section && this.offs == offs && cuCache == []
    {
      this.section, this.offs := section, offs;
      cuCache, cuOffsetsMap, objects := [], [], map[];
    }

    ghost predicate Valid()
      reads this
    {
      && section.Tiled(offs)
      && Parallel(cuCache, cuOffsetsMap, objects)
      && (forall o {:trigger objects[o]} :: o in objects ==> objects[o].cuOffset == o && objects[o].header == section.header(o))
    }

    /** Everything cached is a unit; direct access elsewhere caches what is none. */
    ghost predicate Aligned()
      reads this
    {
      forall o :: o in objects ==> o in offs
    }

    /** `cu` is the one object cached at `o`. */
    ghost predicate Cached(o: nat, cu: CompileUnit)
      reads this
    {
      o in objects && objects[o] == cu && cu.cuOffset == o && cu.header == section.header(o)
    }

    /** Cached objects stay cached. */
    twostate predicate Kept()
      reads this
    {
      forall o :: o in old(objects) ==> o in objects && objects[o] == old(objects[o])
    }

    /** `_cached_CU_at_offset`, at any offset. */
    method CachedCuAtOffset(offset: nat) returns (cu: CompileUnit)
      requires Valid()
      modifies this
      ensures Valid() && Cached(offset, cu) && Kept()
      ensures objects.Keys == old(objects).Keys + {offset}
    {
      var i := BisectRight(cuOffsetsMap, offset);
      if i >= 1 && offset == cuOffsetsMap[i - 1] { return cuCache[i - 1]; }
      cu := new CompileUnit(offset, section.header(offset));
      Store(i, offset, cu);
    }

    /** Insert a new unit at its place in both arrays. */
    method Store(i: nat, offset: nat, cu: CompileUnit)
      requires Valid() && cu.cuOffset == offset && cu.header == section.header(offset)
      requires i <= |cuOffsetsMap| && (forall k :: 0 <= k < i ==> cuOffsetsMap[k] < offset)
      requires forall k :: i <= k < |cuOffsetsMap| ==> offset < cuOffsetsMap[k]
      modifies this
      ensures Valid() && offset !in old(objects) && objects == old(objects)[offset := cu]
    {
      InsertKeepsParallel(cuCache, cuOffsetsMap, objects, i, offset, cu);
      ghost var more := objects[offset := cu];
      forall o | o in more ensures more[o].cuOffset == o && more[o].header == section.header(o) {
        if o != offset { ghost var known := objects[o]; }
      }
      var offsets, cus := Insert(cuOffsetsMap, i, offset), Insert(cuCache, i, cu);
      cuOffsetsMap, cuCache, objects := offsets, cus, more;
    }

    /** `get_CU_at`, at any offset; the cache stays aligned if the offset is a unit's. */
    method GetCuAt(offset: nat) returns (r: Result<CompileUnit, Error>)
      requires Valid()
      modifies this
      ensures Valid() && Kept()
      ensures if offset < section.size then r.Ok? && Cached(offset, r.value) else r == Err(DwarfError)
      ensures objects.Keys == old(objects).Keys + if offset < section.size then {offset} else {}
    {
      if !(offset < section.size) { return Err(DwarfError); }
      var cu := CachedCuAtOffset(offset);
      return Ok(cu);
    }

    /** Where `get_CU_containing` starts: the nearest cached offset that is not beyond the address. */
    ghost predicate StartsAt(start: nat, refaddr: nat)
      reads this
    {
      && start <= refaddr && (start in objects || start == 0)
      && forall o :: o in objects && o <= refaddr ==> o <= start
    }

    /** `get_CU_containing`: what the headers lead to from there, as its one cached object. With an aligned
        cache that is the unit a scan from offset 0 finds, and the cache stays aligned. */
    method GetCuContaining(refaddr: nat) returns (r: Result<CompileUnit, Error>, ghost start: nat)
      requires Valid()
      modifies this
      ensures Valid() && Kept()
      ensures refaddr >= section.size ==> r == Err(DwarfError) && objects == old(objects)
      ensures refaddr < section.size ==>
        && old(StartsAt(start, refaddr))
        && match section.From(start, refaddr)
           case None => r == Err(ValueError)
           case Some(o) => r.Ok? && Cached(o, r.value)
      ensures old(Aligned()) ==> Aligned()
      ensures refaddr < section.size && old(Aligned()) ==>
        r.Ok? && section.Scan(offs, 0, refaddr) == Some(r.value.cuOffset) && Cached(r.value.cuOffset, r.value)
    {
      start := 0;
      if !(refaddr < section.size) { return Err(DwarfError), start; }
      var i := BisectRight(cuOffsetsMap, refaddr);
      var from := if i > 0 then cuOffsetsMap[i - 1] else 0;
      start := from;
      StartOfLookup(i, from, refaddr);
      if Aligned() {
        assert section.StartOf(offs, 0) == 0;
        section.FromUnit(offs, from, refaddr);
        section.FromIsScanIff(offs, from, refaddr);
      }
      var cu := FirstContaining(from, refaddr);
      r := if cu != null then Ok(cu) else Err(ValueError);
    }

    lemma StartOfLookup(i: nat, from: nat, refaddr: nat)
      requires Valid() && i <= |cuOffsetsMap| && from == (if i > 0 then cuOffsetsMap[i - 1] else 0)
      requires forall k :: 0 <= k < i ==> cuOffsetsMap[k] <= refaddr
      requires forall k :: i <= k < |cuOffsetsMap| ==> refaddr < cuOffsetsMap[k]
      ensures StartsAt(from, refaddr)
    {
      forall o | o in objects && o <= refaddr ensures o <= from {
        var k :| 0 <= k < |cuOffsetsMap| && cuOffsetsMap[k] == o;
        assert k < i;
      }
    }

    lemma UnitAhead(o: nat)
      requires section.Tiled(offs) && o in offs && section.Next(o) < section.size
      ensures section.Next(o) in offs
    {
      var i :| 0 <= i < |offs| && offs[i] == o;
      assert section.Next(offs[i]) == section.StartOf(offs, i + 1);
    }

    /** `for cu in self._parse_CUs_iter(start): if ...: return cu` */
    method FirstContaining(start: nat, refaddr: nat) returns (cu: CompileUnit?)
      requires Valid()
      modifies this
      ensures Valid() && Kept()
      ensures match section.From(start, refaddr)
        case None => cu == null
        case Some(o) => cu != null && Cached(o, cu)
      ensures old(Aligned()) && start in offs ==> Aligned()
    {
      var it := new UnitIterator(this, start);
      cu := it.Next();
      while cu != null
        invariant it.info == this && Valid() && Kept() && fresh(it)
        invariant cu != null ==> Cached(cu.cuOffset, cu) && it.offset == section.Next(cu.cuOffset) && cu.cuOffset < section.size
        invariant section.From(start, refaddr) == if cu == null then None else section.From(cu.cuOffset, refaddr)
        invariant old(Aligned()) && start in offs ==> Aligned()
        decreases section.size - it.offset, cu != null
      {
        if cu.cuOffset <= refaddr < cu.cuOffset + cu.header.Size() { return; }
        if cu.cuOffset in offs && section.Next(cu.cuOffset) < section.size { UnitAhead(cu.cuOffset); }
        cu := it.Next();
      }
    }
  }

  /** The generator `_parse_CUs_iter(offset)`; `iter_CUs()` starts it at 0. */
  class UnitIterator {
    const info: DwarfInfo
    var offset: nat

    constructor (info: DwarfInfo, offset: nat)
      ensures this.info == info && this.offset == offset
    {
      this.info, this.offset := info, offset;
    }

    /** Each resumption yields the unit at the offset, and goes on to where its header says it ends. */
    method Next() returns (cu: CompileUnit?)
      requires info.Valid()
      modifies this, info
      ensures info.Valid() && info.Kept()
      ensures if old(offset) < info.section.size
        then cu != null && info.Cached(old(offset), cu) && offset == info.section.Next(old(offset))
        else cu == null && offset == old(offset)
      ensures info.objects.Keys == old(info.objects).Keys + if old(offset) < info.section.size then {old(offset)} else {}
    {
      if !(offset < info.section.size) { return null; }
      var c := info.CachedCuAtOffset(offset);
      offset := offset + c.header.Size();
      return c;
    }
  }

  // ----- whole sessions -----

  /** `get_CU_at`, `get_CU_containing`, a new `iter_CUs()` generator, `next` on the k-th generator. */
  datatype Command = At(offset: nat) | Containing(refaddr: nat) | Open | Resume(k: nat)

  function Resumes(): nat -> Command { (k: nat) => Resume(k) }

  ghost predicate Possible(cmds: seq<Command>) { ResumesOpened(cmds, Open, Resumes()) }

  /** No direct access at an offset that is no unit's comes before command `i`. */
  ghost predicate AlignedBefore(cmds: seq<Command>, section: Section, offs: seq<nat>, i: nat) {
    forall j :: 0 <= j < i && j < |cmds| && cmds[j].At? && cmds[j].offset < section.size ==> cmds[j].offset in offs
  }

  /** Every generator stands where its resumptions so far have taken it. */
  ghost predicate Running(info: DwarfInfo, iters: seq<UnitIterator>, cmds: seq<Command>)
    reads iters
  {
    && |iters| == Count(cmds, Open)
    && (forall k :: 0 <= k < |iters| ==> Live(info, iters[k], Count(cmds, Resume(k))))
    && (forall k, l :: 0 <= k < l < |iters| ==> iters[k] != iters[l])
  }

  ghost predicate Live(info: DwarfInfo, it: UnitIterator, resumed: nat)
    reads it
  {
    it.info == info && it.offset == info.section.StartOf(info.offs, resumed)
  }

  ghost predicate Unit(info: DwarfInfo, o: nat, reply: CompileUnit?)
    reads info
  {
    reply != null && info.Cached(o, reply)
  }

  /** The answer to command `i`. A generator's n-th resumption yields unit n, whatever ran in between, and
      direct access yields what is at the offset. A containment query yields the unit a scan from offset 0
      finds, unless some direct access went elsewhere than to a unit. */
  ghost predicate Answered(info: DwarfInfo, cmds: seq<Command>, i: nat, reply: CompileUnit?)
    requires i < |cmds|
    reads info
  {
    match cmds[i]
    case At(o) => if o < info.section.size then Unit(info, o, reply) else reply == null
    case Containing(a) =>
      && (a >= info.section.size ==> reply == null)
      && (a < info.section.size && AlignedBefore(cmds, info.section, info.offs, i) ==>
        var u := info.section.Scan(info.offs, 0, a); u.Some? && Unit(info, u.value, reply))
    case Open => reply == null
    case Resume(k) =>
      var n := Count(cmds[..i], Resume(k));
      if n < |info.offs| then Unit(info, info.offs[n], reply) else reply == null
  }

  /** One command. */
  method Serve(info: DwarfInfo, cmds: seq<Command>, i: nat, iters: seq<UnitIterator>) returns (reply: CompileUnit?, after: seq<UnitIterator>)
    requires info.Valid() && Possible(cmds) && i < |cmds| && Running(info, iters, cmds[..i])
    requires AlignedBefore(cmds, info.section, info.offs, i) ==> info.Aligned()
    modifies info, iters
    ensures info.Valid() && info.Kept() && Running(info, after, cmds[..i + 1])
    ensures AlignedBefore(cmds, info.section, info.offs, i + 1) ==> info.Aligned()
    ensures Answered(info, cmds, i, reply)
    ensures iters <= after && forall k :: |iters| <= k < |after| ==> fresh(after[k])
  {
    CountSnoc(cmds, i, Open);
    forall k ensures Count(cmds[..i + 1], Resume(k)) == Count(cmds[..i], Resume(k)) + if cmds[i] == Resume(k) then 1 else 0 {
      CountSnoc(cmds, i, Resume(k));
    }
    reply, after := null, iters;
    match cmds[i] {
      case At(o) =>
        var r := info.GetCuAt(o);
        if r.Ok? { reply := r.value; }
      case Containing(a) =>
        ghost var start;
        var r;
        r, start := info.GetCuContaining(a);
        if r.Ok? { reply := r.value; }
      case Open =>
        NotYetOpened(cmds, Open, Resumes(), i, |iters|);
        var it := new UnitIterator(info, 0);
        after := iters + [it];
      case Resume(k) =>
        assert cmds[i] == Resumes()(k);
        reply := Resumed(info, iters, k, Count(cmds[..i], Resume(k)));
    }
  }

  /** One generator is resumed; the others stand still. */
  method Resumed(info: DwarfInfo, iters: seq<UnitIterator>, k: nat, ghost n: nat) returns (reply: CompileUnit?)
    requires info.Valid() && k < |iters| && Live(info, iters[k], n)
    modifies info, iters[k]
    ensures info.Valid() && info.Kept() && Live(info, iters[k], n + 1)
    ensures if n < |info.offs| then Unit(info, info.offs[n], reply) else reply == null
    ensures old(info.Aligned()) ==> info.Aligned()
  {
    ghost var section, offs := info.section, info.offs;
    if n < |offs| {
      section.StartsIncrease(offs, n, |offs|);
      assert section.Next(offs[n]) == section.StartOf(offs, n + 1);
    }
    reply := iters[k].Next();
  }

  /** For every interleaving every answer is right, and as all answers are cached objects, one unit is always
      the same object. */
  method Session(info: DwarfInfo, cmds: seq<Command>) returns (replies: seq<CompileUnit?>)
    requires info.Valid() && info.Aligned() && Possible(cmds)
    modifies info
    ensures info.Valid() && info.Kept() && |replies| == |cmds|
    ensures forall i :: 0 <= i < |cmds| ==> Answered(info, cmds, i, replies[i])
  {
    replies := [];
    var iters: seq<UnitIterator> := [];
    for i := 0 to |cmds|
      invariant info.Valid() && info.Kept() && |replies| == i
      invariant AlignedBefore(cmds, info.section, info.offs, i) ==> info.Aligned()
      invariant forall j :: 0 <= j < i ==> Answered(info, cmds, j, replies[j])
      invariant Running(info, iters, cmds[..i])
      invariant forall k :: 0 <= k < |iters| ==> fresh(iters[k])
    {
      var reply;
      reply, iters := Serve(info, cmds, i, iters);
      replies := replies + [reply];
    }
  }
}
