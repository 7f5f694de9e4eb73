/** The lazily parsed DIEs of one compile unit: the two parallel cache arrays of `CompileUnit`, the
    `_terminator` and `_parent` links of `DIE`, and the generators that walk them. */
module CompileUnits {
  import opened Common
  import opened DieTree

  datatype Error = DwarfError | ValueError

  /** A DIE object. `_parse_DIE` fills the constant fields, iteration fills the links. */
  class Die {
    const offset: nat
    const record: Record
    var terminator: Die?
    var parent: Die?

    constructor (offset: nat, record: Record)
      ensures this.offset == offset && this.record == record
      ensures terminator == null && parent == null
    {
      this.offset, this.record := offset, record;
      terminator, parent := null, null;
    }

    predicate HasChildren() {
      record.Entry? && record.hasChildren
    }
  }

  ghost predicate ParallelArrays(dielist: seq<Die>, diemap: seq<nat>, dies: set<Die>) {
    && |dielist| == |diemap|
    && StrictlySorted(diemap)
    && (forall i :: 0 <= i < |dielist| ==> dielist[i] in dies && dielist[i].offset == diemap[i])
    && (forall d :: d in dies ==> d in dielist)
  }

  /** Inserting at the bisection point keeps the arrays parallel and sorted. */
  lemma InsertKeepsParallel(dielist: seq<Die>, diemap: seq<nat>, dies: set<Die>, i: nat, die: Die)
    requires ParallelArrays(dielist, diemap, dies) && i <= |diemap|
    requires forall k :: 0 <= k < i ==> diemap[k] < die.offset
    requires forall k :: i <= k < |diemap| ==> die.offset < diemap[k]
    ensures ParallelArrays(Insert(dielist, i, die), Insert(diemap, i, die.offset), dies + {die})
  {
    InsertKeepsSorted(diemap, i, die.offset);
  }

  class CompileUnit {
    const parse: Parser
    const cuOffset: nat
    const cuDieOffset: nat
    const size: nat
    ghost const tree: Tree
    var dielist: seq<Die>
    ghost var dies: set<Die>     // the elements of dielist
    ghost var adopted: set<Die>  // those whose parent is known
    var diemap: seq<nat>

    constructor (parse: Parser, cuOffset: nat, cuDieOffset: nat, size: nat, ghost tree: Tree)
      requires Encodes(parse, cuOffset, cuDieOffset, tree)
      ensures Valid() && dielist == [] && this.tree == tree && this.cuDieOffset == cuDieOffset
      ensures this.parse == parse && this.cuOffset == cuOffset && this.size == size
    {
      this.parse, this.cuOffset, this.cuDieOffset, this.size := parse, cuOffset, cuDieOffset, size;
      this.tree := tree;
      dielist, diemap, dies, adopted := [], [], {}, {};
    }

    /** What the tree of this unit holds at offset `o`. */
    ghost function PlaceOf(o: nat): Option<Place> {
      Locate(cuDieOffset, tree, None, o)
    }

    ghost predicate IsEntry(o: nat) {
      PlaceOf(o).Some? && PlaceOf(o).value.node.Subtree?
    }

    ghost function SubtreeAt(o: nat): Tree
      requires IsEntry(o)
    {
      PlaceOf(o).value.node.tree
    }

    /** The arrays are parallel, strictly sorted and headed by the top DIE. */
    ghost predicate Arrays()
      reads this
    {
      && ParallelArrays(dielist, diemap, dies)
      && (diemap != [] ==> diemap[0] == cuDieOffset)
    }

    /** The links of a cached DIE, where set, point to cached DIEs and agree with the tree. */
    ghost predicate Linked(d: Die)
      reads this, d
    {
      LinkedIn(d, dies, adopted)
    }

    ghost predicate LinkedIn(d: Die, cached: set<Die>, known: set<Die>)
      reads d
    {
      && d.record == parse(d.offset) && (d in known <==> d.parent != null)
      && (d.parent != null ==>
        && d.parent in cached && PlaceOf(d.offset).Some?
        && PlaceOf(d.offset).value.parent == Some(d.parent.offset))
      && (d.terminator != null ==>
        && d.terminator in cached && IsEntry(d.offset) && SubtreeAt(d.offset).Branch?
        && d.terminator.offset == TerminatorOffset(d.offset + SubtreeAt(d.offset).size, SubtreeAt(d.offset).kids))
    }

    lemma LinkedInMore(d: Die, cached: set<Die>, more: set<Die>, known: set<Die>)
      requires LinkedIn(d, cached, known) && cached <= more
      ensures LinkedIn(d, more, known)
    {
    }

    /** The bytes of the unit are the flattened tree. */
    ghost predicate Encoded() {
      Encodes(parse, cuOffset, cuDieOffset, tree)
    }

    ghost predicate Valid()
      reads this, dies
    {
      && Encoded() && Arrays() && adopted <= dies
      && forall d {:trigger Linked(d)} :: d in dies ==> Linked(d)
    }

    /** One object per offset. */
    lemma SameOffsetSameObject(a: Die, b: Die)
      requires Arrays() && a in dies && b in dies && a.offset == b.offset
      ensures a == b
    {
      var i :| 0 <= i < |dielist| && dielist[i] == a;
      var j :| 0 <= j < |dielist| && dielist[j] == b;
      assert diemap[i] == diemap[j];
    }

    /** A cached entry carries the record its subtree begins with. */
    lemma EntryRecord(d: Die)
      requires Valid() && d in dies && IsEntry(d.offset)
      ensures var t := SubtreeAt(d.offset); d.record == Entry(t.size, t.Branch?, t.sibling)
    {
      LocateWithin(parse, cuOffset, cuDieOffset, tree, None, d.offset);
      assert Linked(d);
    }

    /** Only an entry with a list of children reports children. */
    lemma HasChildrenIff(d: Die)
      requires Valid() && d in dies && PlaceOf(d.offset).Some?
      ensures d.HasChildren() <==> IsEntry(d.offset) && SubtreeAt(d.offset).Branch?
    {
      if IsEntry(d.offset) {
        EntryRecord(d);
      } else {
        LocateTerminator(parse, cuOffset, cuDieOffset, tree, None, d.offset);
        assert Linked(d);
      }
    }

    /** A remembered terminator is the null entry closing the children of its owner. */
    lemma TerminatorPlace(d: Die)
      requires Valid() && d in dies && d.terminator != null
      ensures d.offset < d.terminator.offset && PlaceOf(d.terminator.offset).Some?
      ensures PlaceOf(d.terminator.offset).value.node.Terminator?
    {
      assert Linked(d);
      var t := SubtreeAt(d.offset);
      LocateWithin(parse, cuOffset, cuDieOffset, tree, None, d.offset);
      TerminatorFacts(parse, cuOffset, d.offset + t.size, t.kids, d.offset);
    }

    /** The cache only grows, and only by new objects; a parent once found is never forgotten. */
    twostate predicate Grown()
      reads this
    {
      old(dies) <= dies && old(adopted) <= adopted && forall d :: d in dies ==> d in old(dies) || fresh(d)
    }

    method GetTopDie() returns (top: Die)
      requires Valid()
      modifies `dielist, `diemap, `dies
      ensures Valid() && Grown() && dielist != [] && top == dielist[0]
      ensures old(dielist) != [] ==> dielist == old(dielist)
      ensures top.offset == cuDieOffset
    {
      if |diemap| > 0 { return dielist[0]; }
      top := new Die(cuDieOffset, parse(cuDieOffset));
      Install(0, top);
    }

    /** `_get_cached_DIE`; callers stay at or above the top DIE. */
    method GetCachedDie(offset: nat) returns (die: Die)
      requires Valid() && cuDieOffset <= offset
      modifies `dielist, `diemap, `dies
      ensures Valid() && Grown() && die in dies && die.offset == offset
    {
      var top := GetTopDie();
      var i := BisectRight(diemap, offset);
      assert i >= 1;
      if offset == diemap[i - 1] { return dielist[i - 1]; }
      die := new Die(offset, parse(offset));
      Install(i, die);
    }

    /** The two parallel `insert` calls. */
    method Install(i: nat, die: Die)
      requires Valid() && die !in dies && i <= |diemap|
      requires forall k :: 0 <= k < i ==> diemap[k] < die.offset
      requires forall k :: i <= k < |diemap| ==> die.offset < diemap[k]
      requires i == 0 ==> diemap == [] && die.offset == cuDieOffset
      requires die.record == parse(die.offset) && die.parent == null && die.terminator == null
      modifies `dielist, `diemap, `dies
      ensures Valid() && dielist == Insert(old(dielist), i, die) && dies == old(dies) + {die} && adopted == old(adopted)
    {
      InsertKeepsParallel(dielist, diemap, dies, i, die);
      assert die !in adopted && LinkedIn(die, dies + {die}, adopted);
      forall d | d in dies ensures LinkedIn(d, dies + {die}, adopted) {
        assert Linked(d);
        LinkedInMore(d, dies, dies + {die}, adopted);
      }
      dielist := Insert(dielist, i, die);
      diemap := Insert(diemap, i, die.offset);
      dies := dies + {die};
      forall d | d in dies ensures Linked(d) {
        ghost var linked := LinkedIn(d, dies, adopted);
      }
    }

    /** `child.set_parent(die)` */
    method SetParent(child: Die, die: Die)
      requires Valid() && child in dies && die in dies
      requires PlaceOf(child.offset).Some? && PlaceOf(child.offset).value.parent == Some(die.offset)
      modifies child`parent, this`adopted
      ensures Valid() && child.parent == die && adopted == old(adopted) + {child}
    {
      child.parent := die;
      adopted := adopted + {child};
      forall d | d in dies ensures Linked(d) { ghost var before := old(Linked(d)); }
    }

    /** `die._terminator = child` */
    method SetTerminator(die: Die, child: Die)
      requires Valid() && child in dies && die in dies
      requires IsEntry(die.offset) && SubtreeAt(die.offset).Branch?
      requires child.offset == TerminatorOffset(die.offset + SubtreeAt(die.offset).size, SubtreeAt(die.offset).kids)
      modifies die`terminator
      ensures Valid() && die.terminator == child
    {
      die.terminator := child;
      forall d | d in dies ensures Linked(d) { ghost var before := old(Linked(d)); }
    }

    predicate Contains(refaddr: nat) { cuDieOffset <= refaddr < cuOffset + size }

    /** `get_DIE_from_refaddr`: any address in the unit, entry or not, is cached once. */
    method GetDieFromRefaddr(refaddr: nat) returns (r: Result<Die, Error>)
      requires Valid()
      modifies `dielist, `diemap, `dies
      ensures Valid() && Grown()
      ensures r.Ok? <==> Contains(refaddr)
      ensures r.Ok? ==> r.value in dies && r.value.offset == refaddr
      ensures r.Err? ==> r == Err(DwarfError) && dielist == old(dielist)
    {
      if !Contains(refaddr) { return Err(DwarfError); }
      var d := GetCachedDie(refaddr);
      return Ok(d);
    }
  }

  /** The generator `iter_DIE_children(die)`, resumed by `Next`. */
  class ChildIterator {
    const cu: CompileUnit
    const die: Die
    var started: bool
    var done: bool
    var child: Die?
    var cur: nat
    ghost var rest: Forest
    ghost const owner: object?  // the generator whose loop this is, if any

    constructor (cu: CompileUnit, die: Die, ghost owner: object?)
      requires cu.Valid() && die in cu.dies && cu.IsEntry(die.offset)
      ensures Valid() && this.cu == cu && this.die == die && this.owner == owner && !started && !done
      ensures Pending() == Children()
    {
      this.cu, this.die, this.owner := cu, die, owner;
      started, done, child, cur := false, false, null, 0;
      rest := End(1);
    }

    ghost function Sub(): Tree
      requires cu.IsEntry(die.offset)
    {
      cu.SubtreeAt(die.offset)
    }

    /** Offsets of the real children of the iterated DIE. */
    ghost function Children(): seq<nat>
      requires cu.IsEntry(die.offset)
    {
      if Sub().Leaf? then [] else ChildOffsets(die.offset + Sub().size, Sub().kids)
    }

    /** Offsets this generator has still to yield: a function of its own fields alone, whatever
        happens to the unit between two resumptions. */
    ghost function Pending(): seq<nat>
      reads this
      requires cu.IsEntry(die.offset)
    {
      if done || Sub().Leaf? then [] else ChildOffsets(UpcomingOffset(), Upcoming())
    }

    /** Where the next resumption reads, and the part of the child list found there. */
    ghost function UpcomingOffset(): nat
      reads this
      requires cu.IsEntry(die.offset) && Sub().Branch?
    {
      if !started then die.offset + Sub().size else if rest.Cons? then cur + TreeSize(rest.head) else cur
    }

    ghost function Upcoming(): Forest
      reads this
      requires cu.IsEntry(die.offset) && Sub().Branch?
    {
      if !started then Sub().kids else if rest.Cons? then rest.tail else rest
    }

    /** The null entry has been recorded as the terminator. */
    ghost predicate Closed()
      reads this, die, die.terminator
    {
      && die.terminator != null && die.terminator == child
      && child.offset == cur && child.parent == die
    }

    ghost predicate Valid()
      reads this, cu
    {
      ValidIn(cu.dies)
    }

    ghost predicate ValidIn(cached: set<Die>)
      reads this
    {
      && die in cached && cu.IsEntry(die.offset)
      && (started && !done ==>
        && child != null && child in cached && child.offset == cur
        && rest.Cons? && OnList(cu.cuDieOffset, cu.tree, die.offset, Sub(), cur, rest))
    }

    /** A suspended generator is not disturbed by what is cached meanwhile. */
    lemma ValidInMore(cached: set<Die>, more: set<Die>)
      requires ValidIn(cached) && cached <= more
      ensures ValidIn(more)
    {
    }

    /** The entry that starts at `cur`. */
    lemma EntryAtCur(cur: nat, rest: Forest)
      requires cu.Encoded() && cu.IsEntry(die.offset) && OnList(cu.cuDieOffset, cu.tree, die.offset, Sub(), cur, rest)
      ensures cu.cuDieOffset <= cur && (cu.parse(cur).Null? <==> rest.End?)
      ensures cu.PlaceOf(cur) == Some(Place(Some(die.offset), if rest.Cons? then Subtree(rest.head) else Terminator(rest.size)))
      ensures rest.End? ==> cur == TerminatorOffset(die.offset + Sub().size, Sub().kids)
    {
      ListEntry(cu.parse, cu.cuOffset, cu.cuDieOffset, cu.tree, die.offset, Sub(), cur, rest);
    }

    /** The child last yielded, as the whole unit sees it. */
    lemma AtChild()
      requires Valid() && cu.Encoded() && started && !done
      ensures cu.IsEntry(cur) && cu.SubtreeAt(cur) == rest.head && cu.PlaceOf(cur).value.parent == Some(die.offset)
      ensures TreeSize(rest.head) < TreeSize(Sub())
      ensures die.offset < cur && cur + TreeSize(rest.head) < die.offset + TreeSize(Sub())
      ensures OnList(cu.cuDieOffset, cu.tree, die.offset, Sub(), UpcomingOffset(), Upcoming())
    {
      EntryAtCur(cur, rest);
      ListChild(cu.parse, cu.cuOffset, cu.cuDieOffset, cu.tree, die.offset, Sub(), cur, rest);
    }

    /** One resumption of the generator. */
    method Next() returns (c: Die?)
      requires Valid() && cu.Valid()
      modifies this, cu, cu.dies
      ensures Valid() && cu.Valid() && cu.Grown()
      ensures c == null <==> done
      ensures c != null ==> c == child && c.parent == die && started
      ensures c == null ==> old(Pending()) == []
      ensures c != null ==> old(Pending()) == [c.offset] + Pending()
      ensures !old(done) && Sub().Branch? ==>
        && cur == old(UpcomingOffset()) && rest == old(Upcoming())
        && (done ==> rest.End? && Closed() && child in cu.dies)
      decreases TreeSize(Sub()), 1
    {
      if done { return null; }
      Advance();
      if done { return null; }
      ghost var pending := ChildOffsets(cur, rest);
      assert old(Pending()) == pending;
      assert rest.Cons? ==> pending == [cur] + ChildOffsets(cur + TreeSize(rest.head), rest.tail);
      c := Fetch();
    }

    /** Up to the head of the next round of the loop: the prologue, or the step over the child last yielded. */
    method Advance()
      requires Valid() && cu.Valid() && !done
      modifies this, cu, cu.dies
      ensures cu.Valid() && cu.Grown() && started && (done <==> Sub().Leaf?)
      ensures !done ==> cur == old(UpcomingOffset()) && rest == old(Upcoming())
      ensures !done ==> OnList(cu.cuDieOffset, cu.tree, die.offset, Sub(), cur, rest)
      decreases TreeSize(Sub()), 0
    {
      if !started {
        cu.EntryRecord(die);
        started := true;
        if !die.HasChildren() {
          done := true;
        } else {
          cur := die.offset + die.record.size;
          rest := Sub().kids;
        }
      } else {
        AtChild();
        cur := NextSibling(cu, child);
        rest := rest.tail;
      }
    }

    /** The head of the loop body, up to `yield` or to the null entry. */
    method Fetch() returns (c: Die?)
      requires cu.Valid() && die in cu.dies && cu.IsEntry(die.offset) && started && !done
      requires OnList(cu.cuDieOffset, cu.tree, die.offset, Sub(), cur, rest)
      modifies this, cu, cu.dies
      ensures Valid() && cu.Valid() && cu.Grown() && cur == old(cur) && rest == old(rest) && started
      ensures old(rest).Cons? ==> c != null && !done && child == c && c in cu.dies && c.offset == cur && c.parent == die
      ensures old(rest).End? ==> c == null && done && Closed() && child in cu.dies
    {
      EntryAtCur(cur, rest);
      child := cu.GetCachedDie(cur);
      Adopt(child);
      if child.record.Null? {
        done := true;
        return null;
      }
      return child;
    }

    /** The links recorded for what was found at `cur`. */
    method Adopt(child: Die)
      requires cu.Valid() && die in cu.dies && child in cu.dies && child.offset == cur && cu.IsEntry(die.offset)
      requires OnList(cu.cuDieOffset, cu.tree, die.offset, Sub(), cur, rest)
      modifies child`parent, die`terminator, cu`adopted
      ensures cu.Valid() && child.parent == die && cu.adopted == old(cu.adopted) + {child}
      ensures child.record.Null? <==> rest.End?
      ensures rest.End? ==> die.terminator == child
    {
      assert child.record.Null? <==> rest.End? by {
        EntryAtCur(cur, rest);
        assert cu.Linked(child);
      }
      assert cu.PlaceOf(cur).Some? && cu.PlaceOf(cur).value.parent == Some(die.offset) by { EntryAtCur(cur, rest); }
      cu.SetParent(child, die);
      if child.record.Null? {
        assert cur == TerminatorOffset(die.offset + Sub().size, Sub().kids) by { EntryAtCur(cur, rest); }
        cu.SetTerminator(die, child);
      }
    }
  }

  /** The part of the loop body after `yield`: find where the next sibling starts. */
  method NextSibling(cu: CompileUnit, child: Die) returns (next: nat)
    requires cu.Valid() && child in cu.dies && cu.IsEntry(child.offset)
    modifies cu, cu.dies
    ensures cu.Valid() && cu.Grown()
    ensures next == child.offset + TreeSize(cu.SubtreeAt(child.offset))
    decreases TreeSize(cu.SubtreeAt(child.offset)), 3
  {
    ghost var t := cu.SubtreeAt(child.offset);
    LocateWithin(cu.parse, cu.cuOffset, cu.cuDieOffset, cu.tree, None, child.offset);
    assert cu.Linked(child);
    if !child.HasChildren() { return child.offset + child.record.size; }
    match child.record.sibling
    case UnitRelative(v) => next := v + cu.cuOffset;
    case SectionAbsolute(v) => next := v;
    case NoSibling =>
      if child.terminator == null { Exhaust(cu, child); }
      assert cu.Linked(child) && cu.Linked(child.terminator);
      TerminatorFacts(cu.parse, cu.cuOffset, child.offset + t.size, t.kids, child.offset);
      next := child.terminator.offset + child.terminator.record.size;
  }

  /** `for _ in self.iter_DIE_children(child): pass` */
  method Exhaust(cu: CompileUnit, d: Die)
    requires cu.Valid() && d in cu.dies && cu.IsEntry(d.offset) && cu.SubtreeAt(d.offset).Branch?
    modifies cu, cu.dies
    ensures cu.Valid() && cu.Grown() && d.terminator != null
    decreases TreeSize(cu.SubtreeAt(d.offset)), 2
  {
    var it := new ChildIterator(cu, d, null);
    var c := it.Next();
    while c != null
      invariant it.Valid() && cu.Valid() && cu.Grown()
      invariant c != null ==> !it.done
      invariant c == null ==> d.terminator != null
      decreases |it.Pending()|, c != null
    {
      c := it.Next();
    }
  }

  // ----- get_parent -----

  /** Searching below `s` for offset `o` is searching the whole tree for it. */
  ghost predicate Above(cu: CompileUnit, s: nat, o: nat) {
    && s <= o && cu.PlaceOf(s).Some?
    && var p := cu.PlaceOf(s).value;
       match p.node
       case Subtree(t) => cu.PlaceOf(o) == Locate(s, t, p.parent, o)
       case Terminator(_) => o == s || cu.PlaceOf(o) == None
  }

  /** What one round of the search may leave in `prev`. */
  ghost predicate Chosen(cu: CompileUnit, search: Die, prev: Die, o: nat)
    reads cu
  {
    && prev in cu.dies
    && if prev == search then cu.PlaceOf(o) == None
       else search.offset < prev.offset && Above(cu, prev.offset, o) && prev in cu.adopted
  }

  /** The state of the round once the generator stands at `cur`. */
  ghost predicate Round(cu: CompileUnit, search: Die, prev: Die, o: nat, cur: nat, rest: Forest)
    reads cu
  {
    if cur <= o then cu.PlaceOf(o) == LocateForest(cur, rest, search.offset, o) else Chosen(cu, search, prev, o)
  }

  /** The body of the search loop for a DIE with children: the last child, or the terminator, that
      does not lie beyond `o`. */
  method Descend(cu: CompileUnit, search: Die, o: nat) returns (prev: Die)
    requires cu.Valid() && search in cu.dies && search.offset < o
    requires cu.IsEntry(search.offset) && cu.SubtreeAt(search.offset).Branch? && Above(cu, search.offset, o)
    modifies cu, cu.dies
    ensures cu.Valid() && cu.Grown() && Chosen(cu, search, prev, o)
  {
    prev := search;
    var it := new ChildIterator(cu, search, null);
    var c := it.Next();
    while c != null
      invariant it.Valid() && cu.Valid() && cu.Grown()
      invariant (c == null <==> it.done) && (c != null ==> c == it.child && it.started && c.parent == search)
      invariant c == null ==> it.rest.End? && it.Closed() && it.child in cu.dies
      invariant prev in cu.dies && Round(cu, search, prev, o, it.cur, it.rest)
      decreases |it.Pending()|, c != null
    {
      c, prev := Visit(it, c, prev, o);
    }
    assert cu.Linked(it.child);
    EndOfRound(cu, search, prev, o, it.cur, it.rest);
    if search.terminator.offset <= o { prev := search.terminator; }
  }

  /** The terminator is where the round ends. */
  lemma EndOfRound(cu: CompileUnit, search: Die, prev: Die, o: nat, cur: nat, rest: Forest)
    requires cu.Valid() && search in cu.dies && search.terminator != null && search.terminator.offset == cur
    requires search.terminator in cu.adopted && rest.End? && Round(cu, search, prev, o, cur, rest)
    ensures Chosen(cu, search, if search.terminator.offset <= o then search.terminator else prev, o)
  {
    cu.TerminatorPlace(search);
    assert cu.Linked(search);
  }

  /** `child.set_parent(search)`, and the rest of the body. */
  method Visit(it: ChildIterator, c: Die, prev: Die, o: nat) returns (next: Die?, prev': Die)
    requires it.Valid() && it.cu.Valid() && it.started && !it.done && c == it.child && c.parent == it.die
    requires prev in it.cu.dies && Round(it.cu, it.die, prev, o, it.cur, it.rest)
    modifies it, it.cu, it.cu.dies
    ensures it.Valid() && it.cu.Valid() && it.cu.Grown()
    ensures (next == null <==> it.done) && (next != null ==> next == it.child && it.started && next.parent == it.die)
    ensures next == null ==> it.rest.End? && it.Closed() && it.child in it.cu.dies
    ensures prev' in it.cu.dies && Round(it.cu, it.die, prev', o, it.cur, it.rest)
    ensures old(it.Pending()) == if next == null then [] else [next.offset] + it.Pending()
  {
    it.AtChild();
    it.cu.SetParent(c, it.die);
    next, prev' := Consider(it, c, prev, o);
  }

  /** One child of the round: take it if it does not lie beyond `o`, then resume the generator. */
  method Consider(it: ChildIterator, c: Die, prev: Die, o: nat) returns (next: Die?, prev': Die)
    requires it.Valid() && it.cu.Valid() && it.started && !it.done && c == it.child && c.parent == it.die
    requires prev in it.cu.dies && Round(it.cu, it.die, prev, o, it.cur, it.rest)
    modifies it, it.cu, it.cu.dies
    ensures it.Valid() && it.cu.Valid() && it.cu.Grown()
    ensures (next == null <==> it.done) && (next != null ==> next == it.child && it.started && next.parent == it.die)
    ensures next == null ==> it.rest.End? && it.Closed() && it.child in it.cu.dies
    ensures prev' in it.cu.dies && Round(it.cu, it.die, prev', o, it.cur, it.rest)
    ensures old(it.Pending()) == if next == null then [] else [next.offset] + it.Pending()
  {
    it.AtChild();
    assert it.cu.Linked(c);
    prev' := if c.offset <= o then c else prev;
    next := it.Next();
  }

  /** `DIE.get_parent`. For every cached object at a true entry, terminators included, the answer is
      the real tree parent, and it is None exactly for the top DIE; an object cached at an offset that
      is no entry raises ValueError. */
  method GetParent(cu: CompileUnit, self: Die) returns (r: Result<Die?, Error>)
    requires cu.Valid() && self in cu.dies
    modifies cu, cu.dies
    ensures cu.Valid() && cu.Grown()
    ensures cu.PlaceOf(self.offset).None? ==> r == Err(ValueError)
    ensures cu.PlaceOf(self.offset).Some? ==>
      && r.Ok?
      && (r.value == null <==> self.offset == cu.cuDieOffset)
      && (r.value != null ==> r.value in cu.dies && cu.PlaceOf(self.offset).value.parent == Some(r.value.offset))
  {
    if self.parent == null {
      var top := cu.GetTopDie();
      var search := top;
      while search.offset < self.offset
        invariant cu.Valid() && cu.Grown() && search in cu.dies && self in cu.dies
        invariant Above(cu, search.offset, self.offset)
        invariant search == top || search in cu.adopted
        decreases self.offset - search.offset
      {
        var prev := search;
        cu.HasChildrenIff(search);
        if search.HasChildren() { prev := Descend(cu, search, self.offset); }
        if prev == search { return Err(ValueError); }
        search := prev;
      }
      cu.SameOffsetSameObject(search, self);
    }
    assert cu.Linked(self);
    return Ok(self.parent);
  }
}
