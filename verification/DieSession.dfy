/** `iter_DIEs` as a generator that can be suspended, and whole sessions of such generators, lookups by
    address and searches for parents on one compile unit. */
module DieSessions {
  import opened Common
  import opened DieTree
  import opened CompileUnits

  /** What `_iter_DIE_subtree` yields behind the entry at `o`: its children's subtrees and their terminator. */
  ghost function Below(cu: CompileUnit, o: nat): seq<nat> {
    if cu.IsEntry(o) && cu.SubtreeAt(o).Branch? then PreorderForest(o + cu.SubtreeAt(o).size, cu.SubtreeAt(o).kids) else []
  }

  /** What a suspended loop over children has still to lead to, its terminator included. */
  ghost function Ahead(it: ChildIterator): seq<nat>
    reads it
  {
    if it.cu.IsEntry(it.die.offset) && it.Sub().Branch? then PreorderForest(it.UpcomingOffset(), it.Upcoming()) else []
  }

  /** The loops over children that are suspended inside each other, the innermost first. */
  datatype Nest = Outside | Inside(loop: ChildIterator, outer: Nest)

  ghost function Members(n: Nest): set<ChildIterator> {
    if n.Outside? then {} else {n.loop} + Members(n.outer)
  }

  lemma {:induction false} MembersAllocated(n: Nest)
    ensures forall it :: it in Members(n) ==> allocated(it)
  {
    if n.Inside? { MembersAllocated(n.outer); }
  }

  ghost function AheadOfAll(n: Nest): seq<nat>
    reads Members(n)
  {
    if n.Outside? then [] else Ahead(n.loop) + AheadOfAll(n.outer)
  }

  /** A loop in `cu` that has not come to its end. */
  ghost predicate Suspended(cu: CompileUnit, it: ChildIterator, cached: set<Die>)
    reads it
  {
    it.cu == cu && it.ValidIn(cached) && !it.done && it.Sub().Branch?
  }

  /** Distinct loops of one generator, all suspended. */
  ghost predicate Loops(owner: DieIterator, cu: CompileUnit, n: Nest, cached: set<Die>)
    reads Members(n)
  {
    n.Inside? ==>
      && Suspended(cu, n.loop, cached) && n.loop.owner == owner && n.loop !in Members(n.outer)
      && Loops(owner, cu, n.outer, cached)
  }

  lemma {:induction false} LoopsMore(owner: DieIterator, cu: CompileUnit, n: Nest, cached: set<Die>, more: set<Die>)
    requires cached <= more && Loops(owner, cu, n, cached)
    ensures Loops(owner, cu, n, more)
  {
    if n.Inside? {
      n.loop.ValidInMore(cached, more);
      LoopsMore(owner, cu, n.outer, cached, more);
    }
  }

  lemma {:induction false} LoopsOwned(owner: DieIterator, cu: CompileUnit, n: Nest, cached: set<Die>)
    requires Loops(owner, cu, n, cached)
    ensures forall it :: it in Members(n) ==> it.owner == owner
  {
    if n.Inside? { LoopsOwned(owner, cu, n.outer, cached); }
  }

  /** `_iter_DIE_subtree(root)`: `last` is what was yielded last. */
  class DieIterator {
    const cu: CompileUnit
    const root: Die
    var started: bool
    var last: Die?
    var nest: Nest
    ghost var seen: set<Die>             // what was cached when it was last resumed
    ghost var loops: set<ChildIterator>  // the loops it ever started

    constructor (cu: CompileUnit, root: Die)
      requires cu.Valid() && root in cu.dies && cu.IsEntry(root.offset)
      ensures Valid() && this.cu == cu && this.root == root && loops == {} && seen <= cu.dies
      ensures Remaining() == Preorder(root.offset, cu.SubtreeAt(root.offset))
    {
      this.cu, this.root := cu, root;
      started, last, nest := false, null, Outside;
      seen, loops := cu.dies, {};
    }

    /** Depends on the generator's own objects alone. */
    ghost predicate Valid()
      reads this, loops
    {
      && root in seen && cu.IsEntry(root.offset)
      && (!started || last == null ==> nest == Outside)
      && (started && last != null ==> last in seen && cu.PlaceOf(last.offset).Some?)
      && (forall it :: it in loops ==> it.owner == this)
      && Members(nest) <= loops && Loops(this, cu, nest, seen)
    }

    /** What was cached since does not disturb it. */
    method CatchUp()
      requires Valid() && seen <= cu.dies
      modifies `seen
      ensures Valid() && seen == cu.dies && Remaining() == old(Remaining())
    {
      LoopsMore(this, cu, nest, seen, cu.dies);
      seen := cu.dies;
    }

    /** Offsets this generator has still to yield: a function of its own objects alone, whatever happens to
        the unit between two resumptions. */
    ghost function Remaining(): seq<nat>
      reads this, loops
      requires Members(nest) <= loops
    {
      if !started then [root.offset] + Below(cu, root.offset)
      else if last == null then []
      else Below(cu, last.offset) + AheadOfAll(nest)
    }

    /** One resumption. */
    method Next() returns (d: Die?)
      requires Valid() && seen <= cu.dies && cu.Valid()
      modifies this, loops, cu, cu.dies
      ensures Valid() && seen <= cu.dies && cu.Valid() && cu.Grown()
      ensures old(loops) <= loops && fresh(loops - old(loops))
      ensures d != null ==> d in cu.dies
      ensures old(Remaining()) == (if d == null then [] else [d.offset]) + Remaining()
      ensures d == null ==> Remaining() == []
    {
      CatchUp();
      if !started {
        d := Begin();
      } else if last != null {
        d := Continue();
      } else {
        d := null;
      }
    }

    method Begin() returns (d: Die)
      requires Valid() && !started
      modifies `started, `last
      ensures Valid() && d in seen && old(Remaining()) == [d.offset] + Remaining()
    {
      started, last := true, root;
      d := root;
    }

    /** What comes behind the entry yielded last. */
    method Continue() returns (d: Die?)
      requires Valid() && seen == cu.dies && cu.Valid() && started && last != null
      modifies `last, `nest, `seen, `loops, loops, cu, cu.dies
      ensures Valid() && seen <= cu.dies && cu.Valid() && cu.Grown() && last == d && (d != null ==> d in cu.dies)
      ensures old(loops) <= loops && fresh(loops - old(loops))
      ensures old(Remaining()) == if d == null then [] else [d.offset] + Remaining()
    {
      Descend();
      if nest == Outside {
        last := null;
        return null;
      }
      d := Step();
    }

    /** Behind an entry with children comes the loop over them. */
    method Descend()
      requires Valid() && seen == cu.dies && cu.Valid() && started && last != null
      modifies `nest, `loops
      ensures Valid() && AheadOfAll(nest) == Below(cu, last.offset) + old(AheadOfAll(nest))
      ensures old(loops) <= loops && fresh(loops - old(loops))
    {
      cu.HasChildrenIff(last);
      if last.HasChildren() {
        var it := new ChildIterator(cu, last, this);
        nest, loops := Inside(it, nest), loops + {it};
      }
    }

    /** The innermost loop goes on: the next child, or the terminator. */
    method Step() returns (d: Die)
      requires Valid() && seen == cu.dies && cu.Valid() && started && last != null && nest.Inside?
      modifies `last, `nest, `seen, loops, cu, cu.dies
      ensures Valid() && seen == cu.dies && cu.Valid() && cu.Grown() && last == d && d in cu.dies
      ensures old(AheadOfAll(nest)) == [d.offset] + (Below(cu, d.offset) + AheadOfAll(nest))
    {
      var left;
      d, left := ResumeInnermost(this, cu, nest);
      Move(d, left);
    }

    /** The generator's fields after a resumption. */
    method Move(d: Die, left: Nest)
      requires started && root in cu.dies && cu.IsEntry(root.offset) && d in cu.dies && cu.PlaceOf(d.offset).Some?
      requires Members(left) <= loops && Loops(this, cu, left, cu.dies) && forall it :: it in loops ==> it.owner == this
      modifies `nest, `last, `seen
      ensures Valid() && seen == cu.dies && last == d && nest == left && AheadOfAll(nest) == old(AheadOfAll(left))
    {
      nest, last, seen := left, d, cu.dies;
    }
  }

  /** The innermost loop goes on; the loops around it are as before. */
  method ResumeInnermost(owner: DieIterator, cu: CompileUnit, n: Nest) returns (d: Die, left: Nest)
    requires cu.Valid() && n.Inside? && Loops(owner, cu, n, cu.dies)
    modifies n.loop, cu, cu.dies
    ensures cu.Valid() && cu.Grown() && d in cu.dies && cu.PlaceOf(d.offset).Some?
    ensures Loops(owner, cu, left, cu.dies) && Members(left) <= Members(n)
    ensures old(AheadOfAll(n)) == [d.offset] + (Below(cu, d.offset) + AheadOfAll(left))
  {
    ghost var cached, before, rest := cu.dies, Ahead(n.loop), AheadOfAll(n.outer);
    MembersAllocated(n.outer);
    var ended;
    d, ended := ResumeLoop(n.loop);
    left := if ended then n.outer else n;
    LoopsMore(owner, cu, n.outer, cached, cu.dies);
    ghost var below, after := Below(cu, d.offset), if ended then [] else Ahead(n.loop);
    assert AheadOfAll(n.outer) == rest && before == [d.offset] + (below + after);
    Regrouped(d.offset, below, after, rest);
  }

  lemma Regrouped(d: nat, below: seq<nat>, after: seq<nat>, rest: seq<nat>)
    ensures [d] + (below + after) + rest == [d] + (below + (after + rest))
    ensures [d] + (below + []) + rest == [d] + (below + rest)
  {
    assert below + [] == below;
  }

  /** One resumption of a loop over children, and what it yields: a child, or at the end the terminator. */
  method ResumeLoop(it: ChildIterator) returns (d: Die, ended: bool)
    requires it.Valid() && it.cu.Valid() && !it.done && it.Sub().Branch?
    modifies it, it.cu, it.cu.dies
    ensures it.Valid() && it.cu.Valid() && it.cu.Grown() && (ended <==> it.done)
    ensures d in it.cu.dies && it.cu.PlaceOf(d.offset).Some?
    ensures old(Ahead(it)) == [d.offset] + (Below(it.cu, d.offset) + if ended then [] else Ahead(it))
    ensures ended ==> Below(it.cu, d.offset) == []
  {
    var c := it.Next();
    ended := c == null;
    if ended {
      d := it.die.terminator;
      EndReached(it);
    } else {
      d := c;
      ChildReached(it);
    }
  }

  lemma ChildReached(it: ChildIterator)
    requires it.Valid() && it.cu.Encoded() && it.started && !it.done
    ensures it.cu.PlaceOf(it.cur).Some?
    ensures PreorderForest(it.cur, it.rest) == [it.cur] + (Below(it.cu, it.cur) + Ahead(it))
  {
    it.AtChild();
    var below := Below(it.cu, it.cur);
    assert Preorder(it.cur, it.rest.head) == [it.cur] + below;
    assert [it.cur] + below + Ahead(it) == [it.cur] + (below + Ahead(it));
  }

  lemma EndReached(it: ChildIterator)
    requires it.Valid() && it.cu.Valid() && it.Closed() && it.rest.End?
    ensures it.cu.PlaceOf(it.cur).Some? && Below(it.cu, it.cur) == []
    ensures PreorderForest(it.cur, it.rest) == [it.cur]
  {
    it.cu.TerminatorPlace(it.die);
  }

  function Offsets(s: seq<Die>): (r: seq<nat>)
    ensures |r| == |s| && forall i :: 0 <= i < |s| ==> r[i] == s[i].offset
  {
    seq(|s|, i requires 0 <= i < |s| => s[i].offset)
  }

  /** `list(cu.iter_DIEs())`: the pre-order of the tree, null entries included, whatever was cached
      before, each element being the one cached object at its offset. */
  method IterDies(cu: CompileUnit) returns (out: seq<Die>)
    requires cu.Valid()
    modifies cu, cu.dies
    ensures cu.Valid() && cu.Grown()
    ensures Offsets(out) == Preorder(cu.cuDieOffset, cu.tree)
    ensures StrictlySorted(Offsets(out))
    ensures Tiles(cu.parse, Offsets(out), cu.cuDieOffset, cu.cuDieOffset + TreeSize(cu.tree))
    ensures forall x :: x in out ==> x in cu.dies
  {
    var top := cu.GetTopDie();
    var it := new DieIterator(cu, top);
    out := Collect(it);
    ghost var lo, hi := cu.cuDieOffset, cu.cuDieOffset + TreeSize(cu.tree);
    assert Tiles(cu.parse, Offsets(out), lo, hi) by { PreorderContiguous(cu.parse, cu.cuOffset, cu.cuDieOffset, cu.tree); }
    TilesSorted(cu.parse, Offsets(out), lo, hi);
  }

  /** `list(it)`. */
  method Collect(it: DieIterator) returns (out: seq<Die>)
    requires it.Valid() && it.seen <= it.cu.dies && it.cu.Valid()
    modifies it, it.loops, it.cu, it.cu.dies
    ensures it.cu.Valid() && it.cu.Grown()
    ensures Offsets(out) == old(it.Remaining())
    ensures forall x :: x in out ==> x in it.cu.dies
  {
    out := [];
    var done := false;
    assert Offsets(out) + it.Remaining() == it.Remaining();
    while !done
      invariant it.Valid() && it.seen <= it.cu.dies && it.cu.Valid() && it.cu.Grown()
      invariant fresh(it.loops - old(it.loops))
      invariant Offsets(out) + it.Remaining() == old(it.Remaining()) && (done ==> it.Remaining() == [])
      invariant forall x :: x in out ==> x in it.cu.dies
      decreases |it.Remaining()|, !done
    {
      out, done := CollectOne(it, out);
    }
    assert Offsets(out) + [] == Offsets(out);
  }

  method CollectOne(it: DieIterator, before: seq<Die>) returns (out: seq<Die>, done: bool)
    requires it.Valid() && it.seen <= it.cu.dies && it.cu.Valid() && forall x :: x in before ==> x in it.cu.dies
    modifies it, it.loops, it.cu, it.cu.dies
    ensures it.Valid() && it.seen <= it.cu.dies && it.cu.Valid() && it.cu.Grown()
    ensures fresh(it.loops - old(it.loops))
    ensures Offsets(out) + it.Remaining() == Offsets(before) + old(it.Remaining())
    ensures (done ==> it.Remaining() == []) && (!done ==> |it.Remaining()| < old(|it.Remaining()|))
    ensures forall x :: x in out ==> x in it.cu.dies
  {
    var next := it.Next();
    done := next == null;
    out := before;
    if next != null {
      var d: Die := next;
      OneMore(before, d, it.Remaining());
      out := before + [d];
    }
  }

  lemma OneMore(out: seq<Die>, d: Die, rest: seq<nat>)
    ensures Offsets(out) + ([d.offset] + rest) == Offsets(out + [d]) + rest
  {
  }

  // ----- whole sessions -----

  /** A new `iter_DIEs()` generator, `next` on the k-th generator, `get_DIE_from_refaddr`, and `get_parent`
      of what that returns. */
  datatype Command = Open | Resume(k: nat) | Lookup(refaddr: nat) | Parent(refaddr: nat)

  function Resumes(): nat -> Command { (k: nat) => Resume(k) }

  ghost predicate Possible(cmds: seq<Command>) { ResumesOpened(cmds, Open, Resumes()) }

  datatype Outcome = DieAt(offset: nat) | Nothing | Raises(error: Error)

  /** The answer that the tree alone determines: a generator's n-th resumption yields entry n of the pre-order,
      and the parent is the one in the tree, whatever ran in between. */
  ghost function Expected(cu: CompileUnit, cmds: seq<Command>, i: nat): Outcome
    requires i < |cmds|
  {
    match cmds[i]
    case Open => Nothing
    case Resume(k) => Nth(Preorder(cu.cuDieOffset, cu.tree), Count(cmds[..i], Resume(k)))
    case Lookup(a) => if cu.Contains(a) then DieAt(a) else Raises(DwarfError)
    case Parent(a) =>
      if !cu.Contains(a) then Raises(DwarfError)
      else match cu.PlaceOf(a)
        case None => Raises(ValueError)
        case Some(p) => if p.parent.None? then Nothing else DieAt(p.parent.value)
  }

  function Nth(s: seq<nat>, n: nat): Outcome { if n < |s| then DieAt(s[n]) else Nothing }

  function From(s: seq<nat>, n: nat): seq<nat> { if n <= |s| then s[n..] else [] }

  /** A reply is what was expected, every entry being a cached object. */
  ghost predicate Answered(cached: set<Die>, expected: Outcome, reply: Result<Die?, Error>) {
    match expected
    case DieAt(o) => reply.Ok? && reply.value != null && reply.value in cached && reply.value.offset == o
    case Nothing => reply == Ok(null)
    case Raises(e) => reply == Err(e)
  }

  ghost predicate AllAnswered(cu: CompileUnit, cmds: seq<Command>, replies: seq<Result<Die?, Error>>, cached: set<Die>) {
    |replies| <= |cmds| && forall i :: 0 <= i < |replies| ==> Answered(cached, Expected(cu, cmds, i), replies[i])
  }

  lemma OneMoreAnswered(cu: CompileUnit, cmds: seq<Command>, replies: seq<Result<Die?, Error>>, cached: set<Die>,
                        reply: Result<Die?, Error>, more: set<Die>)
    requires AllAnswered(cu, cmds, replies, cached) && cached <= more && |replies| < |cmds|
    requires Answered(more, Expected(cu, cmds, |replies|), reply)
    ensures AllAnswered(cu, cmds, replies + [reply], more)
  {
    forall i | 0 <= i < |replies| ensures Answered(more, Expected(cu, cmds, i), (replies + [reply])[i]) {
      assert Answered(cached, Expected(cu, cmds, i), replies[i]);
    }
  }

  /** A generator that has been resumed `n` times. */
  ghost predicate Live(cu: CompileUnit, g: DieIterator, n: nat)
    reads g, g.loops
  {
    g.cu == cu && g.Valid() && g.Remaining() == From(Preorder(cu.cuDieOffset, cu.tree), n)
  }

  /** Distinct generators, the k-th resumed `counts[k]` times. */
  ghost predicate Running(cu: CompileUnit, gens: seq<DieIterator>, counts: seq<nat>, cached: set<Die>)
    reads gens, set k, x | 0 <= k < |gens| && x in gens[k].loops :: x
  {
    && |gens| == |counts|
    && (forall k :: 0 <= k < |gens| ==> Live(cu, gens[k], counts[k]))
    && (forall k :: 0 <= k < |gens| ==> gens[k].seen <= cached)
    && (forall k, l :: 0 <= k < l < |gens| ==> gens[k] != gens[l])
  }

  /** One generator is resumed. */
  method ResumeOne(cu: CompileUnit, g: DieIterator, ghost n: nat) returns (reply: Result<Die?, Error>)
    requires cu.Valid() && Live(cu, g, n) && g.seen <= cu.dies
    modifies g, g.loops, cu, cu.dies
    ensures cu.Valid() && cu.Grown() && Live(cu, g, n + 1) && g.seen <= cu.dies
    ensures fresh(g.loops - old(g.loops))
    ensures Answered(cu.dies, Nth(Preorder(cu.cuDieOffset, cu.tree), n), reply)
  {
    ghost var whole := Preorder(cu.cuDieOffset, cu.tree);
    var d := g.Next();
    FromStep(whole, n, if d == null then [] else [d.offset], g.Remaining());
    reply := Ok(d);
  }

  lemma FromStep(s: seq<nat>, n: nat, x: seq<nat>, rest: seq<nat>)
    requires |x| <= 1 && From(s, n) == x + rest && (x == [] ==> rest == [])
    ensures rest == From(s, n + 1) && Nth(s, n) == if x == [] then Nothing else DieAt(x[0])
  {
    assert x != [] ==> (x + rest)[1..] == rest;
    assert n < |s| ==> s[n..][1..] == s[n + 1..];
  }

  /** `get_DIE_from_refaddr(a)`, and then perhaps `get_parent()`. */
  method Ask(cu: CompileUnit, a: nat, parent: bool) returns (reply: Result<Die?, Error>)
    requires cu.Valid()
    modifies cu, cu.dies
    ensures cu.Valid() && cu.Grown()
    ensures Answered(cu.dies, Expected(cu, [if parent then Parent(a) else Lookup(a)], 0), reply)
  {
    var d := cu.GetDieFromRefaddr(a);
    if d.Err? { return Err(d.error); }
    if !parent { return Ok(d.value); }
    if cu.PlaceOf(a).Some? { ParentExists(cu.cuDieOffset, cu.tree, None, a); }
    reply := GetParent(cu, d.value);
  }

  /** A question disturbs no generator. */
  method AskBeside(cu: CompileUnit, gens: seq<DieIterator>, ghost counts: seq<nat>, a: nat, parent: bool) returns (reply: Result<Die?, Error>)
    requires cu.Valid() && Running(cu, gens, counts, cu.dies)
    modifies cu, cu.dies
    ensures cu.Valid() && cu.Grown() && Running(cu, gens, counts, cu.dies)
    ensures Answered(cu.dies, Expected(cu, [if parent then Parent(a) else Lookup(a)], 0), reply)
  {
    reply := Ask(cu, a, parent);
  }

  /** Nor does opening another. */
  method OpenBeside(cu: CompileUnit, gens: seq<DieIterator>, ghost counts: seq<nat>) returns (g: DieIterator)
    requires cu.Valid() && Running(cu, gens, counts, cu.dies)
    modifies cu, cu.dies
    ensures cu.Valid() && cu.Grown() && Running(cu, gens + [g], counts + [0], cu.dies)
    ensures fresh(g) && g.loops == {}
  {
    var top := cu.GetTopDie();
    g := new DieIterator(cu, top);
  }

  /** Nor does resuming another. */
  method ResumeBeside(cu: CompileUnit, gens: seq<DieIterator>, ghost counts: seq<nat>, k: nat) returns (reply: Result<Die?, Error>)
    requires cu.Valid() && Running(cu, gens, counts, cu.dies) && k < |gens|
    modifies gens[k], gens[k].loops, cu, cu.dies
    ensures cu.Valid() && cu.Grown() && Running(cu, gens, counts[k := counts[k] + 1], cu.dies)
    ensures fresh(gens[k].loops - old(gens[k].loops))
    ensures forall l :: 0 <= l < |gens| && l != k ==> gens[l].loops == old(gens[l].loops)
    ensures Answered(cu.dies, Nth(Preorder(cu.cuDieOffset, cu.tree), counts[k]), reply)
  {
    reply := ResumeOne(cu, gens[k], counts[k]);
  }

  /** How often each generator has been resumed. */
  ghost function Counts(cmds: seq<Command>): seq<nat> {
    seq(Count(cmds, Open), (k: nat) => Count(cmds, Resume(k)))
  }

  ghost function CountsAfter(counts: seq<nat>, c: Command): seq<nat> {
    match c
    case Open => counts + [0]
    case Resume(k) => if k < |counts| then counts[k := counts[k] + 1] else counts
    case _ => counts
  }

  lemma CountsStep(cmds: seq<Command>, i: nat)
    requires Possible(cmds) && i < |cmds|
    ensures Counts(cmds[..i + 1]) == CountsAfter(Counts(cmds[..i]), cmds[i])
    ensures cmds[i].Resume? ==> cmds[i].k < |Counts(cmds[..i])|
  {
    CountSnoc(cmds, i, Open);
    forall k ensures Count(cmds[..i + 1], Resume(k)) == Count(cmds[..i], Resume(k)) + if cmds[i] == Resume(k) then 1 else 0 {
      CountSnoc(cmds, i, Resume(k));
    }
    if cmds[i].Resume? { assert cmds[i] == Resumes()(cmds[i].k); }
    if cmds[i].Open? { NotYetOpened(cmds, Open, Resumes(), i, Count(cmds[..i], Open)); }
  }

  /** What a command may change besides the unit. */
  ghost function Touched(c: Command, gens: seq<DieIterator>): set<object>
    reads gens
  {
    if c.Resume? && c.k < |gens| then {gens[c.k]} + gens[c.k].loops else {}
  }

  /** One command. */
  method Serve(cu: CompileUnit, cmds: seq<Command>, i: nat, gens: seq<DieIterator>) returns (reply: Result<Die?, Error>, all: seq<DieIterator>)
    requires cu.Valid() && Possible(cmds) && i < |cmds| && Running(cu, gens, Counts(cmds[..i]), cu.dies)
    modifies cu, cu.dies, Touched(cmds[i], gens)
    ensures cu.Valid() && cu.Grown() && Running(cu, all, Counts(cmds[..i + 1]), cu.dies)
    ensures Answered(cu.dies, Expected(cu, cmds, i), reply)
    ensures gens <= all && forall k :: |gens| <= k < |all| ==> fresh(all[k]) && all[k].loops == {}
    ensures forall k :: 0 <= k < |gens| ==> fresh(gens[k].loops - old(gens[k].loops))
  {
    CountsStep(cmds, i);
    ghost var counts := Counts(cmds[..i]);
    all := gens;
    match cmds[i] {
      case Lookup(a) => reply := AskBeside(cu, gens, counts, a, false);
      case Parent(a) => reply := AskBeside(cu, gens, counts, a, true);
      case Open =>
        var g := OpenBeside(cu, gens, counts);
        all, reply := gens + [g], Ok(null);
      case Resume(k) => reply := ResumeBeside(cu, gens, counts, k);
    }
  }

  /** For every interleaving of any number of suspended generators, lookups and searches for parents, every
      reply is the one that the tree determines; and as all entries in replies are cached objects, an entry is
      the same object in every reply. */
  method Session(cu: CompileUnit, cmds: seq<Command>) returns (replies: seq<Result<Die?, Error>>)
    requires cu.Valid() && Possible(cmds)
    modifies cu, cu.dies
    ensures cu.Valid() && cu.Grown() && |replies| == |cmds| && AllAnswered(cu, cmds, replies, cu.dies)
  {
    replies := [];
    var gens: seq<DieIterator> := [];
    for i := 0 to |cmds|
      invariant cu.Valid() && cu.Grown() && Running(cu, gens, Counts(cmds[..i]), cu.dies)
      invariant |replies| == i && AllAnswered(cu, cmds, replies, cu.dies)
      invariant forall k :: 0 <= k < |gens| ==> fresh(gens[k]) && fresh(gens[k].loops)
    {
      ghost var cached := cu.dies;
      var reply;
      reply, gens := Serve(cu, cmds, i, gens);
      OneMoreAnswered(cu, cmds, replies, cached, reply, cu.dies);
      replies := replies + [reply];
    }
  }

  /** Two replies about one entry are one object. */
  lemma SameEntrySameObject(cu: CompileUnit, o: nat, a: Result<Die?, Error>, b: Result<Die?, Error>)
    requires cu.Valid() && Answered(cu.dies, DieAt(o), a) && Answered(cu.dies, DieAt(o), b)
    ensures a == b
  {
    cu.SameOffsetSameObject(a.value, b.value);
  }
}
