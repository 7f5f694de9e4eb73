/** The flattened DIE tree of a compile unit (section 2.3 of DWARF v4): a tree written in
    pre-order, every list of children closed by a null entry. Parsing one entry is an abstract
    function from a section offset to a `Record`. */
module DieTree {
  import opened Common

  type pos = n: nat | 0 < n witness 1

  /** DW_AT_sibling, by the class of its form. */
  datatype Sibling = NoSibling | UnitRelative(value: nat) | SectionAbsolute(value: nat)

  datatype Record =
    | Null(size: nat)
    | Entry(size: nat, hasChildren: bool, sibling: Sibling)

  type Parser = nat -> Record

  datatype Tree = Leaf(size: pos, sibling: Sibling) | Branch(size: pos, sibling: Sibling, kids: Forest)
  datatype Forest = End(size: pos) | Cons(head: Tree, tail: Forest)

  /** Bytes taken by a whole subtree, terminators included. */
  function TreeSize(t: Tree): pos {
    if t.Leaf? then t.size else t.size + ForestSize(t.kids)
  }

  function ForestSize(f: Forest): pos {
    if f.End? then f.size else TreeSize(f.head) + ForestSize(f.tail)
  }

  /** A sibling attribute, where present, names the first byte after the subtree. */
  predicate Truthful(s: Sibling, cuOffset: nat, next: nat) {
    match s
    case NoSibling => true
    case UnitRelative(v) => v + cuOffset == next
    case SectionAbsolute(v) => v == next
  }

  /** The bytes at `off` are the flattened form of `t`. */
  ghost predicate Encodes(parse: Parser, cuOffset: nat, off: nat, t: Tree)
    decreases t
  {
    && parse(off) == Entry(t.size, t.Branch?, t.sibling)
    && (t.Branch? ==>
      && Truthful(t.sibling, cuOffset, off + TreeSize(t))
      && EncodesForest(parse, cuOffset, off + t.size, t.kids))
  }

  ghost predicate EncodesForest(parse: Parser, cuOffset: nat, off: nat, f: Forest)
    decreases f
  {
    match f
    case End(size) => parse(off) == Null(size)
    case Cons(h, tl) =>
      && Encodes(parse, cuOffset, off, h)
      && EncodesForest(parse, cuOffset, off + TreeSize(h), tl)
  }

  /** Offsets of all entries in pre-order, terminators included. */
  function Preorder(off: nat, t: Tree): seq<nat>
    decreases t
  {
    if t.Leaf? then [off] else [off] + PreorderForest(off + t.size, t.kids)
  }

  function PreorderForest(off: nat, f: Forest): seq<nat>
    decreases f
  {
    match f
    case End(_) => [off]
    case Cons(h, tl) => Preorder(off, h) + PreorderForest(off + TreeSize(h), tl)
  }

  /** Offsets of the trees of a forest, the terminator excluded. */
  function ChildOffsets(off: nat, f: Forest): seq<nat>
    decreases f
  {
    if f.End? then [] else [off] + ChildOffsets(off + TreeSize(f.head), f.tail)
  }

  function TerminatorOffset(off: nat, f: Forest): nat
    decreases f
  {
    if f.End? then off else TerminatorOffset(off + TreeSize(f.head), f.tail)
  }

  datatype Node = Subtree(tree: Tree) | Terminator(size: pos)

  /** What the tree holds at an offset: the node and the offset of its parent. */
  datatype Place = Place(parent: Option<nat>, node: Node)

  /** The reference answer to "which node starts at offset `o`": descend by byte ranges. */
  function Locate(off: nat, t: Tree, up: Option<nat>, o: nat): Option<Place>
    decreases t
  {
    if o == off then Some(Place(up, Subtree(t)))
    else if t.Branch? && off + t.size <= o then LocateForest(off + t.size, t.kids, off, o)
    else None
  }

  function LocateForest(off: nat, f: Forest, up: nat, o: nat): Option<Place>
    decreases f
  {
    match f
    case End(size) => if o == off then Some(Place(Some(up), Terminator(size))) else None
    case Cons(h, tl) =>
      if o < off + TreeSize(h) then Locate(off, h, Some(up), o)
      else LocateForest(off + TreeSize(h), tl, up, o)
  }

  /** `rest`, starting at `cur`, is what remains of `f` after some of its trees. */
  ghost predicate Suffix(off: nat, f: Forest, cur: nat, rest: Forest)
    decreases f
  {
    || (cur == off && rest == f)
    || (f.Cons? && Suffix(off + TreeSize(f.head), f.tail, cur, rest))
  }

  // ----- byte ranges -----

  lemma {:induction false} LocateInRange(off: nat, t: Tree, up: Option<nat>, o: nat)
    ensures Locate(off, t, up, o).Some? ==> off <= o < off + TreeSize(t)
    ensures Locate(off, t, up, o).Some? && o != off ==> Locate(off, t, up, o).value.parent.Some?
    decreases t
  {
    if t.Branch? && off + t.size <= o { LocateForestInRange(off + t.size, t.kids, off, o); }
  }

  lemma {:induction false} LocateForestInRange(off: nat, f: Forest, up: nat, o: nat)
    ensures LocateForest(off, f, up, o).Some? ==> off <= o < off + ForestSize(f)
    ensures LocateForest(off, f, up, o).Some? ==> LocateForest(off, f, up, o).value.parent.Some?
    decreases f
  {
    if f.Cons? {
      LocateInRange(off, f.head, Some(up), o);
      LocateForestInRange(off + TreeSize(f.head), f.tail, up, o);
    }
  }

  // ----- subtrees of subtrees -----

  /** Inside the range of a subtree, looking up from the root is looking up from the subtree. */
  lemma {:induction false} LocateWithin(parse: Parser, cu: nat, off: nat, t: Tree, up: Option<nat>, o: nat)
    requires Encodes(parse, cu, off, t)
    requires Locate(off, t, up, o).Some? && Locate(off, t, up, o).value.node.Subtree?
    ensures var p := Locate(off, t, up, o).value;
      && Encodes(parse, cu, o, p.node.tree)
      && off <= o && o + TreeSize(p.node.tree) <= off + TreeSize(t)
      && forall q :: o <= q < o + TreeSize(p.node.tree) ==> Locate(off, t, up, q) == Locate(o, p.node.tree, p.parent, q)
    decreases t
  {
    if o != off { LocateForestWithin(parse, cu, off + t.size, t.kids, off, o); }
  }

  lemma {:induction false} LocateForestWithin(parse: Parser, cu: nat, off: nat, f: Forest, up: nat, o: nat)
    requires EncodesForest(parse, cu, off, f)
    requires LocateForest(off, f, up, o).Some? && LocateForest(off, f, up, o).value.node.Subtree?
    ensures var p := LocateForest(off, f, up, o).value;
      && Encodes(parse, cu, o, p.node.tree)
      && off <= o && o + TreeSize(p.node.tree) < off + ForestSize(f)
      && forall q :: o <= q < o + TreeSize(p.node.tree) ==> LocateForest(off, f, up, q) == Locate(o, p.node.tree, p.parent, q)
    decreases f
  {
    if o < off + TreeSize(f.head) {
      LocateInRange(off, f.head, Some(up), o);
      LocateWithin(parse, cu, off, f.head, Some(up), o);
    } else {
      LocateForestWithin(parse, cu, off + TreeSize(f.head), f.tail, up, o);
    }
  }

  lemma {:induction false} LocateTerminator(parse: Parser, cu: nat, off: nat, t: Tree, up: Option<nat>, o: nat)
    requires Encodes(parse, cu, off, t)
    requires Locate(off, t, up, o).Some? && Locate(off, t, up, o).value.node.Terminator?
    ensures parse(o).Null?
    decreases t
  {
    LocateForestTerminator(parse, cu, off + t.size, t.kids, off, o);
  }

  lemma {:induction false} LocateForestTerminator(parse: Parser, cu: nat, off: nat, f: Forest, up: nat, o: nat)
    requires EncodesForest(parse, cu, off, f)
    requires LocateForest(off, f, up, o).Some? && LocateForest(off, f, up, o).value.node.Terminator?
    ensures parse(o).Null?
    decreases f
  {
    if f.Cons? {
      if o < off + TreeSize(f.head) {
        LocateTerminator(parse, cu, off, f.head, Some(up), o);
      } else {
        LocateForestTerminator(parse, cu, off + TreeSize(f.head), f.tail, up, o);
      }
    }
  }

  /** Only the entry that the search starts from can be without a parent. */
  lemma {:induction false} ParentExists(off: nat, t: Tree, up: Option<nat>, o: nat)
    requires Locate(off, t, up, o).Some?
    ensures o == off ==> Locate(off, t, up, o).value.parent == up
    ensures o != off ==> Locate(off, t, up, o).value.parent.Some?
    decreases t
  {
    if o != off { ParentInForest(off + t.size, t.kids, off, o); }
  }

  lemma {:induction false} ParentInForest(off: nat, f: Forest, up: nat, o: nat)
    requires LocateForest(off, f, up, o).Some?
    ensures LocateForest(off, f, up, o).value.parent.Some?
    decreases f
  {
    if f.Cons? {
      if o < off + TreeSize(f.head) {
        ParentExists(off, f.head, Some(up), o);
      } else {
        ParentInForest(off + TreeSize(f.head), f.tail, up, o);
      }
    }
  }

  // ----- walking along a list of children -----

  lemma {:induction false} SuffixFacts(parse: Parser, cu: nat, off: nat, f: Forest, cur: nat, rest: Forest, up: nat)
    requires Suffix(off, f, cur, rest) && EncodesForest(parse, cu, off, f)
    ensures off <= cur && cur + ForestSize(rest) == off + ForestSize(f)
    ensures EncodesForest(parse, cu, cur, rest)
    ensures forall o :: cur <= o ==> LocateForest(off, f, up, o) == LocateForest(cur, rest, up, o)
    ensures TerminatorOffset(off, f) == TerminatorOffset(cur, rest)
    decreases f
  {
    if !(cur == off && rest == f) { SuffixFacts(parse, cu, off + TreeSize(f.head), f.tail, cur, rest, up); }
  }

  lemma {:induction false} SuffixStep(off: nat, f: Forest, cur: nat, rest: Forest)
    requires Suffix(off, f, cur, rest) && rest.Cons?
    ensures Suffix(off, f, cur + TreeSize(rest.head), rest.tail)
    decreases f
  {
    if cur == off && rest == f {
      assert Suffix(off + TreeSize(f.head), f.tail, cur + TreeSize(rest.head), rest.tail);
    } else {
      SuffixStep(off + TreeSize(f.head), f.tail, cur, rest);
    }
  }

  lemma {:induction false} TerminatorFacts(parse: Parser, cu: nat, off: nat, f: Forest, up: nat)
    requires EncodesForest(parse, cu, off, f)
    ensures var e := TerminatorOffset(off, f);
      && off <= e < off + ForestSize(f)
      && parse(e).Null? && e + parse(e).size == off + ForestSize(f)
      && LocateForest(off, f, up, e) == Some(Place(Some(up), Terminator(off + ForestSize(f) - e)))
    decreases f
  {
    if f.Cons? { TerminatorFacts(parse, cu, off + TreeSize(f.head), f.tail, up); }
  }

  /** `rest`, starting at `cur`, is what remains of the children of the entry at `owner`, whose subtree in the
      whole tree is `sub`. */
  ghost predicate OnList(top: nat, tree: Tree, owner: nat, sub: Tree, cur: nat, rest: Forest) {
    && Locate(top, tree, None, owner).Some? && Locate(top, tree, None, owner).value.node == Subtree(sub)
    && sub.Branch? && Suffix(owner + sub.size, sub.kids, cur, rest)
  }

  lemma ListRange(parse: Parser, cu: nat, top: nat, tree: Tree, owner: nat, sub: Tree, cur: nat, rest: Forest)
    requires Encodes(parse, cu, top, tree) && OnList(top, tree, owner, sub, cur, rest)
    ensures EncodesForest(parse, cu, cur, rest) && top <= owner < cur
    ensures cur + ForestSize(rest) == owner + TreeSize(sub)
    ensures TerminatorOffset(cur, rest) == TerminatorOffset(owner + sub.size, sub.kids)
    ensures forall o :: cur <= o < cur + ForestSize(rest) ==> Locate(top, tree, None, o) == LocateForest(cur, rest, owner, o)
  {
    LocateWithin(parse, cu, top, tree, None, owner);
    SuffixFacts(parse, cu, owner + sub.size, sub.kids, cur, rest, owner);
  }

  lemma LocateFirst(off: nat, f: Forest, up: nat)
    ensures LocateForest(off, f, up, off) == Some(Place(Some(up), if f.Cons? then Subtree(f.head) else Terminator(f.size)))
  {
    if f.Cons? { assert Locate(off, f.head, Some(up), off) == Some(Place(Some(up), Subtree(f.head))); }
  }

  /** The entry that starts at `cur`: a child, or the null entry at the end of the list. */
  lemma ListEntry(parse: Parser, cu: nat, top: nat, tree: Tree, owner: nat, sub: Tree, cur: nat, rest: Forest)
    requires Encodes(parse, cu, top, tree) && OnList(top, tree, owner, sub, cur, rest)
    ensures top <= cur && (parse(cur).Null? <==> rest.End?)
    ensures Locate(top, tree, None, cur) == Some(Place(Some(owner), if rest.Cons? then Subtree(rest.head) else Terminator(rest.size)))
    ensures rest.End? ==> cur == TerminatorOffset(owner + sub.size, sub.kids)
  {
    ListRange(parse, cu, top, tree, owner, sub, cur, rest);
    LocateFirst(cur, rest, owner);
  }

  /** A child on the list lies inside its owner, and the list goes on behind it. */
  lemma ListChild(parse: Parser, cu: nat, top: nat, tree: Tree, owner: nat, sub: Tree, cur: nat, rest: Forest)
    requires Encodes(parse, cu, top, tree) && OnList(top, tree, owner, sub, cur, rest) && rest.Cons?
    ensures TreeSize(rest.head) < TreeSize(sub) && owner < cur && cur + TreeSize(rest.head) < owner + TreeSize(sub)
    ensures OnList(top, tree, owner, sub, cur + TreeSize(rest.head), rest.tail)
  {
    ListRange(parse, cu, top, tree, owner, sub, cur, rest);
    SuffixStep(owner + sub.size, sub.kids, cur, rest);
    assert ForestSize(rest) == TreeSize(rest.head) + ForestSize(rest.tail);
  }

  // ----- the pre-order and the lookup describe the same tree -----

  /** The pre-order is contiguous: each entry begins where the previous one ends, from the first
      byte of the tree to its last. */
  lemma {:induction false} PreorderContiguous(parse: Parser, cu: nat, off: nat, t: Tree)
    requires Encodes(parse, cu, off, t)
    ensures Tiles(parse, Preorder(off, t), off, off + TreeSize(t))
    decreases t
  {
    if t.Branch? {
      PreorderForestContiguous(parse, cu, off + t.size, t.kids);
      TilesConcat(parse, [off], PreorderForest(off + t.size, t.kids), off, off + t.size, off + TreeSize(t));
    }
  }

  lemma {:induction false} PreorderForestContiguous(parse: Parser, cu: nat, off: nat, f: Forest)
    requires EncodesForest(parse, cu, off, f)
    ensures Tiles(parse, PreorderForest(off, f), off, off + ForestSize(f))
    decreases f
  {
    if f.Cons? {
      var mid, hi := off + TreeSize(f.head), off + ForestSize(f);
      assert mid + ForestSize(f.tail) == hi;
      var a, b := Preorder(off, f.head), PreorderForest(mid, f.tail);
      assert PreorderForest(off, f) == a + b;
      PreorderContiguous(parse, cu, off, f.head);
      PreorderForestContiguous(parse, cu, mid, f.tail);
      TilesConcat(parse, a, b, off, mid, hi);
    }
  }

  /** The entries listed in `s` follow each other without gap from `lo` to `hi`. */
  ghost predicate Tiles(parse: Parser, s: seq<nat>, lo: nat, hi: nat) {
    && s != [] && s[0] == lo
    && forall i :: 0 <= i < |s| ==> 0 < parse(s[i]).size && s[i] + parse(s[i]).size == After(s, i, hi)
  }

  ghost function After(s: seq<nat>, i: nat, hi: nat): nat {
    if i + 1 < |s| then s[i + 1] else hi
  }

  lemma TilesConcat(parse: Parser, a: seq<nat>, b: seq<nat>, lo: nat, mid: nat, hi: nat)
    requires Tiles(parse, a, lo, mid) && Tiles(parse, b, mid, hi)
    ensures Tiles(parse, a + b, lo, hi)
  {
    var s := a + b;
    forall i | 0 <= i < |s|
      ensures 0 < parse(s[i]).size && s[i] + parse(s[i]).size == After(s, i, hi)
    {
      if i < |a| {
        assert s[i] == a[i] && After(s, i, hi) == After(a, i, mid);
      } else {
        assert s[i] == b[i - |a|] && After(s, i, hi) == After(b, i - |a|, hi);
      }
    }
  }

  lemma {:induction false} TilesSorted(parse: Parser, s: seq<nat>, lo: nat, hi: nat)
    requires Tiles(parse, s, lo, hi)
    ensures StrictlySorted(s) && forall i :: 0 <= i < |s| ==> lo <= s[i] < hi
    decreases |s|
  {
    assert s[0] + parse(s[0]).size == After(s, 0, hi);
    if |s| > 1 {
      var r := s[1..];
      assert forall i :: 0 <= i < |r| ==> r[i] == s[i + 1] && After(r, i, hi) == After(s, i + 1, hi);
      TilesSorted(parse, r, s[1], hi);
      assert forall i :: 1 <= i < |s| ==> s[i] == r[i - 1];
    }
  }

  /** An offset is in the pre-order exactly when `Locate` finds a node there. */
  lemma {:induction false} PreorderIffLocate(off: nat, t: Tree, up: Option<nat>, o: nat)
    ensures o in Preorder(off, t) <==> Locate(off, t, up, o).Some?
    decreases t
  {
    if t.Branch? {
      PreorderForestIffLocate(off + t.size, t.kids, off, o);
      LocateForestInRange(off + t.size, t.kids, off, o);
    }
  }

  lemma {:induction false} PreorderForestIffLocate(off: nat, f: Forest, up: nat, o: nat)
    ensures o in PreorderForest(off, f) <==> LocateForest(off, f, up, o).Some?
    decreases f
  {
    if f.Cons? {
      var mid := off + TreeSize(f.head);
      PreorderIffLocate(off, f.head, Some(up), o);
      PreorderForestIffLocate(mid, f.tail, up, o);
      LocateInRange(off, f.head, Some(up), o);
      LocateForestInRange(mid, f.tail, up, o);
    }
  }
}
