/** RELR: relative relocations compressed into anchors and bitmaps. `e` is the size of an entry, which is
    the size of an address. */
module Relr {
  import opened Common

  /** What was yielded, and whether the decoder then stopped at a bitmap without a base. */
  datatype Decoded = Decoded(out: seq<nat>, failed: bool)

  // ----- what the words denote -----

  /** One address per set bit of `v`, bit 0 standing for `at`, added to `acc`. */
  function BitsFrom(v: nat, at: nat, e: nat, acc: seq<nat>): seq<nat> {
    if v == 0 then acc
    else BitsFrom(v / 2, at + e, e, if v % 2 == 1 then acc + [at] else acc)
  }

  /** How far a bitmap reaches. */
  function Span(e: nat): nat
    requires e > 0
  {
    (8 * e - 1) * e
  }

  function From(words: seq<nat>, base: Option<nat>, e: nat, acc: seq<nat>): Decoded
    requires e > 0
  {
    if words == [] then Decoded(acc, false)
    else
      var w := words[0];
      if w % 2 == 0 then From(words[1..], Some(w + e), e, acc + [w])
      else if base.None? then Decoded(acc, true)
      else From(words[1..], Some(base.value + Span(e)), e, BitsFrom(w / 2, base.value, e, acc))
  }

  function Decode(words: seq<nat>, e: nat): Decoded
    requires e > 0
  {
    From(words, None, e, [])
  }

  /** `RelrRelocationTable.iter_relocations`, the words being the entries of the section. */
  method IterRelocations(words: seq<nat>, e: nat) returns (out: seq<nat>, failed: bool)
    requires e > 0
    ensures Decoded(out, failed) == Decode(words, e)
  {
    out := [];
    var base: Option<nat> := None;
    var k := 0;
    while k < |words|
      invariant 0 <= k <= |words| && From(words[k..], base, e, out) == Decode(words, e)
    {
      assert words[k..][1..] == words[k + 1..];
      var entry := words[k];
      if entry % 2 == 0 {
        base := Some(entry + e);
        out := out + [entry];
      } else {
        if base.None? { return out, true; }
        out := Bitmap(entry, base.value, e, out);
        base := Some(base.value + Span(e));
      }
      k := k + 1;
    }
    failed := false;
  }

  method Bitmap(word: nat, base: nat, e: nat, before: seq<nat>) returns (out: seq<nat>)
    ensures out == BitsFrom(word / 2, base, e, before)
  {
    out := before;
    var entry, i := word, 0;
    while true
      invariant i >= 0 && base + i * e >= 0 && BitsFrom(entry / 2, base + i * e, e, out) == BitsFrom(word / 2, base, e, before)
      decreases entry
    {
      entry := entry / 2;
      if entry == 0 { break; }
      if entry % 2 == 1 { out := out + [base + i * e]; }
      assert (i + 1) * e == i * e + e;
      i := i + 1;
    }
  }

  // ----- which addresses, in which order -----

  lemma Associative(a: seq<nat>, b: seq<nat>, c: seq<nat>)
    ensures a + b + c == a + (b + c) && a + [] == a
  {
  }

  lemma {:induction false} BitsAppend(v: nat, at: nat, e: nat, acc: seq<nat>)
    ensures BitsFrom(v, at, e, acc) == acc + BitsFrom(v, at, e, [])
  {
    var one := if v % 2 == 1 then [at] else [];
    var rest := BitsFrom(v / 2, at + e, e, []);
    Associative(acc, one, rest);
    if v != 0 {
      BitsAppend(v / 2, at + e, e, acc + one);
      BitsAppend(v / 2, at + e, e, one);
      assert [] + one == one;
      assert v % 2 == 0 ==> acc + one == acc;
    }
  }

  lemma {:induction false} FromAppend(words: seq<nat>, base: Option<nat>, e: nat, acc: seq<nat>)
    requires e > 0
    ensures From(words, base, e, acc) == Decoded(acc + From(words, base, e, []).out, From(words, base, e, []).failed)
  {
    Associative(acc, [], []);
    if words != [] {
      var w, rest := words[0], words[1..];
      if w % 2 == 0 {
        FromAppend(rest, Some(w + e), e, acc + [w]);
        FromAppend(rest, Some(w + e), e, [w]);
        Associative(acc, [w], From(rest, Some(w + e), e, []).out);
        assert [] + [w] == [w];
      } else if base.Some? {
        var bits, next := BitsFrom(w / 2, base.value, e, []), Some(base.value + Span(e));
        BitsAppend(w / 2, base.value, e, acc);
        FromAppend(rest, next, e, acc + bits);
        FromAppend(rest, next, e, bits);
        Associative(acc, bits, From(rest, next, e, []).out);
      }
    }
  }

  /** Address number `k` in steps of `d`. */
  function Nth(at: nat, d: nat, k: nat): nat { at + k * d }

  lemma NthNext(at: nat, d: nat, k: nat)
    ensures Nth(at, d, k + 1) == Nth(at + d, d, k) == Nth(at, d, k) + d && Nth(at, d, 0) == at
  {
    assert (k + 1) * d == k * d + d;
  }

  ghost predicate SetAt(v: nat, at: nat, d: nat, a: nat) {
    exists k: nat :: Bit(v, k) && a == Nth(at, d, k)
  }

  lemma SetAtStep(v: nat, at: nat, d: nat, a: nat)
    ensures SetAt(v, at, d, a) <==> (v % 2 == 1 && a == at) || SetAt(v / 2, at + d, d, a)
  {
    if SetAt(v, at, d, a) {
      var k: nat :| Bit(v, k) && a == Nth(at, d, k);
      if k > 0 { NthNext(at, d, k - 1); assert Bit(v / 2, k - 1); } else { NthNext(at, d, 0); }
    }
    if v % 2 == 1 && a == at { NthNext(at, d, 0); assert Bit(v, 0); }
    if SetAt(v / 2, at + d, d, a) {
      var k: nat :| Bit(v / 2, k) && a == Nth(at + d, d, k);
      NthNext(at, d, k);
      assert Bit(v, k + 1);
    }
  }

  lemma {:induction false} NoBits(k: nat)
    ensures !Bit(0, k)
  {
    if k > 0 { NoBits(k - 1); }
  }

  lemma SortedConcat(a: seq<nat>, b: seq<nat>, m: nat)
    requires StrictlySorted(a) && StrictlySorted(b)
    requires (forall x :: x in a ==> x < m) && (forall x :: x in b ==> m <= x)
    ensures StrictlySorted(a + b)
  {
    forall i, j | 0 <= i < j < |a + b| ensures (a + b)[i] < (a + b)[j] {
      if i < |a| <= j { assert a[i] in a && b[j - |a|] in b; }
    }
  }

  lemma BitsUnfold(v: nat, at: nat, e: nat)
    ensures BitsFrom(v, at, e, []) == (if v % 2 == 1 then [at] else []) + BitsFrom(v / 2, at + e, e, [])
  {
    BitsAppend(v / 2, at + e, e, if v % 2 == 1 then [at] else []);
    assert [] + [at] == [at];
  }

  /** A bitmap gives one address for every set bit and no other, in ascending order, below its reach. */
  lemma {:induction false} BitsMeaning(v: nat, at: nat, e: nat, n: nat)
    requires e > 0 && v < Pow2(n)
    ensures var s := BitsFrom(v, at, e, []);
      && StrictlySorted(s)
      && (forall a :: a in s <==> SetAt(v, at, e, a))
      && (forall a :: a in s ==> at <= a < Nth(at, e, n))
    decreases v
  {
    if v == 0 {
      forall k: nat ensures !Bit(v, k) { NoBits(k); }
    } else {
      var one, rest := if v % 2 == 1 then [at] else [], BitsFrom(v / 2, at + e, e, []);
      BitsUnfold(v, at, e);
      BitsMeaning(v / 2, at + e, e, n - 1);
      NthNext(at, e, n - 1);
      assert at < Nth(at, e, n) by { assert (n - 1) * e >= 0; }
      SortedConcat(one, rest, at + e);
      forall a ensures a in one + rest <==> SetAt(v, at, e, a) { SetAtStep(v, at, e, a); }
    }
  }

  ghost predicate Bitmaps(words: seq<nat>, e: nat) {
    forall j :: 0 <= j < |words| ==> words[j] % 2 == 1 && words[j] < Pow2(8 * e)
  }

  /** Bit `k` above the marker bit of bitmap number `j` stands for `base + j * Span(e) + k * e`. */
  ghost predicate SetInGroup(words: seq<nat>, base: nat, e: nat, a: nat)
    requires e > 0
  {
    exists j: nat :: j < |words| && SetAt(words[j] / 2, Nth(base, Span(e), j), e, a)
  }

  lemma SetInGroupStep(words: seq<nat>, base: nat, e: nat, a: nat)
    requires e > 0 && words != []
    ensures SetInGroup(words, base, e, a) <==> SetAt(words[0] / 2, base, e, a) || SetInGroup(words[1..], base + Span(e), e, a)
  {
    var d := Span(e);
    NthNext(base, d, 0);
    if SetInGroup(words, base, e, a) {
      var j: nat :| j < |words| && SetAt(words[j] / 2, Nth(base, d, j), e, a);
      if j > 0 { NthNext(base, d, j - 1); assert words[1..][j - 1] == words[j]; }
    }
    if SetAt(words[0] / 2, base, e, a) { assert SetAt(words[0] / 2, Nth(base, d, 0), e, a); }
    if SetInGroup(words[1..], base + d, e, a) {
      var j: nat :| j < |words[1..]| && SetAt(words[1..][j] / 2, Nth(base + d, d, j), e, a);
      NthNext(base, d, j);
      assert SetAt(words[j + 1] / 2, Nth(base, d, j + 1), e, a);
    }
  }

  lemma {:induction false} BitmapsMeaning(words: seq<nat>, base: nat, e: nat)
    requires e > 0 && Bitmaps(words, e)
    ensures var r := From(words, Some(base), e, []);
      && !r.failed && StrictlySorted(r.out)
      && (forall a :: a in r.out <==> SetInGroup(words, base, e, a))
      && (forall a :: a in r.out ==> base <= a)
    decreases |words|
  {
    if words != [] {
      var w, rest, next := words[0], words[1..], base + Span(e);
      var bits, more := BitsFrom(w / 2, base, e, []), From(rest, Some(next), e, []).out;
      assert w / 2 < Pow2(8 * e - 1);
      BitsMeaning(w / 2, base, e, 8 * e - 1);
      BitmapsMeaning(rest, next, e);
      FromAppend(rest, Some(next), e, bits);
      SortedConcat(bits, more, next);
      forall a ensures a in bits + more <==> SetInGroup(words, base, e, a) { SetInGroupStep(words, base, e, a); }
    }
  }

  /** An anchor followed by bitmaps yields the anchor and one address for every set bit above bit 0 of
      every bitmap, no other, strictly increasing. */
  lemma GroupMeaning(anchor: nat, words: seq<nat>, e: nat)
    requires e > 0 && anchor % 2 == 0 && Bitmaps(words, e)
    ensures var r := Decode([anchor] + words, e);
      && !r.failed && StrictlySorted(r.out)
      && forall a :: a in r.out <==> a == anchor || SetInGroup(words, anchor + e, e, a)
  {
    BitmapsMeaning(words, anchor + e, e);
    assert ([anchor] + words)[1..] == words;
    FromAppend(words, Some(anchor + e), e, [anchor]);
    assert [] + [anchor] == [anchor];
    SortedConcat([anchor], From(words, Some(anchor + e), e, []).out, anchor + e);
  }

  /** An address of a group, spelled out: bit `k + 1` of bitmap `j` stands for the anchor plus one entry, plus `j`
      times the reach of a bitmap, plus `k` entries. */
  ghost predicate GroupAddress(anchor: nat, words: seq<nat>, e: nat, a: nat) {
    a == anchor || exists j: nat, k: nat {:trigger words[j], Pow2(k)} ::
      j < |words| && words[j] / 2 / Pow2(k) % 2 == 1 && a == anchor + e + j * ((8 * e - 1) * e) + k * e
  }

  lemma GroupAddressIff(anchor: nat, words: seq<nat>, e: nat, a: nat)
    requires e > 0
    ensures GroupAddress(anchor, words, e, a) <==> a == anchor || SetInGroup(words, anchor + e, e, a)
  {
    if SetInGroup(words, anchor + e, e, a) {
      var j: nat :| j < |words| && SetAt(words[j] / 2, Nth(anchor + e, Span(e), j), e, a);
      var k: nat :| Bit(words[j] / 2, k) && a == Nth(Nth(anchor + e, Span(e), j), e, k);
      BitIsDigit(words[j] / 2, k);
      var p := Pow2(k);
    }
    if GroupAddress(anchor, words, e, a) && a != anchor {
      var j: nat, k: nat :| j < |words| && words[j] / 2 / Pow2(k) % 2 == 1 && a == anchor + e + j * ((8 * e - 1) * e) + k * e;
      BitIsDigit(words[j] / 2, k);
      assert SetAt(words[j] / 2, Nth(anchor + e, Span(e), j), e, a);
    }
  }

  /** Bits 0 and 1 of a bitmap: with 8-byte entries 0x1000, 1, 3 is 0x1000 and 0x1200, and 0x1000, 7 is three
      adjacent addresses. */
  lemma SmallTables()
    ensures Decode([0x1000, 1, 3], 8) == Decoded([0x1000, 0x1200], false)
    ensures Decode([0x1000, 7], 8) == Decoded([0x1000, 0x1008, 0x1010], false)
  {
    var s, t := [0x1000, 1, 3], [0x1000, 7];
    assert s[1..] == [1, 3] && [1, 3][1..] == [3] && [3][1..] == [] && t[1..] == [7] && [7][1..] == [];
    assert [] + [0x1000] == [0x1000] && Span(8) == 504;
    assert BitsFrom(0, 0x1008, 8, [0x1000]) == [0x1000];
    assert BitsFrom(1, 0x1200, 8, [0x1000]) == BitsFrom(0, 0x1208, 8, [0x1000] + [0x1200]) == [0x1000, 0x1200];
    assert BitsFrom(3, 0x1008, 8, [0x1000]) == BitsFrom(1, 0x1010, 8, [0x1000] + [0x1008])
        == BitsFrom(0, 0x1018, 8, [0x1000] + [0x1008] + [0x1010]) == [0x1000, 0x1008, 0x1010];
    assert From([3], Some(0x1200), 8, [0x1000]) == From([], Some(0x13F8), 8, [0x1000, 0x1200]) == Decoded([0x1000, 0x1200], false);
    assert From([1, 3], Some(0x1008), 8, [0x1000]) == From([3], Some(0x1200), 8, [0x1000]);
    assert From([7], Some(0x1008), 8, [0x1000]) == From([], Some(0x1200), 8, [0x1000, 0x1008, 0x1010]);
  }

  lemma {:induction false} FromConcat(words: seq<nat>, more: seq<nat>, base: Option<nat>, e: nat, acc: seq<nat>)
    requires e > 0 && more != [] && more[0] % 2 == 0 && !From(words, base, e, acc).failed
    ensures From(words + more, base, e, acc) == From(more, None, e, From(words, base, e, acc).out)
  {
    if words == [] {
      assert words + more == more;
    } else {
      assert (words + more)[1..] == words[1..] + more;
      var w := words[0];
      if w % 2 == 0 {
        FromConcat(words[1..], more, Some(w + e), e, acc + [w]);
      } else {
        FromConcat(words[1..], more, Some(base.value + Span(e)), e, BitsFrom(w / 2, base.value, e, acc));
      }
    }
  }

  /** The sequence decodes group by group: what a new anchor starts does not depend on what precedes. */
  lemma GroupByGroup(words: seq<nat>, more: seq<nat>, e: nat)
    requires e > 0 && more != [] && more[0] % 2 == 0 && !Decode(words, e).failed
    ensures Decode(words + more, e) == Decoded(Decode(words, e).out + Decode(more, e).out, Decode(more, e).failed)
  {
    FromConcat(words, more, None, e, []);
    FromAppend(more, None, e, Decode(words, e).out);
  }

  /** The decoder fails exactly when the first word is a bitmap. */
  lemma FailsIff(words: seq<nat>, e: nat)
    requires e > 0
    ensures Decode(words, e).failed <==> words != [] && words[0] % 2 == 1
  {
    if words != [] && words[0] % 2 == 0 { BasedNeverFails(words[1..], words[0] + e, e, [] + [words[0]]); }
  }

  lemma {:induction false} BasedNeverFails(words: seq<nat>, base: nat, e: nat, acc: seq<nat>)
    requires e > 0
    ensures !From(words, Some(base), e, acc).failed
  {
    if words != [] {
      if words[0] % 2 == 0 {
        BasedNeverFails(words[1..], words[0] + e, e, acc + [words[0]]);
      } else {
        BasedNeverFails(words[1..], base + Span(e), e, BitsFrom(words[0] / 2, base, e, acc));
      }
    }
  }

  /** An anchor and the bitmaps up to the next anchor. */
  datatype Group = Group(anchor: nat, bitmaps: seq<nat>)

  function LeadingBitmaps(words: seq<nat>): (n: nat)
    ensures n <= |words| && (forall j :: 0 <= j < n ==> words[j] % 2 == 1) && (n < |words| ==> words[n] % 2 == 0)
  {
    if words == [] || words[0] % 2 == 0 then 0 else 1 + LeadingBitmaps(words[1..])
  }

  function Groups(words: seq<nat>): seq<Group>
    requires words != [] ==> words[0] % 2 == 0
  {
    if words == [] then []
    else
      var n := LeadingBitmaps(words[1..]);
      [Group(words[0], words[1..n + 1])] + Groups(words[n + 1..])
  }

  function GroupWords(g: Group): seq<nat> { [g.anchor] + g.bitmaps }

  function AllWords(gs: seq<Group>): seq<nat> {
    if gs == [] then [] else GroupWords(gs[0]) + AllWords(gs[1..])
  }

  function AllAddresses(gs: seq<Group>, e: nat): seq<nat>
    requires e > 0
  {
    if gs == [] then [] else Decode(GroupWords(gs[0]), e).out + AllAddresses(gs[1..], e)
  }

  /** A group yields its anchor and one address for every set bit above bit 0 of its bitmaps, no other, strictly
      increasing. */
  ghost predicate GroupRight(g: Group, e: nat)
    requires e > 0
  {
    var out := Decode(GroupWords(g), e).out;
    StrictlySorted(out) && forall a :: a in out <==> a == g.anchor || SetInGroup(g.bitmaps, g.anchor + e, e, a)
  }

  lemma FirstGroup(words: seq<nat>, n: nat, g: Group, more: seq<nat>, e: nat)
    requires words != [] && n == LeadingBitmaps(words[1..]) && forall w :: w in words ==> w < Pow2(8 * e)
    requires g == Group(words[0], words[1..n + 1]) && more == words[n + 1..]
    ensures words == GroupWords(g) + more && Bitmaps(g.bitmaps, e)
    ensures (more != [] ==> more[0] % 2 == 0) && forall w :: w in more ==> w < Pow2(8 * e)
  {
    forall j | 0 <= j < n ensures g.bitmaps[j] % 2 == 1 && g.bitmaps[j] < Pow2(8 * e) {
      assert g.bitmaps[j] == words[1..][j] && words[j + 1] in words && g.bitmaps[j] == words[j + 1];
    }
    assert more != [] ==> more[0] == words[1..][n];
    assert words == [words[0]] + words[1..n + 1] + words[n + 1..];
    assert forall w :: w in more ==> w in words;
  }

  /** Every word sequence that starts with an anchor decodes without error to the addresses of its groups, one
      group after the other. */
  lemma {:induction false} SequenceMeaning(words: seq<nat>, e: nat)
    requires e > 0 && (words != [] ==> words[0] % 2 == 0) && forall w :: w in words ==> w < Pow2(8 * e)
    ensures AllWords(Groups(words)) == words
    ensures Decode(words, e) == Decoded(AllAddresses(Groups(words), e), false)
    ensures forall g :: g in Groups(words) ==> GroupRight(g, e)
    decreases |words|
  {
    if words != [] {
      var n := LeadingBitmaps(words[1..]);
      var g, more := Group(words[0], words[1..n + 1]), words[n + 1..];
      FirstGroup(words, n, g, more, e);
      GroupMeaning(g.anchor, g.bitmaps, e);
      SequenceMeaning(more, e);
      assert GroupRight(g, e) && Groups(words) == [g] + Groups(more);
      OneGroupMore(GroupWords(g), more, e);
    }
  }

  lemma OneGroupMore(words: seq<nat>, more: seq<nat>, e: nat)
    requires e > 0 && (more != [] ==> more[0] % 2 == 0) && !Decode(words, e).failed
    ensures Decode(words + more, e) == Decoded(Decode(words, e).out + Decode(more, e).out, Decode(more, e).failed)
  {
    if more == [] {
      assert words + more == words && Decode(words, e).out + [] == Decode(words, e).out;
    } else {
      GroupByGroup(words, more, e);
    }
  }

  // ----- a reference encoder -----

  datatype Taken = Taken(v: nat, rest: seq<nat>)

  /** Walk `n` addresses in steps of `e`, taking those that come next in the list. */
  function Take(addrs: seq<nat>, at: nat, e: nat, n: nat): Taken
    decreases n
  {
    if n == 0 || addrs == [] then Taken(0, addrs)
    else if addrs[0] == at then
      var t := Take(addrs[1..], at + e, e, n - 1);
      Taken(2 * t.v + 1, t.rest)
    else
      var t := Take(addrs, at + e, e, n - 1);
      Taken(2 * t.v, t.rest)
  }

  lemma TakeOne(addrs: seq<nat>, at: nat, e: nat, t: Taken)
    requires addrs != [] && addrs[0] == at && BitsFrom(t.v, at + e, e, []) + t.rest == addrs[1..]
    ensures BitsFrom(2 * t.v + 1, at, e, []) + t.rest == addrs
  {
    BitsAppend(t.v, at + e, e, [at]);
    assert [] + [at] == [at] && (2 * t.v + 1) / 2 == t.v;
    Associative([at], BitsFrom(t.v, at + e, e, []), t.rest);
    assert addrs == [at] + addrs[1..];
  }

  lemma {:induction false} TakeFacts(addrs: seq<nat>, at: nat, e: nat, n: nat)
    ensures var t := Take(addrs, at, e, n);
      && t.v < Pow2(n) && BitsFrom(t.v, at, e, []) + t.rest == addrs
      && (t.v == 0 ==> t.rest == addrs) && (t.v != 0 ==> |t.rest| < |addrs|)
      && (forall a :: a in t.rest ==> a in addrs)
    decreases n
  {
    if n > 0 && addrs != [] {
      if addrs[0] == at {
        TakeFacts(addrs[1..], at + e, e, n - 1);
        TakeOne(addrs, at, e, Take(addrs[1..], at + e, e, n - 1));
      } else {
        TakeFacts(addrs, at + e, e, n - 1);
      }
    }
  }

  /** As many addresses as possible go to the bitmap at the current base; one that does not fit becomes
      an anchor. */
  function Encode(addrs: seq<nat>, base: Option<nat>, e: nat): seq<nat>
    requires e > 0
    decreases |addrs|
  {
    if addrs == [] then []
    else
      var t := if base.Some? then Take(addrs, base.value, e, 8 * e - 1) else Taken(0, addrs);
      if t.v == 0 then [addrs[0]] + Encode(addrs[1..], Some(addrs[0] + e), e)
      else
        TakeFacts(addrs, base.value, e, 8 * e - 1);
        [2 * t.v + 1] + Encode(t.rest, Some(base.value + Span(e)), e)
  }

  ghost predicate EvenWords(addrs: seq<nat>, e: nat) {
    forall a :: a in addrs ==> a % 2 == 0 && a < Pow2(8 * e)
  }

  lemma EvenTail(addrs: seq<nat>, e: nat)
    requires addrs != [] && EvenWords(addrs, e)
    ensures addrs[0] % 2 == 0 && addrs[0] < Pow2(8 * e) && EvenWords(addrs[1..], e)
  {
    assert addrs[0] in addrs && forall a :: a in addrs[1..] ==> a in addrs;
  }

  lemma AnchorFirst(addrs: seq<nat>, words: seq<nat>, base: Option<nat>, e: nat)
    requires e > 0 && addrs != [] && addrs[0] % 2 == 0
    requires From(words, Some(addrs[0] + e), e, []) == Decoded(addrs[1..], false)
    ensures From([addrs[0]] + words, base, e, []) == Decoded(addrs, false)
  {
    var a := addrs[0];
    FromAppend(words, Some(a + e), e, [a]);
    assert ([a] + words)[1..] == words && [] + [a] == [a] && addrs == [a] + addrs[1..];
  }

  lemma BitmapFirst(addrs: seq<nat>, words: seq<nat>, base: nat, e: nat, t: Taken)
    requires e > 0 && BitsFrom(t.v, base, e, []) + t.rest == addrs
    requires From(words, Some(base + Span(e)), e, []) == Decoded(t.rest, false)
    ensures From([2 * t.v + 1] + words, Some(base), e, []) == Decoded(addrs, false)
  {
    FromAppend(words, Some(base + Span(e)), e, BitsFrom(t.v, base, e, []));
    assert ([2 * t.v + 1] + words)[1..] == words && (2 * t.v + 1) / 2 == t.v;
  }

  /** Decoding the encoding of a list of even addresses gives the list back; every word of the encoding
      fits an entry, and there are no more words than addresses. */
  lemma {:induction false} RoundTrip(addrs: seq<nat>, base: Option<nat>, e: nat)
    requires e > 0 && EvenWords(addrs, e)
    ensures var words := Encode(addrs, base, e);
      && From(words, base, e, []) == Decoded(addrs, false)
      && (forall w :: w in words ==> w < Pow2(8 * e)) && |words| <= |addrs|
    decreases |addrs|
  {
    if addrs != [] {
      var t := if base.Some? then Take(addrs, base.value, e, 8 * e - 1) else Taken(0, addrs);
      EvenTail(addrs, e);
      if t.v == 0 {
        RoundTrip(addrs[1..], Some(addrs[0] + e), e);
        AnchorFirst(addrs, Encode(addrs[1..], Some(addrs[0] + e), e), base, e);
      } else {
        TakeFacts(addrs, base.value, e, 8 * e - 1);
        assert Pow2(8 * e) == 2 * Pow2(8 * e - 1);
        var next := Some(base.value + Span(e));
        RoundTrip(t.rest, next, e);
        BitmapFirst(addrs, Encode(t.rest, next, e), base.value, e, t);
      }
    }
  }
}
