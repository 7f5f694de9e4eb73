/** The System V hash table: `elf_hash` on unbounded integers, and the chain walk. */
module SysvHash {
  import opened Common
  import opened Streams
  import opened Bitwise

  // ----- elf_hash -----

  /** The two numbers in `elf_hash`, and the width of the ABI's words. */
  datatype Form = Form(mask: nat, drop: nat, width: nat)

  const Sysv := Form(0xF000_0000, 0x100_0000, 32)

  ghost predicate Proper(f: Form) { f.mask < Pow2(f.width) && f.drop > 0 }

  /** What follows the shift and add of one round. */
  function Mix(f: Form, t: nat): nat
    requires f.drop > 0
  {
    var x := Bits(And, t, f.mask);
    Bits(AndNot, Bits(Xor, t, x / f.drop), x)
  }

  /** One round on 32-bit words and beyond: the four bits from bit 28 on are folded into bits 4 to 7, and cleared.
      What lies above bit 32 is left where it is. */
  lemma MixMeaning(t: nat, top: nat, hi: nat, lo: nat)
    requires hi < 16 && lo < 0x1000_0000 && t == (top * 16 + hi) * 0x1000_0000 + lo
    ensures Mix(Sysv, t) == top * 16 * 0x1000_0000 + Bits(Xor, lo, hi * 16)
  {
    Pow28();
    var h := top * 16 + hi;
    FourBits(top, hi);
    Parts(And, 28, t, h, lo, 0xF000_0000, 15, 0, hi);
    OthersWithZero(lo);
    var x := Bits(And, t, 0xF000_0000);
    assert x == hi * 0x1000_0000;
    assert x / 0x100_0000 == hi * 16;
    XorZero(h);
    Parts(Xor, 28, t, h, lo, hi * 16, 0, hi * 16, h);
    var y := Bits(Xor, lo, hi * 16);
    OthersWithZero(y);
    Parts(AndNot, 28, Bits(Xor, t, hi * 16), h, y, x, hi, 0, top * 16);
  }

  lemma Pow28()
    ensures Pow2(28) == 0x1000_0000 && Pow2(4) == 16
  {
    assert Pow2(4) == 16 && Pow2(8) == 0x100 && Pow2(12) == 0x1000 && Pow2(16) == 0x1_0000;
    assert Pow2(20) == 0x10_0000 && Pow2(24) == 0x100_0000;
  }

  lemma FourBits(top: nat, hi: nat)
    requires hi < 16
    ensures Bits(And, top * 16 + hi, 15) == hi && Bits(AndNot, top * 16 + hi, hi) == top * 16
  {
    Pow28();
    AndOnes(hi, 4);
    ClearedAll(hi);
    OthersWithZero(top);
    Parts(And, 4, top * 16 + hi, top, hi, 15, 0, 15, 0);
    Parts(AndNot, 4, top * 16 + hi, top, hi, hi, 0, hi, top);
  }

  lemma {:induction false} AndOnes(h: nat, k: nat)
    requires h < Pow2(k)
    ensures Bits(And, h, Pow2(k) - 1) == h
    decreases k
  {
    if k > 0 {
      var ones := Pow2(k) - 1;
      assert ones / 2 == Pow2(k - 1) - 1 && ones % 2 == 1;
      AndOnes(h / 2, k - 1);
      FirstBit(And, h, ones);
    }
  }

  lemma {:induction false} ClearedAll(h: nat)
    ensures Bits(AndNot, h, h) == 0
  {
    if h > 0 {
      ClearedAll(h / 2);
      FirstBit(AndNot, h, h);
    }
  }

  /** `elf_hash`, where nothing is cut to a width. */
  function Hash(f: Form, s: Name): nat
    requires f.drop > 0
  {
    if s == [] then 0 else Mix(f, Hash(f, s[..|s| - 1]) * 16 + s[|s| - 1])
  }

  /** The hash function of the ABI, on words of the form's width. */
  function WordHash(f: Form, s: Name): nat
    requires f.drop > 0
  {
    if s == [] then 0 else Mix(f, (WordHash(f, s[..|s| - 1]) * 16 + s[|s| - 1]) % Pow2(f.width))
  }

  lemma MixLow(f: Form, t: nat)
    requires Proper(f)
    ensures var w := Pow2(f.width); Mix(f, t) % w == Mix(f, t % w) < w
  {
    var w := Pow2(f.width);
    var x := Bits(And, t, f.mask);
    AndBounded(t, f.mask);
    DivModUnique(x, w, 0, x);
    DivModUnique(f.mask, w, 0, f.mask);
    LowBits(And, t, f.mask, f.width);
    var d := x / f.drop;
    QuotientBounded(x, f.drop);
    DivModUnique(d, w, 0, d);
    LowBits(Xor, t, d, f.width);
    LowBits(AndNot, Bits(Xor, t, d), x, f.width);
  }

  lemma QuotientBounded(a: nat, d: nat)
    requires d > 0
    ensures 0 <= a / d <= a
  {
    var q, r := a / d, a % d;
    assert a == q * d + r;
    if q < 0 { AtLeastOnce(-q, d); } else if q > 0 { AtLeastOnce(d, q); }
  }

  lemma RoundLow(h: nat, w: nat, c: nat)
    requires w > 0
    ensures (h * 16 + c) % w == (h % w * 16 + c) % w
  {
    var q, r := h / w, h % w;
    var n := r * 16 + c;
    assert h == q * w + r;
    assert h * 16 + c == (q * 16) * w + n;
    assert n == n / w * w + n % w;
    assert h * 16 + c == (q * 16 + n / w) * w + n % w;
    DivModUnique(h * 16 + c, w, q * 16 + n / w, n % w);
  }

  lemma RoundAgrees(f: Form, h: nat, g: nat, c: nat)
    requires Proper(f) && h % Pow2(f.width) == g
    ensures var w := Pow2(f.width); Mix(f, h * 16 + c) % w == Mix(f, (g * 16 + c) % w) < w
  {
    RoundLow(h, Pow2(f.width), c);
    MixLow(f, h * 16 + c);
  }

  /** On every name the unbounded hash agrees with the ABI's in the low bits. */
  lemma {:induction false} HashLow(f: Form, s: Name)
    requires Proper(f)
    ensures var w := Pow2(f.width); Hash(f, s) % w == WordHash(f, s) < w
    decreases |s|
  {
    if s == [] {
      DivModUnique(0, Pow2(f.width), 0, 0);
    } else {
      var before, c := s[..|s| - 1], s[|s| - 1];
      HashLow(f, before);
      RoundAgrees(f, Hash(f, before), WordHash(f, before), c);
    }
  }

  lemma HashPrefix(f: Form, name: Name, i: nat)
    requires f.drop > 0 && i < |name|
    ensures Hash(f, name[..i + 1]) == Mix(f, Hash(f, name[..i]) * 16 + name[i])
  {
    assert name[..i + 1][..i] == name[..i];
  }

  /** `elf_hash`, with the constants in `f`. */
  method ElfHash(f: Form, name: Name) returns (h: nat)
    requires Proper(f)
    ensures h == Hash(f, name) && h % Pow2(f.width) == WordHash(f, name)
  {
    h := 0;
    for i := 0 to |name|
      invariant h == Hash(f, name[..i])
    {
      HashPrefix(f, name, i);
      h := Round(f, h * 16 + name[i]);
    }
    assert name[..|name|] == name;
    HashLow(f, name);
  }

  /** The mixing of one round. */
  method Round(f: Form, t: nat) returns (h: nat)
    requires f.drop > 0
    ensures h == Mix(f, t)
  {
    h := t;
    var x := Bits(And, h, f.mask);
    XorZero(h);
    if x != 0 { h := Bits(Xor, h, x / f.drop); }
    h := Bits(AndNot, h, x);
  }

  // ----- the table -----

  /** `nbuckets` and `nchains` are the lengths. */
  datatype Table = Table(buckets: seq<nat>, chains: seq<nat>)

  /** `list` is the chain from symbol `s`: finite, so acyclic, and inside both tables. */
  ghost predicate ChainFrom(t: Table, count: nat, s: nat, list: seq<nat>)
    decreases |list|
  {
    if s == 0 then list == []
    else list != [] && list[0] == s && s < |t.chains| && s < count && ChainFrom(t, count, t.chains[s], list[1..])
  }

  /** The first symbol of the list that has the name. */
  ghost function FirstNamed(list: seq<nat>, names: seq<Name>, name: Name): Option<nat> {
    if list == [] then None
    else if list[0] < |names| && names[list[0]] == name then Some(list[0])
    else FirstNamed(list[1..], names, name)
  }

  /** A table built with the ABI's hash function: `lists[b]` is the chain of bucket `b`. */
  ghost predicate Built(f: Form, t: Table, names: seq<Name>, lists: seq<seq<nat>>)
    requires f.drop > 0
  {
    && |lists| == |t.buckets|
    && (forall b :: 0 <= b < |lists| ==> ChainFrom(t, |names|, t.buckets[b], lists[b]))
    && (forall b, i :: 0 <= b < |lists| && i in lists[b] ==> i < |names| && WordHash(f, names[i]) % |lists| == b)
  }

  ghost predicate Hashed(lists: seq<seq<nat>>, i: nat) {
    exists b :: 0 <= b < |lists| && i in lists[b]
  }

  /** What a scan of all hashed symbols would find. */
  ghost predicate Present(names: seq<Name>, lists: seq<seq<nat>>, name: Name) {
    exists i :: 0 <= i < |names| && names[i] == name && Hashed(lists, i)
  }

  /** The bucket that the lookup walks. */
  ghost function Bucket(f: Form, lists: seq<seq<nat>>, name: Name): seq<nat>
    requires f.drop > 0
  {
    if lists == [] then [] else lists[Hash(f, name) % |lists|]
  }

  /** `ELFHashTable.get_symbol`; the result is the symbol's index. */
  method GetSymbol(f: Form, t: Table, names: seq<Name>, name: Name, ghost lists: seq<seq<nat>>) returns (r: Option<nat>)
    requires Proper(f) && Built(f, t, names, lists)
    ensures r == FirstNamed(Bucket(f, lists, name), names, name)
    ensures r.Some? ==> r.value < |names| && names[r.value] == name && Hashed(lists, r.value)
    ensures Hash(f, name) < Pow2(f.width) ==> (r.Some? <==> Present(names, lists, name))
  {
    Lookup(f, t, names, lists, name);
    if |t.buckets| == 0 { return None; }
    var h := ElfHash(f, name);
    var s := t.buckets[h % |t.buckets|];
    ghost var list := Bucket(f, lists, name);
    while s != 0
      invariant ChainFrom(t, |names|, s, list)
      invariant FirstNamed(Bucket(f, lists, name), names, name) == FirstNamed(list, names, name)
      decreases |list|
    {
      if names[s] == name { return Some(s); }
      s := t.chains[s];
      list := list[1..];
    }
    return None;
  }

  lemma {:induction false} FirstNamedIff(list: seq<nat>, names: seq<Name>, name: Name)
    ensures var r := FirstNamed(list, names, name);
      && (r.Some? ==> r.value in list && r.value < |names| && names[r.value] == name)
      && (r.None? ==> forall i :: i in list && i < |names| ==> names[i] != name)
  {
    if list != [] { FirstNamedIff(list[1..], names, name); }
  }

  /** On every table built with the ABI's hash, a lookup finds only hashed symbols of that name; a name
      that is present is found if and only if both hash functions choose the same bucket, which they
      do for every name whose hash fits 32 bits, whatever the number of buckets. */
  lemma Lookup(f: Form, t: Table, names: seq<Name>, lists: seq<seq<nat>>, name: Name)
    requires Proper(f) && Built(f, t, names, lists)
    ensures var r := FirstNamed(Bucket(f, lists, name), names, name);
      && (r.Some? ==> r.value < |names| && names[r.value] == name && Hashed(lists, r.value) && Present(names, lists, name))
      && (Present(names, lists, name) ==> (r.Some? <==> Hash(f, name) % |lists| == WordHash(f, name) % |lists|))
      && (Hash(f, name) < Pow2(f.width) ==> (r.Some? <==> Present(names, lists, name)))
  {
    HashLow(f, name);
    var list := Bucket(f, lists, name);
    FirstNamedIff(list, names, name);
    if Present(names, lists, name) {
      var i :| 0 <= i < |names| && names[i] == name && Hashed(lists, i);
      var b :| 0 <= b < |lists| && i in lists[b];
      assert b == WordHash(f, name) % |lists|;
    }
    if Hash(f, name) < Pow2(f.width) { DivModUnique(Hash(f, name), Pow2(f.width), 0, Hash(f, name)); }
  }


  lemma SysvProper()
    ensures Proper(Sysv) && Pow2(4) == 16 && Pow2(28) == 0x1000_0000 && Pow2(32) == 0x1_0000_0000
  {
    assert Pow2(4) == 16;
    assert Pow2(8) == 256;
    assert Pow2(16) == 0x1_0000;
    assert Pow2(24) == 0x100_0000;
  }

  /** The top four bits of a 32-bit word. */
  lemma TopBits(t: nat, hi: nat, lo: nat)
    requires CutAt(t, 28, hi, lo)
    ensures Bits(And, t, 0xF000_0000) == Bits(And, hi, 15) * 0x1000_0000
  {
    SysvProper();
    var r := Bits(And, hi, 15);
    Parts(And, 28, t, hi, lo, 0xF000_0000, 15, 0, r);
    OthersWithZero(lo);
  }

  lemma MixUntouched(t: nat, hi: nat, lo: nat)
    requires CutAt(t, 28, hi, lo) && Bits(And, hi, 15) == 0
    ensures Mix(Sysv, t) == t
  {
    TopBits(t, hi, lo);
    XorZero(t);
    OthersWithZero(t);
  }

  function Fs(k: nat): Name {
    if k == 0 then [] else Fs(k - 1) + [15]
  }

  ghost predicate Keeps(f: Form, t: nat)
    requires f.drop > 0
  {
    Mix(f, t) == t
  }

  lemma OneMore(f: Form, before: Name, c: byte, name: Name, t: nat)
    requires f.drop > 0 && name == before + [c] && Hash(f, before) * 16 + c == t && Keeps(f, t)
    ensures Hash(f, name) == t
  {
    assert name[..|before|] == before;
  }

  function Pow16(k: nat): (p: nat)
    ensures p > 0
  {
    if k == 0 then 1 else 16 * Pow16(k - 1)
  }

  lemma {:induction false} HashOfFs(f: Form, k: nat, name: Name)
    requires name == Fs(k) && f.drop > 0 && forall t: nat {:trigger Keeps(f, t)} :: t < Pow16(k) ==> Keeps(f, t)
    ensures Hash(f, name) + 1 == Pow16(k)
  {
    if k > 0 {
      var before := Fs(k - 1);
      HashOfFs(f, k - 1, before);
      var t := Pow16(k) - 1;
      assert Keeps(f, t);
      OneMore(f, before, 15, name, t);
    }
  }

  lemma TooWide(f: Form, k: nat, name: Name, t: nat)
    requires Proper(f) && name == Fs(k) && t == 16 * Pow16(k) && Keeps(f, t)
    requires forall u: nat {:trigger Keeps(f, u)} :: u < Pow16(k) ==> Keeps(f, u)
    ensures Hash(f, name + [16]) == t
  {
    HashOfFs(f, k, name);
    OneMore(f, name, 16, name + [16], t);
  }

  lemma Sixteens(k: nat)
    requires k == 7
    ensures Pow16(k) == 0x1000_0000
  {
    assert Pow16(2) == 0x100;
    assert Pow16(4) == 0x1_0000;
    assert Pow16(6) == 0x100_0000;
  }

  lemma CarriedAway(f: Form, name: Name)
    requires Proper(f) && Hash(f, name) == Pow2(f.width)
    ensures WordHash(f, name) == 0
  {
    HashLow(f, name);
    DivModUnique(Pow2(f.width), Pow2(f.width), 1, 0);
  }

  lemma SmallKeeps(u: nat)
    requires u < 0x1000_0000
    ensures Keeps(Sysv, u)
  {
    SysvProper();
    OthersWithZero(15);
    AndZero(15);
    MixUntouched(u, 0, u);
  }

  lemma CarryKeeps(t: nat)
    requires t == 0x1_0000_0000
    ensures Keeps(Sysv, t)
  {
    SysvProper();
    assert Bits(And, 1, 0) == 0;
    Parts(And, 4, 16, 1, 0, 15, 0, 15, 0);
    AndZero(15);
    MixUntouched(t, 16, 0);
  }

  /** Names whose hash does not fit exist: seven bytes 0x0F and a 0x10 have a hash of 2^32, where the
      ABI's is 0. */
  lemma HashTooWide(k: nat, name: Name, t: nat)
    requires k == 7 && name == Fs(k) + [16] && t == 0x1_0000_0000
    ensures Hash(Sysv, name) == t && WordHash(Sysv, name) == 0
  {
    SysvProper();
    Sixteens(k);
    CarryKeeps(t);
    forall u: nat | u < Pow16(k) ensures Keeps(Sysv, u) { SmallKeeps(u); }
    TooWide(Sysv, k, Fs(k), t);
    CarriedAway(Sysv, name);
  }

  /** A correctly built table with three buckets that holds such a name, which the lookup does not find: it
      goes to bucket 1, and the ABI's hash put the name into bucket 0. */
  lemma MissesWideName(k: nat, name: Name, h: nat)
    requires k == 7 && name == Fs(k) + [16] && h == 0x1_0000_0000
    ensures var t, names, lists := Table([1, 0, 0], [0, 0]), [[], name], [[1], [], []];
      && Proper(Sysv) && Built(Sysv, t, names, lists) && Present(names, lists, name)
      && FirstNamed(Bucket(Sysv, lists, name), names, name) == None
  {
    SysvProper();
    HashTooWide(k, name, h);
    WideNameMissed(Sysv, name, h);
  }

  lemma WideNameMissed(f: Form, name: Name, h: nat)
    requires f.drop > 0 && Hash(f, name) == h && h % 3 == 1 && WordHash(f, name) == 0
    ensures var t, names, lists := Table([1, 0, 0], [0, 0]), [[], name], [[1], [], []];
      && Built(f, t, names, lists) && Present(names, lists, name)
      && FirstNamed(Bucket(f, lists, name), names, name) == None
  {
    var names: seq<Name> := [[], name];
    var first: seq<nat>, none: seq<nat> := [1], [];
    var lists := [first, none, none];
    OneOrNone(f, name, names, lists, first, none);
    assert 1 in lists[0] && Hashed(lists, 1) && names[1] == name;
  }

  lemma OneOrNone(f: Form, name: Name, names: seq<Name>, lists: seq<seq<nat>>, first: seq<nat>, none: seq<nat>)
    requires f.drop > 0 && WordHash(f, name) == 0 && names == [[], name] && first == [1] && none == [] && lists == [first, none, none]
    ensures Built(f, Table([1, 0, 0], [0, 0]), names, lists)
  {
    var t := Table([1, 0, 0], [0, 0]);
    assert first[1..] == none;
    assert ChainFrom(t, 2, 1, first) && ChainFrom(t, 2, 0, none);
    assert lists[0] == first && lists[1] == none && lists[2] == none;
  }
}
