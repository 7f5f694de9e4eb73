/** Walking the version definitions of a library: the pointer walk of `get_libstdcxx_version` in C and
    the generators of `GNUVersionSection` in Python, each with its running maximum. */
module VersionReaders {
  import opened Common
  import opened Versions

  const PREFIX: string := "GLIBCXX_"

  /** sizeof(ElfW(Verdaux)), the unit in which the C walk advances `verdaux`. */
  const VERDAUX_SIZE: nat := 8

  datatype Verdef = Verdef(cnt: nat, aux: nat, next: nat)

  /** An auxiliary entry with its name already looked up in the string table. */
  datatype Verdaux = Verdaux(name: string, next: nat)

  /** .gnu.version_d: its size, sh_info, and the entries found at each offset into it. */
  datatype Section = Section(size: nat, info: nat, verdef: nat -> Verdef, verdaux: nat -> Verdaux)

  // ----- names met by the two walks -----

  /** The names of `n` auxiliaries from offset `a`, when `next` counts in steps of `unit` bytes. */
  function AuxNames(sec: Section, a: nat, n: nat, unit: nat): seq<string>
    decreases n
  {
    if n == 0 then [] else [sec.verdaux(a).name] + AuxNames(sec, a + unit * sec.verdaux(a).next, n - 1, unit)
  }

  function CAux(sec: Section, a: nat, n: nat): seq<string> { AuxNames(sec, a, n, VERDAUX_SIZE) }

  function CNames(sec: Section, off: nat): seq<string>
    decreases sec.size - off
  {
    if sec.size <= off then []
    else
      var d := sec.verdef(off);
      CAux(sec, off + d.aux, d.cnt) + if d.next == 0 then [] else CNames(sec, off + d.next)
  }

  function PyAux(sec: Section, a: nat, n: nat): seq<string> { AuxNames(sec, a, n, 1) }

  /** None when an entry without auxiliaries trips the assertion. */
  function PyNames(sec: Section, off: nat, n: nat): Option<seq<string>>
    decreases n
  {
    if n == 0 then Some([])
    else
      var d := sec.verdef(off);
      if d.cnt == 0 then None
      else match PyNames(sec, off + d.next, n - 1)
        case None => None
        case Some(rest) => Some(PyAux(sec, off + d.aux, d.cnt) + rest)
  }

  /** Offsets visited among the auxiliaries of one definition. */
  function Visits(sec: Section, a: nat, n: nat, unit: nat): (r: seq<nat>)
    ensures |r| == n && (n > 0 ==> r[0] == a)
    decreases n
  {
    if n == 0 then [] else [a] + Visits(sec, a + unit * sec.verdaux(a).next, n - 1, unit)
  }

  function NamesAt(sec: Section, offs: seq<nat>): seq<string> {
    if offs == [] then [] else [sec.verdaux(offs[0]).name] + NamesAt(sec, offs[1..])
  }

  /** The names that a walk meets are those at the offsets it visits. */
  lemma {:induction false} NamesOfVisits(sec: Section, a: nat, n: nat, unit: nat)
    ensures AuxNames(sec, a, n, unit) == NamesAt(sec, Visits(sec, a, n, unit))
    decreases n
  {
    if n > 0 {
      var later := a + unit * sec.verdaux(a).next;
      NamesOfVisits(sec, later, n - 1, unit);
      assert Visits(sec, a, n, unit)[1..] == Visits(sec, later, n - 1, unit);
    }
  }

  /** Every step before the last stays where it is. */
  ghost predicate StepsAreZero(sec: Section, a: nat, n: nat) {
    forall i :: 0 <= i < n - 1 ==> sec.verdaux(Visits(sec, a, n, 1)[i]).next == 0
  }

  /** With several auxiliaries the C walk, which steps in units of an entry, visits the same entries
      as the byte-stepping Python walk exactly when every step before the last is zero. */
  lemma {:induction false} AuxWalksAgreeIff(sec: Section, a: nat, n: nat)
    ensures Visits(sec, a, n, VERDAUX_SIZE) == Visits(sec, a, n, 1) <==> StepsAreZero(sec, a, n)
    decreases n
  {
    if n > 1 {
      var k := sec.verdaux(a).next;
      if k == 0 { AuxWalksAgreeIff(sec, a, n - 1); }
      OneStep(sec, a, n, k, a + VERDAUX_SIZE * k, a + k);
    }
  }

  /** After the first step the walks agree if it is zero and they agree from there. */
  lemma OneStep(sec: Section, a: nat, n: nat, k: nat, far: nat, near: nat)
    requires n > 1 && k == sec.verdaux(a).next && far == a + VERDAUX_SIZE * k && near == a + k
    requires k == 0 ==> (Visits(sec, a, n - 1, VERDAUX_SIZE) == Visits(sec, a, n - 1, 1) <==> StepsAreZero(sec, a, n - 1))
    ensures Visits(sec, a, n, VERDAUX_SIZE) == Visits(sec, a, n, 1) <==> StepsAreZero(sec, a, n)
  {
    var c, p := Visits(sec, a, n, VERDAUX_SIZE), Visits(sec, a, n, 1);
    var c', p' := Visits(sec, far, n - 1, VERDAUX_SIZE), Visits(sec, near, n - 1, 1);
    assert c == [a] + c' && p == [a] + p';
    assert c[1] == c'[0] == far && p[1] == p'[0] == near;
    assert p[0] == a;
    if k == 0 {
      assert forall i :: 0 <= i < n - 2 ==> p'[i] == p[i + 1];
      assert forall i :: 1 <= i < n - 1 ==> p[i] == p'[i - 1];
      assert c == p <==> c' == p' by { assert c[1..] == c' && p[1..] == p'; }
    }
  }

  /** `n` linked definitions from `off`, the last one ending the chain, each with at least one auxiliary and
      no step between its auxiliaries; a single auxiliary has none. */
  ghost predicate Chain(sec: Section, off: nat, n: nat)
    decreases n
  {
    && n > 0 && off < sec.size && sec.verdef(off).cnt > 0
    && StepsAreZero(sec, off + sec.verdef(off).aux, sec.verdef(off).cnt)
    && (n == 1 <==> sec.verdef(off).next == 0)
    && (n > 1 ==> Chain(sec, off + sec.verdef(off).next, n - 1))
  }

  lemma {:induction false} WalksAgree(sec: Section, off: nat, n: nat)
    requires Chain(sec, off, n)
    ensures PyNames(sec, off, n) == Some(CNames(sec, off))
    decreases n
  {
    var d := sec.verdef(off);
    var a := off + d.aux;
    NamesOfVisits(sec, a, d.cnt, VERDAUX_SIZE);
    NamesOfVisits(sec, a, d.cnt, 1);
    AuxWalksAgreeIff(sec, a, d.cnt);
    if n > 1 {
      WalksAgree(sec, off + d.next, n - 1);
    } else {
      assert PyNames(sec, off + d.next, 0) == Some([]);
    }
  }

  // ----- where the names are -----

  /** Where definition `i` is: each is `vd_next` bytes behind the one before. */
  function DefAt(sec: Section, off: nat, i: nat): nat {
    if i == 0 then off else DefAt(sec, off, i - 1) + sec.verdef(DefAt(sec, off, i - 1)).next
  }

  /** Where auxiliary `k` is. */
  function AuxAt(sec: Section, a: nat, k: nat, unit: nat): nat {
    if k == 0 then a else AuxAt(sec, a, k - 1, unit) + unit * sec.verdaux(AuxAt(sec, a, k - 1, unit)).next
  }

  /** The names of the definition at `o`, whose auxiliaries start `vd_aux` bytes behind it. */
  function DefNames(sec: Section, o: nat, unit: nat): seq<string> {
    seq(sec.verdef(o).cnt, k requires 0 <= k => sec.verdaux(AuxAt(sec, o + sec.verdef(o).aux, k, unit)).name)
  }

  /** The names of the first `n` definitions. */
  function AllNames(sec: Section, off: nat, n: nat, unit: nat): seq<string> {
    if n == 0 then [] else AllNames(sec, off, n - 1, unit) + DefNames(sec, DefAt(sec, off, n - 1), unit)
  }

  lemma {:induction false} AuxAtLater(sec: Section, a: nat, k: nat, unit: nat)
    ensures AuxAt(sec, a, k + 1, unit) == AuxAt(sec, a + unit * sec.verdaux(a).next, k, unit)
    decreases k
  {
    if k > 0 { AuxAtLater(sec, a, k - 1, unit); } else { assert AuxAt(sec, a, 0, unit) == a; }
  }

  lemma {:induction false} AuxNamesAt(sec: Section, a: nat, n: nat, unit: nat, k: nat)
    requires k < n
    ensures |AuxNames(sec, a, n, unit)| == n && AuxNames(sec, a, n, unit)[k] == sec.verdaux(AuxAt(sec, a, k, unit)).name
    decreases n
  {
    var later := a + unit * sec.verdaux(a).next;
    if n > 1 { AuxNamesAt(sec, later, n - 1, unit, if k > 0 then k - 1 else 0); }
    if k > 0 { AuxAtLater(sec, a, k - 1, unit); }
  }

  lemma NamesOfDefinition(sec: Section, o: nat, a: nat, n: nat, unit: nat)
    requires a == o + sec.verdef(o).aux && n == sec.verdef(o).cnt
    ensures AuxNames(sec, a, n, unit) == DefNames(sec, o, unit)
  {
    if n > 0 { AuxNamesAt(sec, a, n, unit, 0); }
    forall k | 0 <= k < n ensures AuxNames(sec, a, n, unit)[k] == DefNames(sec, o, unit)[k] { AuxNamesAt(sec, a, n, unit, k); }
  }

  lemma {:induction false} DefAtLater(sec: Section, off: nat, i: nat, next: nat)
    requires i > 0 && next == off + sec.verdef(off).next
    ensures DefAt(sec, off, i) == DefAt(sec, next, i - 1)
    decreases i
  {
    if i > 1 { DefAtLater(sec, off, i - 1, next); } else { assert DefAt(sec, off, 0) == off && DefAt(sec, next, 0) == next; }
  }

  lemma {:induction false} AllNamesLater(sec: Section, off: nat, n: nat, unit: nat, next: nat)
    requires n > 0 && next == off + sec.verdef(off).next
    ensures AllNames(sec, off, n, unit) == DefNames(sec, off, unit) + AllNames(sec, next, n - 1, unit)
    decreases n
  {
    var m := n - 1;
    if m == 0 {
      assert AllNames(sec, off, 0, unit) == [] && DefAt(sec, off, 0) == off;
    } else {
      AllNamesLater(sec, off, m, unit, next);
      DefAtLater(sec, off, m, next);
      Reassociate(DefNames(sec, off, unit), AllNames(sec, next, m - 1, unit), DefNames(sec, DefAt(sec, off, m), unit));
    }
  }

  lemma Reassociate(a: seq<string>, b: seq<string>, c: seq<string>)
    ensures a + b + c == a + (b + c)
  {
  }

  /** The Python reader meets the names of `n` definitions in order, unless one of them has no auxiliary. */
  lemma {:induction false} PyNamesAre(sec: Section, off: nat, n: nat)
    ensures PyNames(sec, off, n) == if AllCounted(sec, off, n) then Some(AllNames(sec, off, n, 1)) else None
    decreases n
  {
    if n > 0 {
      var d := sec.verdef(off);
      var next := off + d.next;
      NamesOfDefinition(sec, off, off + d.aux, d.cnt, 1);
      PyNamesAre(sec, next, n - 1);
      AllNamesLater(sec, off, n, 1, next);
      AllCountedLater(sec, off, n, next);
    }
  }

  ghost predicate AllCounted(sec: Section, off: nat, n: nat) {
    forall i: nat :: i < n ==> sec.verdef(DefAt(sec, off, i)).cnt > 0
  }

  lemma AllCountedLater(sec: Section, off: nat, n: nat, next: nat)
    requires n > 0 && next == off + sec.verdef(off).next
    ensures AllCounted(sec, off, n) <==> sec.verdef(off).cnt > 0 && AllCounted(sec, next, n - 1)
  {
    assert DefAt(sec, off, 0) == off;
    if AllCounted(sec, off, n) {
      forall i: nat | i < n - 1 ensures sec.verdef(DefAt(sec, next, i)).cnt > 0 { DefAtLater(sec, off, i + 1, next); }
    }
    if sec.verdef(off).cnt > 0 && AllCounted(sec, next, n - 1) {
      forall i: nat | i < n ensures sec.verdef(DefAt(sec, off, i)).cnt > 0 {
        if i > 0 { DefAtLater(sec, off, i, next); }
      }
    }
  }

  ghost predicate OnTheWay(sec: Section, off: nat, i: nat, ends: bool) {
    DefAt(sec, off, i) < sec.size && (sec.verdef(DefAt(sec, off, i)).next == 0 <==> ends)
  }

  /** Definitions `0` to `last` lie in the section, and `last` is the first that ends the list. */
  ghost predicate EndsAt(sec: Section, off: nat, last: nat) {
    OnTheWay(sec, off, last, true) && forall i: nat :: i < last ==> OnTheWay(sec, off, i, false)
  }

  lemma EndsLater(sec: Section, off: nat, last: nat, next: nat)
    requires last > 0 && EndsAt(sec, off, last) && next == off + sec.verdef(off).next
    ensures EndsAt(sec, next, last - 1)
  {
    DefAtLater(sec, off, last, next);
    forall i: nat | i < last - 1 ensures OnTheWay(sec, next, i, false) {
      var k := i + 1;
      DefAtLater(sec, off, k, next);
      assert OnTheWay(sec, off, k, false);
    }
  }

  lemma FirstOfList(sec: Section, off: nat, last: nat)
    requires EndsAt(sec, off, last)
    ensures off < sec.size && (sec.verdef(off).next == 0 <==> last == 0)
  {
    assert OnTheWay(sec, off, 0, last == 0) && DefAt(sec, off, 0) == off;
  }

  /** The C reader meets the names of the definitions up to the one that ends the list, in order; among the
      auxiliaries of one definition it steps in units of an entry. */
  lemma {:induction false} CNamesAre(sec: Section, off: nat, last: nat, n: nat)
    requires EndsAt(sec, off, last) && n == last + 1
    ensures CNames(sec, off) == AllNames(sec, off, n, 8)
    decreases last
  {
    var d := sec.verdef(off);
    var next := off + d.next;
    FirstOfList(sec, off, last);
    NamesOfDefinition(sec, off, off + d.aux, d.cnt, 8);
    AllNamesLater(sec, off, n, 8, next);
    if last > 0 {
      EndsLater(sec, off, last, next);
      CNamesAre(sec, next, last - 1, n - 1);
    } else {
      assert AllNames(sec, next, 0, 8) == [];
    }
  }

  // ----- running maxima -----

  predicate Prefixed(name: string) { PREFIX <= name }

  /** `"GLIBCXX_" in version_name` */
  predicate Occurs(name: string) {
    exists i :: 0 <= i <= |name| && PREFIX <= name[i..]
  }

  lemma BeginsWith(p: string, name: string)
    ensures p <= name <==> exists rest :: name == p + rest
  {
    if p <= name { assert name == p + name[|p|..]; }
  }

  lemma CutOut(p: string, name: string, i: nat)
    requires i <= |name| && p <= name[i..]
    ensures name == name[..i] + p + name[i..][|p|..]
  {
  }

  lemma BeginsBehind(p: string, name: string, before: string, rest: string)
    requires name == before + p + rest
    ensures p <= name[|before|..]
  {
    assert name[|before|..] == p + rest;
  }

  /** Which names the C reader and the Python reader look at. */
  lemma NamesLookedAt(name: string)
    ensures Prefixed(name) <==> exists rest :: name == "GLIBCXX_" + rest
    ensures Occurs(name) <==> exists before, rest :: name == before + "GLIBCXX_" + rest
  {
    BeginsWith("GLIBCXX_", name);
    if Occurs(name) {
      var i :| 0 <= i <= |name| && PREFIX <= name[i..];
      CutOut(PREFIX, name, i);
    }
    if before, rest :| name == before + "GLIBCXX_" + rest { BeginsBehind(PREFIX, name, before, rest); }
  }

  /** The number that the C reader makes of a name. */
  function PackedOf(name: string): nat { PackedVersion(name[Min(|name|, |PREFIX|)..]) }

  /** The tuple that the Python reader makes of a name. */
  function VersionOf(name: string): Version { ParseVersion(name[Min(|name|, |PREFIX|)..]) }

  function Min(a: nat, b: nat): nat { if a < b then a else b }

  /** GLIBCXX_A.B.C stands for the version A.B.C. */
  lemma NamedVersion(name: string, a: nat, b: nat, c: nat)
    requires name == "GLIBCXX_" + (Dec(a) + "." + Dec(b) + "." + Dec(c))
    ensures Prefixed(name) && Occurs(name) && VersionOf(name) == Version(a, b, c)
    ensures PackedOf(name) == Byte(a % 0x1_0000_0000) * 65536 + Byte(b % 0x1_0000_0000) * 256 + Byte(c % 0x1_0000_0000)
  {
    assert name[|PREFIX|..] == Dec(a) + "." + Dec(b) + "." + Dec(c);
    PrefixedOccurs(name);
    ParsePrinted(a, b, c);
    PackPrinted(a, b, c);
  }

  function LargerPacked(best: Option<nat>, v: nat): Option<nat> {
    if best.None? || best.value < v then Some(v) else best
  }

  function LargerVersion(best: Version, v: Version): Version {
    if Less(best, v) then v else best
  }

  function CTake(best: Option<nat>, name: string): Option<nat> {
    if !Prefixed(name) then best else LargerPacked(best, PackedOf(name))
  }

  function PyTake(best: Version, name: string): Version {
    if !Occurs(name) then best else LargerVersion(best, VersionOf(name))
  }

  function Fold<T>(take: (T, string) -> T, best: T, names: seq<string>): T
    decreases |names|
  {
    if names == [] then best else Fold(take, take(best, names[0]), names[1..])
  }

  lemma {:induction false} FoldConcat<T>(take: (T, string) -> T, best: T, a: seq<string>, b: seq<string>)
    ensures Fold(take, best, a + b) == Fold(take, Fold(take, best, a), b)
    decreases |a|
  {
    if a == [] {
      assert a + b == b;
    } else {
      assert (a + b)[0] == a[0] && (a + b)[1..] == a[1..] + b;
      FoldConcat(take, take(best, a[0]), a[1..], b);
    }
  }

  /** The C result over these names: the largest packed version, or an error if there is none. */
  function CMax(names: seq<string>): Option<nat> { Fold(CTake, None, names) }

  /** The Python result over these names. */
  function PyMax(names: seq<string>): Version { Fold(PyTake, Version(0, 0, 0), names) }

  /** GLIBCXX_ occurs only as a prefix, and what follows can be compared. */
  ghost predicate Ordinary(name: string) {
    Occurs(name) ==> Prefixed(name) && Comparable(name[|PREFIX|..])
  }

  lemma LargerAgree(c: Option<nat>, p: Version, v: Version, k: nat)
    requires Fits(p) && Fits(v) && k == Pack(v) && if c.None? then p == Version(0, 0, 0) else c == Some(Pack(p))
    ensures Fits(LargerVersion(p, v)) && LargerPacked(c, k) == Some(Pack(LargerVersion(p, v)))
  {
    PackedOrder(p, v);
    PackedOrder(v, p);
  }

  lemma TakePrefixed(c: Option<nat>, p: Version, name: string)
    requires Prefixed(name) && Occurs(name) && Comparable(name[|PREFIX|..]) && Fits(p)
    requires if c.None? then p == Version(0, 0, 0) else c == Some(Pack(p))
    ensures Fits(PyTake(p, name)) && CTake(c, name) == Some(Pack(PyTake(p, name)))
  {
    var t := name[|PREFIX|..];
    ParsersAgree(t);
    LargerAgree(c, p, VersionOf(name), PackedOf(name));
  }

  lemma PrefixedOccurs(name: string)
    requires Prefixed(name)
    ensures Occurs(name)
  {
    assert PREFIX <= name[0..];
  }

  lemma TakesAgree(c: Option<nat>, p: Version, name: string)
    requires Ordinary(name) && Fits(p)
    requires if c.None? then p == Version(0, 0, 0) else c == Some(Pack(p))
    ensures var c', p' := CTake(c, name), PyTake(p, name);
      Fits(p') && if Prefixed(name) then c' == Some(Pack(p')) else c' == c && p' == p
  {
    if Prefixed(name) {
      PrefixedOccurs(name);
      TakePrefixed(c, p, name);
    }
  }

  predicate AnyPrefixed(names: seq<string>) {
    exists i :: 0 <= i < |names| && Prefixed(names[i])
  }

  lemma AnyPrefixedStep(names: seq<string>)
    requires names != []
    ensures AnyPrefixed(names) <==> Prefixed(names[0]) || AnyPrefixed(names[1..])
  {
    var rest := names[1..];
    if AnyPrefixed(names) {
      var i :| 0 <= i < |names| && Prefixed(names[i]);
      if i > 0 { assert Prefixed(rest[i - 1]); }
    }
    if AnyPrefixed(rest) {
      var i :| 0 <= i < |rest| && Prefixed(rest[i]);
      assert Prefixed(names[i + 1]);
    }
  }

  ghost predicate AllOrdinary(names: seq<string>) {
    forall i :: 0 <= i < |names| ==> Ordinary(names[i])
  }

  lemma {:induction false} FoldsAgree(c: Option<nat>, p: Version, names: seq<string>)
    requires AllOrdinary(names) && Fits(p)
    requires if c.None? then p == Version(0, 0, 0) else c == Some(Pack(p))
    ensures var c', p' := Fold(CTake, c, names), Fold(PyTake, p, names);
      && Fits(p') && (if c'.None? then p' == Version(0, 0, 0) else c' == Some(Pack(p')))
      && (c'.Some? <==> c.Some? || AnyPrefixed(names))
    decreases |names|
  {
    if names != [] {
      var name, rest := names[0], names[1..];
      TakesAgree(c, p, name);
      assert forall i :: 0 <= i < |rest| ==> rest[i] == names[i + 1];
      FoldsAgree(CTake(c, name), PyTake(p, name), rest);
      AnyPrefixedStep(names);
    }
  }

  /** Over ordinary names, at least one of them prefixed, the C maximum is the packing of the Python
      maximum; over names without any, C reports an error and Python the version 0.0.0. */
  lemma MaximaAgree(names: seq<string>)
    requires AllOrdinary(names)
    ensures if AnyPrefixed(names) then CMax(names) == Some(Pack(PyMax(names))) else CMax(names) == None && PyMax(names) == Version(0, 0, 0)
  {
    FoldsAgree(None, Version(0, 0, 0), names);
  }

  // ----- the folds are maxima -----

  lemma LessIsOrder(a: Version, b: Version, c: Version)
    ensures !Less(a, a) && (!Less(b, a) && !Less(c, b) ==> !Less(c, a)) && (Less(a, b) ==> !Less(b, a))
  {
  }

  lemma {:induction false} CFoldIsMaximum(best: Option<nat>, names: seq<string>)
    ensures var r := Fold(CTake, best, names);
      && (r.None? <==> best.None? && !AnyPrefixed(names))
      && (best.Some? ==> best.value <= r.value)
      && (forall i :: 0 <= i < |names| && Prefixed(names[i]) ==> PackedOf(names[i]) <= r.value)
      && (r == best || exists i :: 0 <= i < |names| && Prefixed(names[i]) && r == Some(PackedOf(names[i])))
    decreases |names|
  {
    if names != [] {
      var name, rest := names[0], names[1..];
      var next, r := CTake(best, name), Fold(CTake, best, names);
      CFoldIsMaximum(next, rest);
      AnyPrefixedStep(names);
      forall i | 0 <= i < |names| && Prefixed(names[i]) ensures PackedOf(names[i]) <= r.value {
        if i > 0 { assert rest[i - 1] == names[i]; }
      }
      if r != best {
        if r == next { assert r == Some(PackedOf(names[0])); } else {
          var i :| 0 <= i < |rest| && Prefixed(rest[i]) && r == Some(PackedOf(rest[i]));
          assert names[i + 1] == rest[i];
        }
      }
    }
  }

  /** What the C reader computes is the largest of the packed versions of the prefixed names: an upper bound
      that one of them attains; there is none exactly when no name is prefixed. */
  lemma CMaxIsMaximum(names: seq<string>)
    ensures CMax(names).None? <==> !AnyPrefixed(names)
    ensures CMax(names).Some? ==>
      && (forall i :: 0 <= i < |names| && Prefixed(names[i]) ==> PackedOf(names[i]) <= CMax(names).value)
      && exists i :: 0 <= i < |names| && Prefixed(names[i]) && CMax(names).value == PackedOf(names[i])
  {
    CFoldIsMaximum(None, names);
  }

  lemma {:induction false} PyFoldIsMaximum(best: Version, names: seq<string>)
    ensures var r := Fold(PyTake, best, names);
      && !Less(r, best)
      && (forall i :: 0 <= i < |names| && Occurs(names[i]) ==> !Less(r, VersionOf(names[i])))
      && (r == best || exists i :: 0 <= i < |names| && Occurs(names[i]) && r == VersionOf(names[i]))
    decreases |names|
  {
    LessIsOrder(best, best, best);
    if names != [] {
      var name, rest := names[0], names[1..];
      var next, r := PyTake(best, name), Fold(PyTake, best, names);
      PyFoldIsMaximum(next, rest);
      LessIsOrder(best, next, r);
      LessIsOrder(VersionOf(name), next, r);
      LessIsOrder(best, VersionOf(name), next);
      LessIsOrder(VersionOf(name), best, next);
      forall i | 0 <= i < |names| && Occurs(names[i]) ensures !Less(r, VersionOf(names[i])) {
        if i > 0 { assert rest[i - 1] == names[i]; }
      }
      if r != best {
        if r == next { assert r == VersionOf(names[0]); } else {
          var i :| 0 <= i < |rest| && Occurs(rest[i]) && r == VersionOf(rest[i]);
          assert names[i + 1] == rest[i];
        }
      }
    }
  }

  /** What the Python reader computes is the largest of the tuples of the names in which GLIBCXX_ occurs, or
      0.0.0 where there is none or none is larger. */
  lemma PyMaxIsMaximum(names: seq<string>)
    ensures forall i :: 0 <= i < |names| && Occurs(names[i]) ==> !Less(PyMax(names), VersionOf(names[i]))
    ensures PyMax(names) == Version(0, 0, 0) || exists i :: 0 <= i < |names| && Occurs(names[i]) && PyMax(names) == VersionOf(names[i])
  {
    PyFoldIsMaximum(Version(0, 0, 0), names);
  }

  // ----- the readers themselves -----

  predicate Packed(r: Option<nat>) { r.Some? ==> r.value <= 0x00FFFFFF }

  /** One auxiliary, for either reader. */
  lemma AuxStep<T>(take: (T, string) -> T, sec: Section, a: nat, n: nat, unit: nat, later: nat, best: T)
    requires n > 0 && later == a + unit * sec.verdaux(a).next
    ensures Fold(take, best, AuxNames(sec, a, n, unit)) == Fold(take, take(best, sec.verdaux(a).name), AuxNames(sec, later, n - 1, unit))
  {
    var names := AuxNames(sec, a, n, unit);
    assert names[0] == sec.verdaux(a).name && names[1..] == AuxNames(sec, later, n - 1, unit);
  }

  /** `strncmp` with the prefix, and the conversion of what follows. */
  method TakeName(name: string, best: Option<nat>) returns (r: Option<nat>)
    requires Packed(best)
    ensures r == CTake(best, name) && Packed(r)
  {
    r := best;
    if Prefixed(name) {
      var v := VersionStringToInt(name[|PREFIX|..]);
      r := LargerPacked(r, v);
    }
  }

  /** The verdaux loop: fold the names of one definition into the running maximum. */
  method CAuxLoop(sec: Section, start: nat, cnt: nat, best: Option<nat>) returns (r: Option<nat>)
    requires Packed(best)
    ensures r == Fold(CTake, best, CAux(sec, start, cnt)) && Packed(r)
  {
    r := best;
    var a: nat := start;
    for i := 0 to cnt
      invariant Packed(r)
      invariant Fold(CTake, r, AuxNames(sec, a, cnt - i, VERDAUX_SIZE)) == Fold(CTake, best, AuxNames(sec, start, cnt, VERDAUX_SIZE))
    {
      var x := sec.verdaux(a);
      var later := a + VERDAUX_SIZE * x.next;
      AuxStep(CTake, sec, a, cnt - i, VERDAUX_SIZE, later, r);
      r := TakeName(x.name, r);
      a := later;
    }
  }

  lemma CNamesStep(sec: Section, off: nat, d: Verdef, start: nat, further: nat, best: Option<nat>, next: Option<nat>)
    requires off < sec.size && d == sec.verdef(off) && start == off + d.aux && further == off + d.next
    requires next == Fold(CTake, best, CAux(sec, start, d.cnt))
    ensures d.next == 0 ==> Fold(CTake, best, CNames(sec, off)) == next
    ensures d.next != 0 ==> Fold(CTake, best, CNames(sec, off)) == Fold(CTake, next, CNames(sec, further))
  {
    FoldConcat(CTake, best, CAux(sec, start, d.cnt), if d.next == 0 then [] else CNames(sec, further));
  }

  /** The verdef loop of `get_libstdcxx_version`. */
  method GetLibstdcxxVersion(sec: Section) returns (r: Option<nat>)
    ensures r == CMax(CNames(sec, 0)) && Packed(r)
  {
    r := None;
    var off: nat := 0;
    ghost var goal := CMax(CNames(sec, 0));
    while off < sec.size
      invariant Packed(r)
      invariant Fold(CTake, r, CNames(sec, off)) == goal
      decreases sec.size - off
    {
      var d := sec.verdef(off);
      var start, further := off + d.aux, off + d.next;
      ghost var best := r;
      r := CAuxLoop(sec, start, d.cnt, r);
      CNamesStep(sec, off, d, start, further, best, r);
      if d.next == 0 { return; }
      off := further;
    }
  }

  /** `for aux in version_auxiliaries` */
  method PyAuxLoop(sec: Section, start: nat, cnt: nat, best: Version) returns (r: Version)
    ensures r == Fold(PyTake, best, PyAux(sec, start, cnt))
  {
    r := best;
    var a: nat := start;
    for i := 0 to cnt
      invariant Fold(PyTake, r, AuxNames(sec, a, cnt - i, 1)) == Fold(PyTake, best, AuxNames(sec, start, cnt, 1))
    {
      var x := sec.verdaux(a);
      AuxStep(PyTake, sec, a, cnt - i, 1, a + x.next, r);
      r := PyTake(r, x.name);
      a := a + x.next;
    }
  }

  ghost function PyFrom(best: Version, names: Option<seq<string>>): Option<Version> {
    match names case None => None case Some(x) => Some(Fold(PyTake, best, x))
  }

  /** The result still to be computed from `best` over `n` more definitions. */
  ghost function PyRest(sec: Section, best: Version, off: nat, n: nat): Option<Version> {
    PyFrom(best, PyNames(sec, off, n))
  }

  lemma PyRestStep(sec: Section, best: Version, best': Version, off: nat, n: nat)
    requires sec.verdef(off).cnt > 0
    requires best' == Fold(PyTake, best, PyAux(sec, off + sec.verdef(off).aux, sec.verdef(off).cnt))
    ensures PyRest(sec, best, off, n + 1) == PyRest(sec, best', off + sec.verdef(off).next, n)
  {
    var d := sec.verdef(off);
    var later := PyNames(sec, off + d.next, n);
    if later.Some? { FoldConcat(PyTake, best, PyAux(sec, off + d.aux, d.cnt), later.value); }
  }

  /** `iter_versions` and the maximum loop on top of it; None when the assertion in it fails. */
  method GetGlibcxxVersions(sec: Section) returns (r: Option<Version>)
    ensures r == match PyNames(sec, 0, sec.info) case None => None case Some(names) => Some(PyMax(names))
  {
    var best := Version(0, 0, 0);
    var off: nat := 0;
    for n := sec.info downto 0
      invariant PyRest(sec, best, off, n) == PyRest(sec, Version(0, 0, 0), 0, sec.info)
    {
      var d := sec.verdef(off);
      if d.cnt == 0 { return None; }
      var best' := PyAuxLoop(sec, off + d.aux, d.cnt, best);
      PyRestStep(sec, best, best', off, n);
      best, off := best', off + d.next;
    }
    return Some(best);
  }

  /** The two readers agree on every chain of ordinary names that has a GLIBCXX_ version. */
  lemma ReadersAgree(sec: Section)
    requires Chain(sec, 0, sec.info) && AllOrdinary(CNames(sec, 0)) && AnyPrefixed(CNames(sec, 0))
    ensures PyNames(sec, 0, sec.info).Some?
    ensures CMax(CNames(sec, 0)) == Some(Pack(PyMax(PyNames(sec, 0, sec.info).value)))
  {
    WalksAgree(sec, 0, sec.info);
    MaximaAgree(CNames(sec, 0));
  }

  // ----- a section on which the readers differ -----

  /** One definition with two auxiliaries, the second eight bytes behind the first: the shape a linker gives
      a version that has a predecessor. */
  function TwoAuxiliaries(first: string, second: string): Section {
    Section(100, 1, _ => Verdef(2, 20, 0),
      (a: nat) => if a == 20 then Verdaux(first, 8) else if a == 28 then Verdaux(second, 0) else Verdaux("", 0))
  }

  lemma NamesOfTwo(first: string, second: string)
    ensures CNames(TwoAuxiliaries(first, second), 0) == [first, ""]
    ensures PyNames(TwoAuxiliaries(first, second), 0, 1) == Some([first, second])
  {
    var sec := TwoAuxiliaries(first, second);
    assert AuxNames(sec, 84, 1, VERDAUX_SIZE) == [""] && AuxNames(sec, 28, 1, 1) == [second];
    assert AuxNames(sec, 20, 2, VERDAUX_SIZE) == [first] + [""];
    assert AuxNames(sec, 20, 2, 1) == [first] + [second];
    assert PyNames(sec, 0, 0) == Some([]) && [first, second] + [] == [first, second];
    assert PyAux(sec, 20, 2) == [first, second];
  }

  lemma OneDigit(name: string, d: char)
    requires IsDigit(d) && name == PREFIX + [d]
    ensures Prefixed(name) && Occurs(name) && Ordinary(name) && VersionOf(name) == Version(Digit(d), 0, 0)
  {
    var t := name[|PREFIX|..];
    assert t == [d] && t[..1] == t && t[1..] == "";
    assert DigitPrefix(t) == 1;
    assert Value(0, t) == Digit(d);
    assert Parts(t, 3) == Some([Digit(d)]);
    PrefixedOccurs(name);
  }

  /** The C reader misses the second auxiliary, the Python reader does not: 3.0.0 against 4.0.0. */
  lemma ReadersDiffer(first: string, second: string)
    requires first == PREFIX + "3" && second == PREFIX + "4"
    ensures var sec := TwoAuxiliaries(first, second);
      && AllOrdinary([first, second]) && PyNames(sec, 0, sec.info) == Some([first, second])
      && PyMax([first, second]) == Version(4, 0, 0) && CMax(CNames(sec, 0)) == Some(Pack(Version(3, 0, 0)))
  {
    NamesOfTwo(first, second);
    OneDigit(first, '3');
    OneDigit(second, '4');
    var names := [first, second];
    PyMaxIsMaximum(names);
    assert Occurs(names[0]) && Occurs(names[1]);
    MaximaAgree([first, ""]);
    PyMaxIsMaximum([first, ""]);
    assert Prefixed([first, ""][0]);
  }
}
