/** The two readers of GLIBCXX versions: the C header walks .gnu.version_d itself and packs versions
    as 0x00AABBCC, the Python hook uses the ELF library and compares tuples. */
module Versions {
  import opened Common

  // ----- version strings -----

  predicate IsDigit(c: char) { '0' <= c <= '9' }

  function Digit(c: char): nat
    requires IsDigit(c)
  {
    c as int - '0' as int
  }

  predicate AllDigits(s: string) { forall i :: 0 <= i < |s| ==> IsDigit(s[i]) }

  /** The number written by the digits `s` after the number `a`. */
  function Value(a: nat, s: string): nat
    requires AllDigits(s)
    decreases |s|
  {
    if s == "" then a else Value(a * 10 + Digit(s[0]), s[1..])
  }

  function DigitPrefix(s: string): (n: nat)
    ensures n <= |s| && AllDigits(s[..n]) && (n < |s| ==> !IsDigit(s[n]))
  {
    if s == "" || !IsDigit(s[0]) then 0
    else
      var n := DigitPrefix(s[1..]);
      assert s[..n + 1] == [s[0]] + s[1..][..n];
      n + 1
  }

  /** Up to `k` dot-separated decimal numbers and nothing else: what `re.fullmatch` accepts. */
  function Parts(s: string, k: nat): Option<seq<nat>>
    decreases |s|
  {
    var n := DigitPrefix(s);
    if n == 0 || k == 0 then None
    else if n == |s| then Some([Value(0, s[..n])])
    else if s[n] != '.' then None
    else match Parts(s[n + 1..], k - 1)
      case None => None
      case Some(rest) => Some([Value(0, s[..n])] + rest)
  }

  datatype Version = Version(major: nat, minor: nat, patch: nat)

  function At(parts: seq<nat>, i: nat): nat {
    if i < |parts| then parts[i] else 0
  }

  /** Python `parse_version` */
  function ParseVersion(s: string): Version {
    match Parts(s, 3)
    case None => Version(0, 0, 0)
    case Some(p) => OfParts(p)
  }

  /** Tuple comparison. */
  predicate Less(a: Version, b: Version) {
    || a.major < b.major
    || (a.major == b.major && (a.minor < b.minor || (a.minor == b.minor && a.patch < b.patch)))
  }

  const UINT32: nat := 0x1_0000_0000

  function Clamp(x: nat): nat { if x < 255 then x else 255 }

  function Pack(v: Version): nat {
    (Clamp(v.major) * 256 + Clamp(v.minor)) * 256 + Clamp(v.patch)
  }

  predicate Fits(v: Version) { v.major <= 255 && v.minor <= 255 && v.patch <= 255 }

  /** On versions whose parts fit a byte the packed order is the tuple order. */
  lemma PackedOrder(a: Version, b: Version)
    requires Fits(a) && Fits(b)
    ensures Less(a, b) <==> Pack(a) < Pack(b)
    ensures Pack(a) == Pack(b) ==> a == b
  {
  }

  /** The loop of `version_string_to_int` from component `v` on; arithmetic is that of uint32_t. */
  function Scan(s: string, v: nat, acc: seq<nat>): (r: seq<nat>)
    requires v <= 2 && |acc| == 3
    ensures |r| == 3
    decreases |s|
  {
    if s == "" then acc
    else if s[0] == '.' && v < 2 then Scan(s[1..], v + 1, acc)
    else if IsDigit(s[0]) then Scan(s[1..], v, acc[v := (acc[v] * 10 + Digit(s[0])) % UINT32])
    else acc
  }

  function OfParts(p: seq<nat>): Version { Version(At(p, 0), At(p, 1), At(p, 2)) }

  /** What C `version_string_to_int` computes. */
  function PackedVersion(s: string): nat { Pack(OfParts(Scan(s, 0, [0, 0, 0]))) }

  /** C `version_string_to_int` */
  method VersionStringToInt(str: string) returns (version: nat)
    ensures version == PackedVersion(str)
    ensures version <= 0x00FFFFFF && PackedAs(str, version)
  {
    var mmr := new nat[3](_ => 0);
    var v, c := 0, 0;
    assert mmr[..] == [0, 0, 0] && str[0..] == str;
    while c < |str|
      invariant c <= |str| && v <= 2
      invariant Scan(str[c..], v, mmr[..]) == Scan(str, 0, [0, 0, 0])
    {
      assert str[c..][0] == str[c] && str[c..][1..] == str[c + 1..];
      if str[c] == '.' && v < 2 {
        v := v + 1;
      } else if IsDigit(str[c]) {
        ghost var before := mmr[..];
        mmr[v] := (mmr[v] * 10 + Digit(str[c])) % UINT32;
        assert mmr[..] == before[v := mmr[v]];
      } else {
        break;
      }
      c := c + 1;
    }
    version := 0;
    for i := 0 to 3
      invariant i == 0 ==> version == 0
      invariant i == 1 ==> version == Clamp(mmr[0])
      invariant i == 2 ==> version == Clamp(mmr[0]) * 256 + Clamp(mmr[1])
      invariant i == 3 ==> version == Pack(OfParts(mmr[..]))
    {
      version := version * 256 + Clamp(mmr[i]);
    }
    PrintedIsPacked(str);
  }

  /** The value of a longer digit string, and its remainders. */
  lemma {:induction false} ValueSnoc(a: nat, s: string, c: char)
    requires AllDigits(s) && IsDigit(c)
    ensures Value(a, s + [c]) == Value(a, s) * 10 + Digit(c)
    decreases |s|
  {
    if s == "" {
      assert ([c])[1..] == "";
    } else {
      assert (s + [c])[0] == s[0] && (s + [c])[1..] == s[1..] + [c];
      ValueSnoc(a * 10 + Digit(s[0]), s[1..], c);
    }
  }

  lemma Wraps(a: nat, d: nat)
    ensures (a % UINT32 * 10 + d) % UINT32 == (a * 10 + d) % UINT32
  {
    var q, r := a / UINT32, a % UINT32;
    assert a * 10 + d == (r * 10 + d) + q * 10 * UINT32;
    ModPlus(r * 10 + d, q * 10);
  }

  lemma ModPlus(x: nat, k: nat)
    ensures (x + k * UINT32) % UINT32 == x % UINT32
  {
    var q := x / UINT32;
    assert x + k * UINT32 == (q + k) * UINT32 + x % UINT32;
  }

  lemma {:induction false} ValueWraps(a: nat, s: string)
    requires AllDigits(s)
    ensures Value(a % UINT32, s) % UINT32 == Value(a, s) % UINT32
    decreases |s|
  {
    if s != "" {
      var d, w := Digit(s[0]), a % UINT32;
      ValueWraps(w * 10 + d, s[1..]);
      ValueWraps(a * 10 + d, s[1..]);
      Wraps(a, d);
    }
  }

  /** A run of digits is accumulated modulo 2^32. */
  lemma {:induction false} ScanDigits(d: string, rest: string, v: nat, acc: seq<nat>)
    requires AllDigits(d) && v <= 2 && |acc| == 3 && acc[v] < UINT32
    ensures Scan(d + rest, v, acc) == Scan(rest, v, acc[v := Value(acc[v], d) % UINT32])
    decreases |d|
  {
    if d == "" {
      assert d + rest == rest && acc[v := acc[v]] == acc;
    } else {
      var s, x := d + rest, acc[v] * 10 + Digit(d[0]);
      assert s[0] == d[0] && s[1..] == d[1..] + rest;
      var acc' := acc[v := x % UINT32];
      ScanDigits(d[1..], rest, v, acc');
      ValueWraps(x, d[1..]);
      assert acc'[v := Value(x, d[1..]) % UINT32] == acc[v := Value(x, d[1..]) % UINT32];
    }
  }

  /** Components `v`, `v + 1`, ... replaced by `p`. */
  function Fill(acc: seq<nat>, v: nat, p: seq<nat>): seq<nat> {
    seq(|acc|, i requires 0 <= i < |acc| => if v <= i < v + |p| then p[i - v] else acc[i])
  }

  function Wrapped(p: seq<nat>): seq<nat> {
    seq(|p|, i requires 0 <= i < |p| => p[i] % UINT32)
  }

  lemma FillStep(acc: seq<nat>, v: nat, p: seq<nat>, p': seq<nat>)
    requires v < |acc| && p != [] && p == [p[0]] + p'
    ensures Fill(acc[v := p[0] % UINT32], v + 1, Wrapped(p')) == Fill(acc, v, Wrapped(p))
  {
  }

  lemma ScanFirst(s: string, n: nat, v: nat, acc: seq<nat>)
    requires n == DigitPrefix(s) && v <= 2 && |acc| == 3 && acc[v] == 0
    ensures Scan(s, v, acc) == Scan(s[n..], v, acc[v := Value(0, s[..n]) % UINT32])
  {
    assert s == s[..n] + s[n..];
    ScanDigits(s[..n], s[n..], v, acc);
  }

  lemma {:induction false} ScanParts(s: string, v: nat, acc: seq<nat>, p: seq<nat>, k: nat)
    requires v <= 2 && |acc| == 3 && (forall i :: v <= i <= 2 ==> acc[i] == 0)
    requires k == 3 - v && Parts(s, k) == Some(p)
    ensures Scan(s, v, acc) == Fill(acc, v, Wrapped(p))
    decreases |s|
  {
    var n := DigitPrefix(s);
    ScanFirst(s, n, v, acc);
    var acc' := acc[v := p[0] % UINT32];
    if n == |s| {
      assert s[n..] == "" && acc' == Fill(acc, v, Wrapped(p));
    } else {
      var rest := s[n + 1..];
      var p' := Parts(rest, k - 1).value;
      assert p == [p[0]] + p' && s[n..][0] == '.' && s[n..][1..] == rest;
      PartsCount(rest, k - 1);
      ScanParts(rest, v + 1, acc', p', k - 1);
      FillStep(acc, v, p, p');
    }
  }

  /** Suffixes on which the two parsers can be compared: dotted decimals with parts up to 255, or
      words such as LDBL_3.4 that start with neither a digit nor a dot. */
  predicate Comparable(s: string) {
    || (Parts(s, 3).Some? && Fits(ParseVersion(s)))
    || (s != "" && !IsDigit(s[0]) && s[0] != '.')
  }

  lemma AgreeOn(s: string, p: seq<nat>)
    requires Reads(s, 3, p) && Fits(OfParts(p))
    ensures PackedVersion(s) == Pack(OfParts(p))
  {
    PackedParts(s, p);
    SmallParts(p);
  }

  lemma SmallParts(p: seq<nat>)
    requires |p| <= 3 && Fits(OfParts(p))
    ensures Wrapped(p) == p
  {
    assert forall i :: 0 <= i < |p| ==> p[i] == At(p, i) <= 255;
  }

  lemma ParsersAgree(s: string)
    requires Comparable(s)
    ensures PackedVersion(s) == Pack(ParseVersion(s)) && Fits(ParseVersion(s))
  {
    if Parts(s, 3).Some? {
      AgreeOn(s, Parts(s, 3).value);
    } else {
      assert DigitPrefix(s) == 0;
    }
  }

  lemma {:induction false} PartsCount(s: string, k: nat)
    ensures Parts(s, k).Some? ==> 1 <= |Parts(s, k).value| <= k
    decreases |s|
  {
    var n := DigitPrefix(s);
    if n < |s| && k > 0 { PartsCount(s[n + 1..], k - 1); }
  }

  // ----- what is printed in decimal is read back -----

  function Dec(n: nat): string {
    if n < 10 then ["0123456789"[n]] else Dec(n / 10) + ["0123456789"[n % 10]]
  }

  predicate Numeral(d: string) { d != "" && AllDigits(d) }

  ghost predicate Numerals(ds: seq<string>) { ds != [] && forall i :: 0 <= i < |ds| ==> Numeral(ds[i]) }

  function Dotted(ds: seq<string>): string
    requires ds != []
  {
    if |ds| == 1 then ds[0] else ds[0] + "." + Dotted(ds[1..])
  }

  function Values(ds: seq<string>): seq<nat>
    requires forall i :: 0 <= i < |ds| ==> AllDigits(ds[i])
  {
    if ds == [] then [] else [Value(0, ds[0])] + Values(ds[1..])
  }

  lemma {:induction false} DecRead(n: nat)
    ensures Numeral(Dec(n)) && Value(0, Dec(n)) == n
    decreases n
  {
    var c := "0123456789"[n % 10];
    assert IsDigit(c) && Digit(c) == n % 10;
    if n < 10 {
      assert Dec(n)[1..] == "" && Value(0, Dec(n)) == Value(n, "");
    } else {
      DecRead(n / 10);
      ValueSnoc(0, Dec(n / 10), c);
    }
  }

  lemma {:induction false} DigitsEnd(d: string, rest: string)
    requires AllDigits(d) && (rest == "" || !IsDigit(rest[0]))
    ensures DigitPrefix(d + rest) == |d|
    decreases |d|
  {
    if d == "" {
      assert d + rest == rest;
    } else {
      assert (d + rest)[0] == d[0] && (d + rest)[1..] == d[1..] + rest;
      DigitsEnd(d[1..], rest);
    }
  }

  lemma PartsOne(d: string, k: nat)
    requires Numeral(d)
    ensures Parts(d, k) == if k == 0 then None else Some([Value(0, d)])
  {
    DigitsEnd(d, "");
    assert d + "" == d && d[..|d|] == d;
  }

  lemma PartsMore(d: string, rest: string, k: nat)
    requires Numeral(d) && 0 < k
    ensures Parts(d + "." + rest, k) ==
      match Parts(rest, k - 1) case None => None case Some(p) => Some([Value(0, d)] + p)
  {
    var s := d + "." + rest;
    DigitsEnd(d, "." + rest);
    assert s == d + ("." + rest) && s[..|d|] == d && s[|d|] == '.' && s[|d| + 1..] == rest;
  }

  /** A string is a version exactly when it is one, two or three numerals with dots between them. */
  lemma {:induction false} PartsOfDotted(ds: seq<string>, k: nat)
    requires Numerals(ds)
    ensures Parts(Dotted(ds), k) == if |ds| <= k then Some(Values(ds)) else None
    decreases |ds|
  {
    if |ds| == 1 {
      PartsOne(ds[0], k);
      assert Values(ds) == [Value(0, ds[0])];
    } else if k == 0 {
    } else {
      var d, more := ds[0], ds[1..];
      assert Numeral(d);
      PartsMore(d, Dotted(more), k);
      PartsOfDotted(more, k - 1);
    }
  }

  lemma {:induction false} PartsDotted(s: string, k: nat) returns (ds: seq<string>)
    requires Parts(s, k).Some?
    ensures Numerals(ds) && |ds| <= k && s == Dotted(ds)
    decreases |s|
  {
    var n := DigitPrefix(s);
    if n == |s| {
      ds := [s];
      assert s[..n] == s;
    } else {
      var rest := PartsDotted(s[n + 1..], k - 1);
      ds := [s[..n]] + rest;
      assert ds[1..] == rest && s == s[..n] + "." + s[n + 1..];
    }
  }

  /** `s` is read as the numbers `p`, with `k` allowed. */
  ghost predicate Reads(s: string, k: nat, p: seq<nat>) { Parts(s, k) == Some(p) }

  lemma ReadOne(a: nat, k: nat)
    requires 0 < k
    ensures Reads(Dec(a), k, [a])
  {
    DecRead(a);
    PartsOne(Dec(a), k);
  }

  lemma ReadMore(a: nat, rest: string, k: nat, p: seq<nat>)
    requires 0 < k && Reads(rest, k - 1, p)
    ensures Reads(Dec(a) + "." + rest, k, [a] + p)
  {
    DecRead(a);
    PartsMore(Dec(a), rest, k);
  }

  lemma PrintedParts(a: nat, b: nat, c: nat)
    ensures Reads(Dec(a) + "." + (Dec(b) + "." + Dec(c)), 3, [a, b, c])
    ensures Reads(Dec(a) + "." + Dec(b), 3, [a, b])
    ensures Reads(Dec(a), 3, [a])
  {
    ReadOne(c, 1);
    ReadMore(b, Dec(c), 2, [c]);
    ReadMore(a, Dec(b) + "." + Dec(c), 3, [b] + [c]);
    assert [a] + ([b] + [c]) == [a, b, c] && [a] + [b] == [a, b];
    ReadOne(b, 2);
    ReadMore(a, Dec(b), 3, [b]);
    ReadOne(a, 3);
  }

  lemma Regroup3(x: string, y: string, z: string)
    ensures x + "." + y + "." + z == x + "." + (y + "." + z)
  {
  }

  /** Three numbers in decimal are major, minor and patch; absent ones are zero. */
  lemma ParsePrinted(a: nat, b: nat, c: nat)
    ensures ParseVersion(Dec(a) + "." + Dec(b) + "." + Dec(c)) == Version(a, b, c)
    ensures ParseVersion(Dec(a) + "." + Dec(b)) == Version(a, b, 0)
    ensures ParseVersion(Dec(a)) == Version(a, 0, 0)
  {
    Regroup3(Dec(a), Dec(b), Dec(c));
    PrintedParts(a, b, c);
  }

  lemma PackedParts(s: string, p: seq<nat>)
    requires Reads(s, 3, p)
    ensures |p| <= 3 && PackedVersion(s) == Pack(OfParts(Wrapped(p)))
  {
    PartsCount(s, 3);
    ScanParts(s, 0, [0, 0, 0], p, 3);
    assert OfParts(Fill([0, 0, 0], 0, Wrapped(p))) == OfParts(Wrapped(p));
  }

  lemma PackMeaning(p: seq<nat>)
    requires |p| <= 3
    ensures Pack(OfParts(Wrapped(p))) == ByteAt(p, 0) * 65536 + ByteAt(p, 1) * 256 + ByteAt(p, 2)
  {
  }

  /** A part as packed: taken modulo 2^32 and then cut to a byte. */
  function ByteAt(p: seq<nat>, i: nat): nat {
    if i < |p| then Byte(p[i] % 0x1_0000_0000) else 0
  }

  /** `version_string_to_int` packs them in that order. */
  lemma PackPrinted(a: nat, b: nat, c: nat)
    ensures PackedVersion(Dec(a) + "." + Dec(b) + "." + Dec(c))
         == Byte(a % 0x1_0000_0000) * 65536 + Byte(b % 0x1_0000_0000) * 256 + Byte(c % 0x1_0000_0000)
    ensures PackedVersion(Dec(a) + "." + Dec(b)) == Byte(a % 0x1_0000_0000) * 65536 + Byte(b % 0x1_0000_0000) * 256
    ensures PackedVersion(Dec(a)) == Byte(a % 0x1_0000_0000) * 65536
  {
    var s, t, u := Dec(a) + "." + Dec(b) + "." + Dec(c), Dec(a) + "." + Dec(b), Dec(a);
    Regroup3(Dec(a), Dec(b), Dec(c));
    PrintedParts(a, b, c);
    PackedParts(s, [a, b, c]);
    PackMeaning([a, b, c]);
    PackedParts(t, [a, b]);
    PackMeaning([a, b]);
    PackedParts(u, [a]);
    PackMeaning([a]);
  }

  /** A.B.C is packed as 0x00AABBCC. */
  ghost predicate PackedAs(str: string, version: nat) {
    forall a: nat, b: nat, c: nat {:trigger Dec(a), Dec(b), Dec(c)} ::
      a < 0x1_0000_0000 && b < 0x1_0000_0000 && c < 0x1_0000_0000 && str == Dec(a) + "." + Dec(b) + "." + Dec(c)
      ==> version == Byte(a) * 65536 + Byte(b) * 256 + Byte(c)
  }

  lemma PrintedIsPacked(str: string)
    ensures PackedAs(str, PackedVersion(str))
  {
    forall a: nat, b: nat, c: nat |
      a < 0x1_0000_0000 && b < 0x1_0000_0000 && c < 0x1_0000_0000 && str == Dec(a) + "." + Dec(b) + "." + Dec(c)
      ensures PackedVersion(str) == Byte(a) * 65536 + Byte(b) * 256 + Byte(c)
    {
      PackSmall(a, b, c);
    }
  }

  lemma PackSmall(a: nat, b: nat, c: nat)
    requires a < 0x1_0000_0000 && b < 0x1_0000_0000 && c < 0x1_0000_0000
    ensures PackedVersion(Dec(a) + "." + Dec(b) + "." + Dec(c)) == Byte(a) * 65536 + Byte(b) * 256 + Byte(c)
  {
    SmallByte(a);
    SmallByte(b);
    SmallByte(c);
    PackPrinted(a, b, c);
  }

  lemma SmallByte(n: nat)
    requires n < 0x1_0000_0000
    ensures Byte(n % 0x1_0000_0000) == Byte(n)
  {
  }

  function Byte(n: nat): nat { if n <= 255 then n else 255 }

  /** 3.4.30 is packed as 0x03041E, and is lower than 3.5. */
  lemma UsualVersions()
    ensures ParseVersion("3.4.30") == Version(3, 4, 30) && ParseVersion("3.5") == Version(3, 5, 0)
    ensures PackedVersion("3.4.30") == 0x03041E && PackedVersion("3.5") == 0x030500
    ensures Less(ParseVersion("3.4.30"), ParseVersion("3.5")) && !Less(ParseVersion("3.5"), ParseVersion("3.4.30"))
  {
    assert Dec(30) == Dec(3) + "0" && Dec(3) == "3" && Dec(4) == "4" && Dec(5) == "5";
    assert "3.4.30" == Dec(3) + "." + Dec(4) + "." + Dec(30);
    assert "3.5" == Dec(3) + "." + Dec(5);
    ParsePrinted(3, 4, 30);
    ParsePrinted(3, 5, 0);
    PackPrinted(3, 4, 30);
    PackPrinted(3, 5, 0);
  }
}
