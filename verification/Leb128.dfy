/** LEB128 numbers (section 7.6 of DWARF v4): the two stream parsers, and the encodings they invert. */
module Leb128 {
  import opened Common
  import opened Streams
  import opened Bitwise

  datatype Error = FieldError

  /** A decoded number and the bytes it took. */
  datatype Decoded = Decoded(value: int, size: nat)

  function Pow128(k: nat): (p: nat)
    ensures p > 0
  {
    if k == 0 then 1 else 128 * Pow128(k - 1)
  }

  // ----- what a byte sequence denotes -----

  function Unsigned(s: seq<byte>): (r: Option<Decoded>)
    ensures r.Some? ==> r.value.value >= 0
  {
    if s == [] then None
    else if s[0] < 128 then Some(Decoded(s[0], 1))
    else match Unsigned(s[1..])
      case None => None
      case Some(d) => Some(Decoded(s[0] - 128 + 128 * d.value, d.size + 1))
  }

  function Signed(s: seq<byte>): Option<Decoded> {
    if s == [] then None
    else if s[0] < 128 then Some(Decoded(if s[0] < 64 then s[0] as int else s[0] as int - 128, 1))
    else match Signed(s[1..])
      case None => None
      case Some(d) => Some(Decoded(s[0] - 128 + 128 * d.value, d.size + 1))
  }

  // ----- the encodings -----

  /** The two's complement digits of `z` in base 128, in exactly `k` bytes. */
  function Encode(z: int, k: nat): seq<byte>
    requires k > 0
    decreases k
  {
    if k == 1 then [z % 128] else [128 + z % 128] + Encode(z / 128, k - 1)
  }

  predicate FitsUnsigned(n: int, k: nat) { 0 <= n < Pow128(k) }

  predicate FitsSigned(z: int, k: nat)
    requires k > 0
  {
    -64 * Pow128(k - 1) <= z < 64 * Pow128(k - 1)
  }

  /** The length of the shortest encoding. */
  function UnsignedLength(n: nat): (k: nat)
    ensures k > 0
  {
    if n < 128 then 1 else 1 + UnsignedLength(n / 128)
  }

  function SignedLength(z: int): (k: nat)
    ensures k > 0
    decreases if z < 0 then -z else z
  {
    if -64 <= z < 64 then 1 else 1 + SignedLength(z / 128)
  }

  lemma {:induction false} ShortestUnsigned(n: nat, k: nat)
    requires k > 0
    ensures FitsUnsigned(n, k) <==> UnsignedLength(n) <= k
    decreases k
  {
    if k == 1 {
      assert Pow128(1) == 128 * Pow128(0);
    } else if n >= 128 {
      ShortestUnsigned(n / 128, k - 1);
      var p := Pow128(k - 1);
      assert n < 128 * p <==> n / 128 < p;
    }
  }

  lemma {:induction false} ShortestSigned(z: int, k: nat)
    requires k > 0
    ensures FitsSigned(z, k) <==> SignedLength(z) <= k
    decreases k
  {
    if k > 1 && !(-64 <= z < 64) {
      ShortestSigned(z / 128, k - 1);
      var p := Pow128(k - 2);
      assert Pow128(k - 1) == 128 * p;
      assert -64 * (128 * p) <= z < 64 * (128 * p) <==> -64 * p <= z / 128 < 64 * p;
    }
  }

  // ----- decoding inverts encoding, at every width that fits -----

  /** Any encoding wide enough, shortest or zero-padded, followed by anything, decodes to its number
      and takes exactly its own bytes. */
  lemma {:induction false} UnsignedRoundTrip(n: nat, k: nat, suffix: seq<byte>)
    requires k > 0 && FitsUnsigned(n, k)
    ensures |Encode(n, k)| == k && Unsigned(Encode(n, k) + suffix) == Some(Decoded(n, k))
    decreases k
  {
    var e := Encode(n, k);
    if k == 1 {
      assert Pow128(1) == 128 * Pow128(0);
    } else {
      assert n / 128 < Pow128(k - 1);
      UnsignedRoundTrip(n / 128, k - 1, suffix);
      assert (e + suffix)[0] == e[0] && (e + suffix)[1..] == Encode(n / 128, k - 1) + suffix;
    }
  }

  lemma {:induction false} SignedRoundTrip(z: int, k: nat, suffix: seq<byte>)
    requires k > 0 && FitsSigned(z, k)
    ensures |Encode(z, k)| == k && Signed(Encode(z, k) + suffix) == Some(Decoded(z, k))
    decreases k
  {
    var e := Encode(z, k);
    if k == 1 {
      assert (e + suffix)[0] == z % 128;
    } else {
      var p := Pow128(k - 2);
      assert -64 * (128 * p) <= z < 64 * (128 * p) ==> -64 * p <= z / 128 < 64 * p;
      SignedRoundTrip(z / 128, k - 1, suffix);
      assert (e + suffix)[0] == e[0] && (e + suffix)[1..] == Encode(z / 128, k - 1) + suffix;
    }
  }

  /** Conversely, whatever decodes is an encoding: a k-byte one, of a number in the 7k-bit range. */
  lemma {:induction false} UnsignedInRange(s: seq<byte>)
    requires Unsigned(s).Some?
    ensures var d := Unsigned(s).value;
      0 < d.size <= |s| && FitsUnsigned(d.value, d.size) && s[..d.size] == Encode(d.value, d.size)
    decreases |s|
  {
    if s[0] < 128 {
      assert Pow128(1) == 128 * Pow128(0);
    } else {
      UnsignedInRange(s[1..]);
      var d, d' := Unsigned(s).value, Unsigned(s[1..]).value;
      assert d.value % 128 == s[0] - 128 && d.value / 128 == d'.value;
      assert s[..d.size] == [s[0]] + s[1..][..d'.size];
    }
  }

  lemma {:induction false} SignedInRange(s: seq<byte>)
    requires Signed(s).Some?
    ensures var d := Signed(s).value;
      0 < d.size <= |s| && FitsSigned(d.value, d.size) && s[..d.size] == Encode(d.value, d.size)
    decreases |s|
  {
    if s[0] < 128 {
      assert s[..1] == [s[0]];
    } else {
      SignedInRange(s[1..]);
      var d, d' := Signed(s).value, Signed(s[1..]).value;
      assert d.value % 128 == s[0] - 128 && d.value / 128 == d'.value;
      assert s[..d.size] == [s[0]] + s[1..][..d'.size];
    }
  }

  /** Examples of section 7.6 of DWARF v4. */
  lemma UnsignedExamples()
    ensures Encode(2, 1) == [2] && Encode(127, 1) == [127] && Encode(128, 2) == [0x80, 1] && Encode(129, 2) == [0x81, 1]
    ensures Encode(12857, 2) == [0xB9, 0x64] && Encode(624485, 3) == [0xE5, 0x8E, 0x26]
  {
    assert Encode(1, 1) == [1] && Encode(100, 1) == [100] && Encode(38, 1) == [38];
    assert Encode(4878, 2) == [0x8E] + Encode(38, 1);
  }

  lemma SignedExamples()
    ensures Encode(-2, 1) == [0x7E] && Encode(127, 2) == [0xFF, 0] && Encode(-127, 2) == [0x81, 0x7F]
    ensures Encode(128, 2) == [0x80, 1] && Encode(-128, 2) == [0x80, 0x7F] && Encode(-129, 2) == [0xFF, 0x7E]
  {
    assert Encode(0, 1) == [0] && Encode(1, 1) == [1] && Encode(-1, 1) == [0x7F] && Encode(-2, 1) == [0x7E];
  }

  // ----- the parsers -----

  /** `ULEB128._parse` */
  method ParseUnsigned(stream: Stream) returns (r: Result<int, Error>)
    modifies stream
    ensures match Unsigned(old(stream.Rest()))
      case None => r == Err(FieldError)
      case Some(d) => r == Ok(d.value) && stream.pos == old(stream.pos) + d.size
  {
    ghost var all := stream.Rest();
    var value: nat, shift: nat := 0, 0;
    ghost var k, weight := 0, 1;
    while true
      invariant value < weight == Pow128(k) == Pow2(shift) && k <= |all|
      invariant stream.Rest() == all[k..] && stream.pos == old(stream.pos) + k
      invariant Unsigned(all) == Extend(value, weight, k, Unsigned(all[k..]))
      decreases |all| - k
    {
      var data := stream.Read(1);
      if |data| != 1 { return Err(FieldError); }
      var b: int := data[0];
      ghost var before, s := value, all[k..];
      assert s[0] == b && s[1..] == all[k + 1..];
      value := OrShifted(value, b, shift, weight);
      SevenMore(shift, weight);
      UnsignedStep(s, before, weight, k, value);
      shift, k, weight := shift + 7, k + 1, weight * 128;
      if b < 128 { return Ok(value); }
    }
  }

  /** `SLEB128._parse`: as above, and a set bit 0x40 in the last byte sets all bits from `shift` on. */
  method ParseSigned(stream: Stream) returns (r: Result<int, Error>)
    modifies stream
    ensures match Signed(old(stream.Rest()))
      case None => r == Err(FieldError)
      case Some(d) => r == Ok(d.value) && stream.pos == old(stream.pos) + d.size
  {
    ghost var all := stream.Rest();
    var value: nat, shift: nat := 0, 0;
    ghost var k, weight := 0, 1;
    while true
      invariant value < weight == Pow128(k) == Pow2(shift) && k <= |all|
      invariant stream.Rest() == all[k..] && stream.pos == old(stream.pos) + k
      invariant Signed(all) == Extend(value, weight, k, Signed(all[k..]))
      decreases |all| - k
    {
      var data := stream.Read(1);
      if |data| != 1 { return Err(FieldError); }
      var b: int := data[0];
      ghost var before, s := value, all[k..];
      assert s[0] == b && s[1..] == all[k + 1..];
      value := OrShifted(value, b, shift, weight);
      SevenMore(shift, weight);
      SignedStep(s, before, weight, k, value);
      shift, k, weight := shift + 7, k + 1, weight * 128;
      if b < 128 { return Ok(if b / 64 % 2 == 1 then SetFrom(value, shift) else value); }
    }
  }

  /** `value | (~0 << shift)`, which is the complement of the ones below `shift` without the bits of `value`. */
  function SetFrom(value: nat, shift: nat): (r: int)
    requires value < Pow2(shift)
    ensures r == value - Pow2(shift)
  {
    ClearSubtracts(value, shift);
    -(Bits(AndNot, Pow2(shift) - 1, value) as int) - 1
  }

  /** `value | (b & 0x7F) << shift` */
  function OrShifted(value: nat, b: int, shift: nat, ghost weight: nat): (r: nat)
    requires value < weight == Pow2(shift) && 0 <= b < 256
    ensures r == value + b % 128 * weight
  {
    OrAdds(value, b % 128, shift);
    Bits(Or, value, b % 128 * Pow2(shift))
  }

  lemma SevenMore(k: nat, w: nat)
    requires w == Pow2(k)
    ensures Pow2(k + 7) == w * 128
  {
    assert Pow2(k + 1) == 2 * w;
    assert Pow2(k + 2) == 4 * w;
    assert Pow2(k + 3) == 8 * w;
    assert Pow2(k + 4) == 16 * w;
    assert Pow2(k + 5) == 32 * w;
    assert Pow2(k + 6) == 64 * w;
  }

  /** The number whose low digits are `value` and whose remaining digits denote `rest`. */
  ghost function Extend(value: int, weight: nat, k: nat, rest: Option<Decoded>): Option<Decoded> {
    match rest case None => None case Some(d) => Some(Decoded(value + weight * d.value, k + d.size))
  }

  lemma UnsignedStep(s: seq<byte>, value: nat, weight: nat, k: nat, next: nat)
    requires s != [] && value < weight && next == value + s[0] % 128 * weight
    ensures next < weight * 128
    ensures Extend(value, weight, k, Unsigned(s)) ==
      if s[0] < 128 then Some(Decoded(next, k + 1)) else Extend(next, weight * 128, k + 1, Unsigned(s[1..]))
  {
    ExtendStep(value, weight, k, s[0], Unsigned(s[1..]));
  }

  lemma SignedStep(s: seq<byte>, value: nat, weight: nat, k: nat, next: nat)
    requires s != [] && value < weight && next == value + s[0] % 128 * weight
    ensures next < weight * 128
    ensures Extend(value, weight, k, Signed(s)) ==
      if s[0] >= 128 then Extend(next, weight * 128, k + 1, Signed(s[1..]))
      else Some(Decoded(if s[0] / 64 % 2 == 1 then next - weight * 128 else next, k + 1))
  {
    ExtendStep(value, weight, k, s[0], Signed(s[1..]));
  }

  lemma Scaled(low: int, weight: nat)
    requires 0 <= low < 128
    ensures 0 <= low * weight <= 127 * weight
  {
    assert (127 - low) * weight >= 0;
  }

  lemma ExtendStep(value: int, weight: nat, k: nat, b: int, rest: Option<Decoded>)
    requires 0 <= value < weight && 0 <= b < 256
    ensures 0 <= value + b % 128 * weight < weight * 128
    ensures b >= 128 && rest.Some? ==>
      Extend(value, weight, k, Some(Decoded(b - 128 + 128 * rest.value.value, rest.value.size + 1)))
      == Extend(value + b % 128 * weight, weight * 128, k + 1, rest)
    ensures b < 128 ==> weight * b == b % 128 * weight && weight * (b - 128) == b % 128 * weight - weight * 128
  {
    var low := b % 128;
    assert low == if b < 128 then b else b - 128;
    Scaled(low, weight);
    if b >= 128 && rest.Some? {
      var v := rest.value.value;
      assert weight * (low + 128 * v) == low * weight + weight * 128 * v;
    }
  }
}
