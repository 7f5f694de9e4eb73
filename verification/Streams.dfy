/** Byte streams as the parsers use them: `read`, `seek` and `tell` on a fixed content. */
module Streams {
  import opened Common

  type byte = x: nat | x < 256

  /** A symbol name, as encoded. */
  type Name = seq<byte>

  /** The unsigned number that some bytes hold. */
  function Number(s: seq<byte>, littleEndian: bool): nat {
    if s == [] then 0
    else if littleEndian then s[0] + 256 * Number(s[1..], true)
    else Number(s[..|s| - 1], false) * 256 + s[|s| - 1]
  }

  function Pow256(n: nat): (p: nat)
    ensures p > 0
  {
    if n == 0 then 1 else 256 * Pow256(n - 1)
  }

  function ToBytes(v: nat, n: nat, littleEndian: bool): (s: seq<byte>)
    ensures |s| == n
    decreases n
  {
    if n == 0 then []
    else if littleEndian then [v % 256] + ToBytes(v / 256, n - 1, true)
    else ToBytes(v / 256, n - 1, false) + [v % 256]
  }

  lemma {:induction false} NumberOfBytes(v: nat, n: nat, littleEndian: bool)
    requires v < Pow256(n)
    ensures Number(ToBytes(v, n, littleEndian), littleEndian) == v
    decreases n
  {
    if n > 0 {
      NumberOfBytes(v / 256, n - 1, littleEndian);
      var rest := ToBytes(v / 256, n - 1, littleEndian);
      if littleEndian { assert ([v % 256] + rest)[1..] == rest; } else { assert (rest + [v % 256])[..n - 1] == rest; }
    }
  }

  lemma {:induction false} NumberBounded(s: seq<byte>, littleEndian: bool)
    ensures Number(s, littleEndian) < Pow256(|s|)
    decreases |s|
  {
    if s != [] {
      if littleEndian { NumberBounded(s[1..], true); } else { NumberBounded(s[..|s| - 1], false); }
    }
  }

  /** The `i`-th digit of `x` to the base 256, in two's complement. */
  function DigitAt(x: int, i: nat): byte { x / Pow256(i) % 256 }

  lemma DigitNext(x: int, i: nat, next: nat)
    requires next == i + 1
    ensures DigitAt(x, next) == DigitAt(x / 256, i) && DigitAt(x, 0) == x % 256
  {
    DivDiv(x, 256, Pow256(i));
  }

  lemma {:induction false} FirstOfNumber(s: seq<byte>, rest: seq<byte>, n: int)
    requires s != [] && rest == s[1..] && n == Number(s, true)
    ensures n % 256 == s[0] && n / 256 == Number(rest, true)
  {
  }

  lemma {:induction false} LastOfNumber(s: seq<byte>, rest: seq<byte>, n: int)
    requires s != [] && rest == s[..|s| - 1] && n == Number(s, false)
    ensures n % 256 == s[|s| - 1] && n / 256 == Number(rest, false)
  {
  }

  /** The bytes of a number are its digits, the lowest one first or last. */
  lemma {:induction false} NumberDigits(s: seq<byte>, i: nat, littleEndian: bool)
    requires i < |s|
    ensures s[if littleEndian then i else |s| - 1 - i] == DigitAt(Number(s, littleEndian), i)
    decreases i
  {
    var n := Number(s, littleEndian);
    var rest := if littleEndian then s[1..] else s[..|s| - 1];
    if littleEndian { FirstOfNumber(s, rest, n); } else { LastOfNumber(s, rest, n); }
    if i == 0 {
      DigitNext(n, 0, 1);
    } else {
      NumberDigits(rest, i - 1, littleEndian);
      DigitNext(n, i - 1, i);
    }
  }

  lemma CutHead(x: int, p: int)
    requires p > 0
    ensures x % (256 * p) % 256 == x % 256 && x % (256 * p) / 256 == x / 256 % p
  {
    var q, r := x / 256, x % 256;
    var q', r' := q / p, q % p;
    assert q == q' * p + r' && x == 256 * q + r;
    var y := 256 * r' + r;
    assert x == q' * (256 * p) + y;
    DivModUnique(x, 256 * p, q', y);
    DivModUnique(y, 256, r', r);
  }

  /** What is written for an integer are its digits too. */
  lemma {:induction false} ToBytesDigits(x: int, n: nat, i: nat, littleEndian: bool)
    requires i < n
    ensures ToBytes(x % Pow256(n), n, littleEndian)[if littleEndian then i else n - 1 - i] == DigitAt(x, i)
    decreases n
  {
    var v := x % Pow256(n);
    CutHead(x, Pow256(n - 1));
    var rest := ToBytes(v / 256, n - 1, littleEndian);
    if i == 0 {
      DigitNext(x, 0, 1);
    } else {
      ToBytesDigits(x / 256, n - 1, i - 1, littleEndian);
      DigitNext(x, i - 1, i);
    }
  }

  class Stream {
    const data: seq<byte>
    var pos: nat

    constructor (data: seq<byte>, pos: nat)
      ensures this.data == data && this.pos == pos
    {
      this.data, this.pos := data, pos;
    }

    /** What has not been read yet. */
    ghost function Rest(): seq<byte>
      reads this
    {
      if pos <= |data| then data[pos..] else []
    }

    /** `read(n)`: fewer bytes at the end of the stream. */
    method Read(n: nat) returns (b: seq<byte>)
      modifies this
      ensures b == if n <= |old(Rest())| then old(Rest())[..n] else old(Rest())
      ensures pos == old(pos) + |b| && Rest() == old(Rest())[|b|..]
    {
      if |data| <= pos { return []; }
      var end := if pos + n <= |data| then pos + n else |data|;
      b := data[pos..end];
      pos := end;
    }
  }
}
