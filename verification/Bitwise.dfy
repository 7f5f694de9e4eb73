/** Bitwise operations on naturals, as Python's integers have them, and their relation to arithmetic. */
module Bitwise {
  import opened Common

  datatype Op = And | Or | Xor | AndNot

  function BitOf(op: Op, x: nat, y: nat): (r: nat)
    ensures r < 2
  {
    match op
    case And => if x % 2 == 1 && y % 2 == 1 then 1 else 0
    case Or => if x % 2 == 1 || y % 2 == 1 then 1 else 0
    case Xor => if x % 2 != y % 2 then 1 else 0
    case AndNot => if x % 2 == 1 && y % 2 == 0 then 1 else 0
  }

  function Bits(op: Op, a: nat, b: nat): nat {
    if a == 0 && b == 0 then 0 else BitOf(op, a, b) + 2 * Bits(op, a / 2, b / 2)
  }

  lemma HalfLow(a: nat, p: nat)
    requires p > 0
    ensures a % (2 * p) / 2 == a / 2 % p && a % (2 * p) % 2 == a % 2 && (a % (2 * p) == a % 2 + 2 * (a / 2 % p))
  {
    var q := a / 2 / p;
    assert a / 2 == q * p + a / 2 % p;
    var r := a % 2 + 2 * (a / 2 % p);
    assert a == q * (2 * p) + r && 0 <= r < 2 * p;
    DivModUnique(a, 2 * p, q, r);
  }

  lemma BitOfLow(op: Op, a: nat, b: nat)
    ensures BitOf(op, a, b) == BitOf(op, a % 2, b % 2)
  {
  }

  lemma Halves(n: nat, bit: nat, rest: nat)
    requires bit < 2 && n == bit + 2 * rest
    ensures n % 2 == bit && n / 2 == rest
  {
  }

  lemma FirstBit(op: Op, a: nat, b: nat)
    ensures Bits(op, a, b) == BitOf(op, a % 2, b % 2) + 2 * Bits(op, a / 2, b / 2)
    ensures Bits(op, a, b) % 2 == BitOf(op, a % 2, b % 2) && Bits(op, a, b) / 2 == Bits(op, a / 2, b / 2)
  {
    BitOfLow(op, a, b);
    if a == 0 && b == 0 {
      assert a / 2 == 0 && b / 2 == 0;
    } else {
      Halves(Bits(op, a, b), BitOf(op, a, b), Bits(op, a / 2, b / 2));
    }
  }

  /** The low bits of the result depend on the low bits of the operands. */
  lemma {:induction false} LowBits(op: Op, a: nat, b: nat, k: nat)
    ensures Bits(op, a, b) % Pow2(k) == Bits(op, a % Pow2(k), b % Pow2(k))
    decreases k
  {
    if k == 0 {
      assert Pow2(0) == 1;
    } else {
      var p := Pow2(k - 1);
      LowBits(op, a / 2, b / 2, k - 1);
      HalfLow(a, p);
      HalfLow(b, p);
      HalfLow(Bits(op, a, b), p);
      FirstBit(op, a, b);
      FirstBit(op, a % (2 * p), b % (2 * p));
    }
  }

  lemma {:induction false} AndBounded(a: nat, b: nat)
    ensures Bits(And, a, b) <= b
    decreases a + b
  {
    if a != 0 || b != 0 { AndBounded(a / 2, b / 2); }
  }

  lemma {:induction false} XorZero(h: nat)
    ensures Bits(Xor, h, 0) == h
  {
    if h != 0 { XorZero(h / 2); }
  }

  lemma {:induction false} OthersWithZero(h: nat)
    ensures Bits(AndNot, h, 0) == h && Bits(And, h, 0) == 0
  {
    if h != 0 { OthersWithZero(h / 2); }
  }

  lemma {:induction false} AndZero(h: nat)
    ensures Bits(And, 0, h) == 0
  {
    if h != 0 { AndZero(h / 2); }
  }

  /** Operands cut at bit `k` can be combined part by part. */
  lemma {:induction false} Parts(op: Op, k: nat, n: nat, a: nat, x: nat, m: nat, b: nat, y: nat, r: nat)
    requires CutAt(n, k, a, x) && CutAt(m, k, b, y) && r == Bits(op, a, b)
    ensures CutAt(Bits(op, n, m), k, r, Bits(op, x, y))
    decreases k
  {
    if k == 0 {
      CutNowhere(n, a, x);
      CutNowhere(m, b, y);
      BitsOfZero(op);
    } else {
      CutHalf(n, k, a, x);
      CutHalf(m, k, b, y);
      Parts(op, k - 1, n / 2, a, x / 2, m / 2, b, y / 2, r);
      FirstBit(op, n, m);
      FirstBit(op, x, y);
      Join(Bits(op, n, m), k, r, Bits(op, x, y));
    }
  }

  /** `n` is `a` followed by the `k` bits of `x`. */
  ghost predicate CutAt(n: nat, k: nat, a: nat, x: nat) { x < Pow2(k) && n == a * Pow2(k) + x }

  lemma CutNowhere(n: nat, a: nat, x: nat)
    ensures CutAt(n, 0, a, x) <==> n == a && x == 0
  {
    assert Pow2(0) == 1;
  }

  lemma BitsOfZero(op: Op)
    ensures Bits(op, 0, 0) == 0
  {
  }

  lemma CutHalf(n: nat, k: nat, a: nat, x: nat)
    requires k > 0 && CutAt(n, k, a, x)
    ensures CutAt(n / 2, k - 1, a, x / 2) && n % 2 == x % 2
  {
    var q := a * Pow2(k - 1);
    assert n == 2 * q + x;
  }

  lemma Join(n: nat, k: nat, a: nat, x: nat)
    requires k > 0 && CutAt(n / 2, k - 1, a, x / 2) && n % 2 == x % 2
    ensures CutAt(n, k, a, x)
  {
    var q := a * Pow2(k - 1);
    assert a * Pow2(k) == 2 * q;
    assert n == 2 * (n / 2) + n % 2 && x == 2 * (x / 2) + x % 2;
  }

  lemma {:induction false} OrZero(h: nat)
    ensures Bits(Or, h, 0) == h && Bits(Or, 0, h) == h
  {
    if h != 0 { OrZero(h / 2); }
  }

  /** Or-ing shifted bits to a number below them adds them. */
  lemma OrAdds(v: nat, x: nat, k: nat)
    requires v < Pow2(k)
    ensures Bits(Or, v, x * Pow2(k)) == v + x * Pow2(k)
  {
    OrZero(x);
    OrZero(v);
    Parts(Or, k, v, 0, v, x * Pow2(k), x, 0, x);
  }

  /** Clearing bits in a number of ones subtracts them. */
  lemma {:induction false} ClearSubtracts(v: nat, k: nat)
    requires v < Pow2(k)
    ensures Bits(AndNot, Pow2(k) - 1, v) == Pow2(k) - 1 - v
    decreases k
  {
    if k > 0 {
      var ones := Pow2(k) - 1;
      assert ones / 2 == Pow2(k - 1) - 1 && ones % 2 == 1;
      ClearSubtracts(v / 2, k - 1);
      FirstBit(AndNot, ones, v);
    }
  }
}
