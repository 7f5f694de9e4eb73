/** Small definitions shared by every component of the model. */
module Common {
  datatype Option<+T> = None | Some(value: T)

  /** A Python exception or C error code becomes the `Err` case. */
  datatype Result<+T, +E> = Ok(value: T) | Err(error: E)

  /** Strictly increasing sequences, the shape of every bisected offset list. */
  predicate StrictlySorted(s: seq<nat>) {
    forall i, j :: 0 <= i < j < |s| ==> s[i] < s[j]
  }

  /** `list.insert(i, x)` */
  function Insert<T>(s: seq<T>, i: nat, x: T): (r: seq<T>)
    requires i <= |s|
    ensures |r| == |s| + 1 && r[i] == x
    ensures forall k :: 0 <= k < i ==> r[k] == s[k]
    ensures forall k :: i < k < |r| ==> r[k] == s[k - 1]
    ensures forall y :: y in s ==> y in r
    ensures forall y :: y in r ==> y == x || y in s
  {
    assert s == s[..i] + s[i..];
    s[..i] + [x] + s[i..]
  }

  /** Inserting at the bisection point keeps the list strictly increasing. */
  lemma InsertKeepsSorted(s: seq<nat>, i: nat, x: nat)
    requires StrictlySorted(s) && i <= |s|
    requires forall k :: 0 <= k < i ==> s[k] < x
    requires forall k :: i <= k < |s| ==> x < s[k]
    ensures StrictlySorted(Insert(s, i, x))
  {
  }

  /** `bisect.bisect_right` on a strictly increasing list. */
  method BisectRight(a: seq<nat>, x: nat) returns (i: nat)
    requires StrictlySorted(a)
    ensures i <= |a|
    ensures forall k :: 0 <= k < i ==> a[k] <= x
    ensures forall k :: i <= k < |a| ==> x < a[k]
  {
    var lo, hi := 0, |a|;
    while lo < hi
      invariant 0 <= lo <= hi <= |a|
      invariant forall k :: 0 <= k < lo ==> a[k] <= x
      invariant forall k :: hi <= k < |a| ==> x < a[k]
    {
      var mid := (lo + hi) / 2;
      if x < a[mid] { hi := mid; } else { lo := mid + 1; }
    }
    i := lo;
  }

  // ----- sequences -----

  lemma Regroup<T>(a: seq<T>, c: T, b: seq<T>)
    ensures a + ([c] + b) == a + [c] + b
  {
  }

  function Count<T(==)>(s: seq<T>, x: T): nat {
    if s == [] then 0 else Count(s[..|s| - 1], x) + if s[|s| - 1] == x then 1 else 0
  }

  lemma CountSnoc<T>(s: seq<T>, i: nat, x: T)
    requires i < |s|
    ensures Count(s[..i + 1], x) == Count(s[..i], x) + if s[i] == x then 1 else 0
  {
    assert s[..i + 1][..i] == s[..i];
  }

  /** In a session of commands, generator `k` is resumed only after it has been opened. */
  ghost predicate ResumesOpened<T>(cmds: seq<T>, open: T, resume: nat -> T) {
    forall i, k: nat {:trigger cmds[i], resume(k)} :: 0 <= i < |cmds| && cmds[i] == resume(k) ==> k < Count(cmds[..i], open)
  }

  lemma {:induction false} NotYetOpened<T>(cmds: seq<T>, open: T, resume: nat -> T, i: nat, k: nat)
    requires ResumesOpened(cmds, open, resume) && i <= |cmds| && Count(cmds[..i], open) <= k
    ensures Count(cmds[..i], resume(k)) == 0
    decreases i
  {
    if i > 0 {
      CountSnoc(cmds, i - 1, open);
      CountSnoc(cmds, i - 1, resume(k));
      NotYetOpened(cmds, open, resume, i - 1, k);
    }
  }

  // ----- numbers -----

  function Pow2(k: nat): (p: nat)
    ensures p > 0
  {
    if k == 0 then 1 else 2 * Pow2(k - 1)
  }

  /** Bit `k` of `v`. */
  function Bit(v: nat, k: nat): bool {
    if k == 0 then v % 2 == 1 else Bit(v / 2, k - 1)
  }

  /** Dividing twice is dividing by the product. */
  lemma DivDiv(x: int, a: int, b: int)
    requires a > 0 && b > 0
    ensures a * b > 0 && x / a / b == x / (a * b)
  {
    var q, r := x / a, x % a;
    var q', r' := q / b, q % b;
    assert q == q' * b + r' && x == q * a + r;
    assert (q' * b + r') * a + r == q' * (a * b) + (r' * a + r);
    AtLeastOnce(b, a);
    assert r' * a + r < a * b by {
      AtLeastOnce(b - r', a);
      assert (b - r') * a == a * b - r' * a;
    }
    DivModUnique(x, a * b, q', r' * a + r);
  }

  /** A bit is a binary digit. */
  lemma {:induction false} BitIsDigit(v: nat, k: nat)
    ensures Bit(v, k) <==> v / Pow2(k) % 2 == 1
    decreases k
  {
    if k > 0 {
      BitIsDigit(v / 2, k - 1);
      DivDiv(v, 2, Pow2(k - 1));
    }
  }

  lemma DivModUnique(n: int, d: int, q: int, r: int)
    requires d > 0 && n == q * d + r && 0 <= r < d
    ensures n / d == q && n % d == r
  {
    var q', r' := n / d, n % d;
    assert n == q' * d + r' && 0 <= r' < d;
    assert (q - q') * d == r' - r && (q' - q) * d == r - r';
    if q > q' { AtLeastOnce(q - q', d); } else if q < q' { AtLeastOnce(q' - q, d); }
  }

  lemma AtLeastOnce(k: int, d: int)
    requires k >= 1 && d > 0
    ensures k * d >= d
  {
    assert (k - 1) * d >= 0;
  }
}
