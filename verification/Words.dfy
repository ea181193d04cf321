/** Machine-word arithmetic written out over the natural numbers: powers of two,
    bitwise or, and the shifts of a `uint32`. */
module Words {

  const U32: nat := 0x1_0000_0000

  type byte = b: int | 0 <= b < 256

  function Pow2(n: nat): (r: nat)
    ensures r > 0
  {
    if n == 0 then 1 else 2 * Pow2(n - 1)
  }

  lemma {:induction false} Pow2Add(a: nat, b: nat)
    ensures Pow2(a + b) == Pow2(a) * Pow2(b)
  {
    if a == 0 {
    } else {
      Pow2Add(a - 1, b);
    }
  }

  lemma {:induction false} Pow2Monotone(a: nat, b: nat)
    requires a <= b
    ensures Pow2(a) <= Pow2(b)
  {
    if a == b {
    } else {
      Pow2Monotone(a, b - 1);
    }
  }

  /** `x | y` */
  function BitOr(x: nat, y: nat): (r: nat)
  {
    if x == 0 then y
    else if y == 0 then x
    else (if x % 2 == 1 || y % 2 == 1 then 1 else 0) + 2 * BitOr(x / 2, y / 2)
  }

  /** `x << k` on a `uint32`: the bits shifted out at the top are lost. */
  function Shl32(x: nat, k: nat): (r: nat)
    ensures r < U32
  {
    (x * Pow2(k)) % U32
  }

  /** `x >> k` */
  function Shr(x: nat, k: nat): nat
  {
    DivNonNegative(x, Pow2(k));
    x / Pow2(k)
  }

  lemma DivNonNegative(x: nat, d: nat)
    requires d > 0
    ensures x / d >= 0
  {
  }

  /** Or-ing values whose bits do not overlap is addition. */
  lemma {:induction false} BitOrDisjoint(lo: nat, hi: nat, k: nat)
    requires lo < Pow2(k)
    ensures BitOr(lo, hi * Pow2(k)) == lo + hi * Pow2(k)
    ensures BitOr(hi * Pow2(k), lo) == lo + hi * Pow2(k)
  {
    if k == 0 {
    } else {
      DoubleShift(hi, k);
      BitOrDisjoint(lo / 2, hi, k - 1);
      BitOrHalves(lo, hi * Pow2(k - 1));
    }
  }

  lemma DoubleShift(x: nat, k: nat)
    requires k > 0
    ensures x * Pow2(k) == 2 * (x * Pow2(k - 1))
  {
  }

  lemma BitOrHalves(x: nat, h: nat)
    ensures BitOr(x, 2 * h) == x % 2 + 2 * BitOr(x / 2, h)
    ensures BitOr(2 * h, x) == x % 2 + 2 * BitOr(h, x / 2)
  {
    BitOrStep(x, 2 * h);
    BitOrStep(2 * h, x);
    assert 2 * h / 2 == h;
    assert 2 * h % 2 == 0;
  }

  lemma BitOrStep(x: nat, y: nat)
    ensures BitOr(x, y) == (if x % 2 == 1 || y % 2 == 1 then 1 else 0) + 2 * BitOr(x / 2, y / 2)
  {
  }

  lemma ConcatAssociates<T>(a: seq<T>, b: seq<T>, c: seq<T>)
    ensures (a + b) + c == a + (b + c)
  {
  }

  // ----- Division -----------------------------------------------------------

  lemma MulAtLeast(k: int, d: nat)
    requires k >= 1
    ensures k * d >= d
  {
    assert (k - 1) * d >= 0;
    assert k * d == (k - 1) * d + d;
  }

  lemma DivideUnique(x: nat, d: nat, q: int, r: nat)
    requires d > 0 && x == q * d + r && r < d
    ensures x / d == q && x % d == r
  {
    var p, m := x / d, x % d;
    assert x == p * d + m;
    assert (q - p) * d == m - r;
    if q > p {
      MulAtLeast(q - p, d);
    } else if q < p {
      MulAtLeast(p - q, d);
    }
  }

  lemma HalfThenDivide(v: nat, d: nat)
    requires d > 0
    ensures v / 2 / d == v / (2 * d)
  {
    var q, r := v / (2 * d), v % (2 * d);
    assert v == q * (2 * d) + r;
    assert q * (2 * d) == 2 * (q * d);
    assert v / 2 == q * d + r / 2;
    DivideUnique(v / 2, d, q, r / 2);
  }

  lemma QuotientBelow(x: nat, d: nat, bound: nat)
    requires d > 0 && x < bound * d
    ensures x / d < bound
  {
    assert x == (x / d) * d + x % d;
    ProductOrder(x / d, bound, d);
  }

  lemma ProductOrder(a: nat, b: nat, d: nat)
    ensures a >= b ==> a * d >= b * d
  {
    if a >= b {
      assert a * d == b * d + (a - b) * d;
    }
  }
}
