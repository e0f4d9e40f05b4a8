/** Arithmetic on machine words: powers of two, masks and wrap-around. */
module Words {
  function Pow2(k: nat): (p: nat)
    ensures p >= 1
  {
    if k == 0 then 1 else 2 * Pow2(k - 1)
  }

  newtype Byte = x: int | 0 <= x < 256

  const U32: nat := 0x1_0000_0000
  const U64: nat := 0x1_0000_0000_0000_0000

  /** Logical shift right of an unsigned word. */
  function ShiftRight(x: nat, n: nat): (r: nat) {
    Quotient(x, Pow2(n))
  }

  function Quotient(x: nat, m: nat): (q: nat)
    requires m > 0
  {
    x / m
  }

  lemma ShiftRightBelow(x: nat, n: nat, bits: nat)
    requires x < Pow2(n + bits)
    ensures ShiftRight(x, n) < Pow2(bits)
  {
    Pow2Sum(n, bits);
    hide Pow2;
    QuotientBelow(x, Pow2(n), Pow2(bits));
  }

  lemma QuotientBelow(x: nat, m: nat, n: nat)
    requires m > 0 && x < m * n
    ensures Quotient(x, m) < n
  {
    var q := x / m;
    if q >= n {
      MulAdd(n, q - n, m);
    }
  }

  /** Bitwise and. */
  function And(a: nat, b: nat): (c: nat)
  {
    if a == 0 || b == 0 then 0 else 2 * And(a / 2, b / 2) + (a % 2) * (b % 2)
  }

  lemma AndStep(a: nat, b: nat)
    requires a > 0 && b % 2 == 1
    ensures And(a, b) == 2 * And(a / 2, b / 2) + a % 2
  {
  }

  /** The low bit and the others. */
  lemma ModHalf(x: nat, h: nat)
    requires h > 0
    ensures x % (2 * h) == x % 2 + 2 * ((x / 2) % h)
  {
    ModIs(x, (x / 2) / h, 2 * ((x / 2) % h) + x % 2, 2 * h);
  }

  /** Masking with a power of two less one is the remainder. */
  lemma {:induction false} AndMask(a: nat, k: nat)
    ensures And(a, Pow2(k) - 1) == a % Pow2(k)
  {
    if a != 0 && k != 0 {
      var h := Pow2(k - 1);
      AndMask(a / 2, k - 1);
      AndStep(a, 2 * h - 1);
      assert Pow2(k) == 2 * h;
      hide And, Pow2;
      ModHalf(a, h);
    }
  }

  lemma {:induction false} AndSelf(a: nat)
    ensures And(a, a) == a
  {
    if a != 0 {
      AndSelf(a / 2);
    }
  }

  ghost predicate IsPow2(n: nat) {
    exists k: nat :: n == Pow2(k)
  }

  /** n & (n - 1) tells the powers of two. */
  lemma {:induction false} PowerOfTwoTest(n: nat)
    requires n > 0
    ensures And(n, n - 1) == 0 <==> IsPow2(n)
  {
    var h := n / 2;
    if n == 1 {
      assert Pow2(0) == 1;
    } else if n % 2 == 1 {
      AndSelf(h);
      assert And(n, n - 1) == 2 * h;
      assert forall k: nat :: k > 0 ==> Pow2(k) % 2 == 0;
    } else {
      PowerOfTwoTest(h);
      assert And(n, n - 1) == 2 * And(h, h - 1);
      if k: nat :| h == Pow2(k) {
        assert n == Pow2(k + 1);
      }
      if k: nat :| n == Pow2(k) {
        assert h == Pow2(k - 1);
      }
    }
  }

  lemma MulAdd(a: int, b: int, c: int)
    ensures (a + b) * c == a * c + b * c && c * (a + b) == c * a + c * b
  {
  }

  lemma MulAssoc(a: int, b: int, c: int)
    ensures a * b * c == a * (b * c)
  {
  }

  /** Fewer than n times c leaves room for one more. */
  lemma MulBelow(a: nat, n: nat, c: nat)
    requires a < n
    ensures a * c + c <= n * c
  {
    assert n * c == a * c + c + (n - a - 1) * c;
  }

  /** Division with remainder is unique. */
  lemma ModIs(x: int, q: int, r: int, n: int)
    requires 0 <= r < n && x == q * n + r
    ensures x % n == r && x / n == q
  {
    var d := x / n - q;
    assert x == (x / n) * n + x % n;
    assert d * n == r - x % n by {
      assert (x / n - q) * n == (x / n) * n - q * n;
    }
    assert d >= 1 ==> d * n >= n;
    assert d <= -1 ==> d * n <= -n;
  }

  lemma {:induction false} Pow2Sum(i: nat, j: nat)
    ensures Pow2(i + j) == Pow2(i) * Pow2(j)
  {
    if i != 0 {
      Pow2Sum(i - 1, j);
      assert 2 * (Pow2(i - 1) * Pow2(j)) == (2 * Pow2(i - 1)) * Pow2(j);
    }
  }

  lemma {:induction false} Pow2Monotone(i: nat, j: nat)
    requires i <= j
    ensures Pow2(i) <= Pow2(j)
  {
    if i < j {
      Pow2Monotone(i, j - 1);
    }
  }

  lemma Pow2U64()
    ensures Pow2(64) == U64
  {
    assert Pow2(4) == 16;
    hide Pow2;
    Pow2Sum(4, 4);
    Pow2Sum(8, 8);
    Pow2Sum(16, 16);
    Pow2Sum(32, 32);
  }

  /** Reducing by a multiple first changes nothing. */
  lemma ModMod(x: nat, m: nat, n: nat)
    requires m > 0 && n > 0
    ensures (x % (m * n)) % n == x % n
  {
    var q, r := x / (m * n), x % (m * n);
    assert x == q * (m * n) + r;
    var p, t := r / n, r % n;
    assert r == p * n + t;
    assert q * (m * n) + p * n == (q * m + p) * n;
    ModIs(x, q * m + p, t, n);
  }

  /** A sum may be reduced before it is taken. */
  lemma ModAdd(a: nat, b: nat, n: nat)
    requires n > 0
    ensures (a % n + b) % n == (a + b) % n
  {
    var q, r := a / n, a % n;
    var p, t := (r + b) / n, (r + b) % n;
    assert a == q * n + r && r + b == p * n + t;
    assert a + b == (q + p) * n + t by {
      assert q * n + p * n == (q + p) * n;
    }
    ModIs(a + b, q + p, t, n);
  }

  /** Moving on by less than a full round wraps at most once. */
  lemma ModStep(a: nat, i: nat, n: nat)
    requires i < n
    ensures (a + i) % n == if a % n + i < n then a % n + i else a % n + i - n
  {
    ModAdd(a, i, n);
    if a % n + i >= n {
      ModIs(a % n + i, 1, a % n + i - n, n);
    } else {
      ModIs(a % n + i, 0, a % n + i, n);
    }
  }

  /** Less than a round apart, equal remainders mean equal numbers. */
  lemma ModEqual(a: nat, b: nat, n: nat)
    requires a <= b < a + n && a % n == b % n
    ensures a == b
  {
    ModStep(a, b - a, n);
  }

  lemma ModMultiple(a: nat, b: nat, n: nat)
    requires n > 0 && a % n == 0 && b % n == 0
    ensures (a + b) % n == 0
  {
    ModAdd(a, b, n);
  }

  /** A mask finds the position in a ring although the counter wraps at 64 bits. */
  lemma RingPosition(x: nat, i: nat, bits: nat)
    requires bits <= 64
    ensures And(x % U64 + i, Pow2(bits) - 1) == (x + i) % Pow2(bits)
  {
    var n := Pow2(bits);
    AndMask(x % U64 + i, bits);
    Pow2Sum(64 - bits, bits);
    Pow2U64();
    ModMod(x, Pow2(64 - bits), n);
    ModAdd(x % U64, i, n);
    ModAdd(x, i, n);
  }

  /** The distance between two wrapped counters less than a full round apart. */
  function Distance(from: nat, to: nat): (d: nat)
    requires from < U64 && to < U64
  {
    (to + U64 - from) % U64
  }

  lemma DistanceZero(from: nat, to: nat)
    requires from < U64 && to < U64
    ensures Distance(from, to) == 0 <==> from == to
  {
  }

  lemma DistanceIs(x: nat, d: nat)
    requires d < U64
    ensures Distance(x % U64, (x + d) % U64) == d
  {
    ModStep(x, d, U64);
  }
}
