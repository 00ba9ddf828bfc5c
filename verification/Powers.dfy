/** Integer arithmetic that several models share: powers of two, division, counting. */
module Powers {

  function Pow2(k: nat): (p: nat)
    ensures p > 0
  {
    if k == 0 then 1 else 2 * Pow2(k - 1)
  }

  lemma {:induction false} Pow2Add(a: nat, b: nat)
    ensures Pow2(a + b) == Pow2(a) * Pow2(b)
  {
    if a == 0 {
    } else {
      Pow2Add(a - 1, b);
      assert Pow2(a) * Pow2(b) == 2 * (Pow2(a - 1) * Pow2(b));
    }
  }

  lemma {:induction false} Pow2Mono(a: nat, b: nat)
    requires a <= b
    ensures Pow2(a) <= Pow2(b)
  {
    if a == b {
    } else {
      Pow2Mono(a, b - 1);
    }
  }

  lemma OddTimesOdd(a: int, b: int)
    requires a % 2 == 1 && b % 2 == 1
    ensures (a * b) % 2 == 1
  {
    var x, y := a / 2, b / 2;
    assert a * b == (2 * x + 1) * (2 * y + 1);
    assert (2 * x + 1) * (2 * y + 1) == 2 * (x * (2 * y + 1) + y) + 1;
  }

  lemma MulHalves(a: int, b: int, c: int, d: int)
    requires a * (2 * b) == c * (2 * d)
    ensures a * b == c * d
  {
    assert a * (2 * b) == 2 * (a * b);
    assert c * (2 * d) == 2 * (c * d);
  }

  /** An odd factor can be cancelled from a multiple of a power of two. */
  lemma {:induction false} CancelOdd(a: int, b: int, c: int, q: nat) returns (d: int)
    requires a % 2 == 1
    requires a * b == c * Pow2(q)
    ensures b == d * Pow2(q)
    decreases q
  {
    if q == 0 {
      d := b;
    } else {
      var half := HalveEven(a, b, c, Pow2(q - 1));
      d := CancelOdd(a, half, c, q - 1);
      DoubleMul(d, Pow2(q - 1));
    }
  }

  lemma HalveEven(a: int, b: int, c: int, w: int) returns (half: int)
    requires a % 2 == 1 && a * b == c * (2 * w)
    ensures b == 2 * half && a * half == c * w
  {
    DoubleMul(c, w);
    if b % 2 == 1 {
      OddTimesOdd(a, b);
    }
    half := b / 2;
    MulHalves(a, half, c, w);
  }

  lemma MulAtLeast(k: int, n: int)
    requires k >= 1 && n >= 0
    ensures k * n >= n
  {
    assert k * n == (k - 1) * n + n;
    assert (k - 1) * n >= 0;
  }

  lemma MulMono(a: nat, b: nat, c: nat)
    requires a <= b
    ensures a * c <= b * c
  {
    assert b * c == a * c + (b - a) * c;
  }

  lemma DoubleMul(d: int, w: int)
    ensures d * (2 * w) == 2 * (d * w)
  {
  }

  lemma ModUnique(x: int, q: int, r: int, n: int)
    requires n > 0 && x == q * n + r && 0 <= r < n
    ensures x / n == q && x % n == r
  {
    var q', r' := x / n, x % n;
    assert x == q' * n + r';
    MulGap(q, q', n, r' - r);
  }

  lemma MulGap(q: int, q': int, n: int, d: int)
    requires n > 0 && q * n == q' * n + d && -n < d < n
    ensures q == q'
  {
    assert (q - q') * n == d;
    assert (q' - q) * n == -d;
    if q - q' >= 1 {
      MulAtLeast(q - q', n);
    } else if q' - q >= 1 {
      MulAtLeast(q' - q, n);
    }
  }

  lemma ModAdd(a: int, b: int, n: nat)
    requires n > 0
    ensures (a % n + b) % n == (a + b) % n
  {
    var q, r := (a % n + b) / n, (a % n + b) % n;
    assert a + b == (a / n) * n + q * n + r;
    assert a + b == (a / n + q) * n + r;
    ModUnique(a + b, a / n + q, r, n);
  }

  /** An injection of [0, m) into itself is onto. */
  lemma {:induction false} Pigeonhole(f: nat -> nat, m: nat, y: nat) returns (x: nat)
    requires forall i :: 0 <= i < m ==> f(i) < m
    requires forall i, j :: 0 <= i < j < m ==> f(i) != f(j)
    requires y < m
    ensures x < m && f(x) == y
  {
    var image := ImageSize(f, m);
    var all := UpTo(m);
    assert image <= all;
    if y !in image {
      assert image <= all - {y};
      SubsetSize(image, all - {y});
    }
    x :| 0 <= x < m && f(x) == y;
  }

  lemma {:induction false} ImageSize(f: nat -> nat, m: nat) returns (image: set<nat>)
    requires forall i, j :: 0 <= i < j < m ==> f(i) != f(j)
    ensures forall y :: y in image <==> exists x :: 0 <= x < m && f(x) == y
    ensures |image| == m
  {
    if m == 0 {
      image := {};
    } else {
      var smaller := ImageSize(f, m - 1);
      image := smaller + {f(m - 1)};
      assert f(m - 1) !in smaller;
    }
  }

  lemma {:induction false} UpTo(m: nat) returns (all: set<nat>)
    ensures forall y: nat :: y in all <==> y < m
    ensures |all| == m
  {
    if m == 0 {
      all := {};
    } else {
      var smaller := UpTo(m - 1);
      all := smaller + {m - 1};
    }
  }

  lemma {:induction false} SubsetSize<T>(a: set<T>, b: set<T>)
    requires a <= b
    ensures |a| <= |b|
  {
    if a == {} {
    } else {
      var x :| x in a;
      SubsetSize(a - {x}, b - {x});
    }
  }
}
