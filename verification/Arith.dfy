/** Integer facts with symbolic divisors, and the byte type. */
module Arith {

  type byte = b: int | 0 <= b < 256

  const TWO_32: nat := 0x1_0000_0000
  const TWO_64: nat := 0x1_0000_0000_0000_0000

  datatype Option<+T> = None | Some(value: T)

  function Min(a: int, b: int): int { if a < b then a else b }

  function Max(a: int, b: int): int { if a < b then b else a }

  /** The least number of units of size u that hold n. */
  function CeilDiv(n: nat, u: nat): nat
    requires u > 0
  {
    (n + u - 1) / u
  }

  function Zeros(n: nat): (z: seq<byte>)
    ensures |z| == n
  {
    seq(n, _ => 0)
  }

  function Repeated(c: char, n: nat): (s: string)
    ensures |s| == n && forall i :: 0 <= i < n ==> s[i] == c
  {
    seq(n, _ => c)
  }

  /** A position below 2^64 does not wrap. */
  lemma NoWrap(p: nat)
    requires p < TWO_64
    ensures p % TWO_64 == p
  {
  }

  lemma MulMono(a: int, b: int, u: nat)
    requires a <= b
    ensures a * u <= b * u
  {
  }

  /** a full unit fits between a and any larger b */
  lemma MulGap(a: int, b: int, u: nat)
    requires a < b
    ensures a * u + u <= b * u
  {
    MulMono(a + 1, b, u);
    assert (a + 1) * u == a * u + u;
  }

  lemma MulNonneg(a: nat, b: nat)
    ensures a * b >= 0
  {
  }

  /** Quotient and remainder are the only ones that fit. */
  lemma DivIs(n: nat, u: nat, q: nat, r: nat)
    requires r < u
    requires n == q * u + r
    ensures n / u == q && n % u == r
  {
    var q', r' := n / u, n % u;
    assert n == u * q' + r' && 0 <= r' < u;
    assert u * q' == q' * u;
    if q' < q {
      MulGap(q', q, u);
    } else if q < q' {
      MulGap(q, q', u);
    }
  }

  lemma DivMod(n: nat, u: nat)
    requires u > 0
    ensures n == (n / u) * u + n % u
    ensures 0 <= n % u < u && n / u >= 0
  {
    assert n == u * (n / u) + n % u;
    assert u * (n / u) == (n / u) * u;
  }

  lemma DivMono(a: nat, b: nat, u: nat)
    requires u > 0 && a <= b
    ensures a / u <= b / u
  {
    DivMod(a, u);
    DivMod(b, u);
    if b / u < a / u {
      MulGap(b / u, a / u, u);
    }
  }

  lemma DivLess(n: nat, u: nat, q: nat)
    requires u > 0
    ensures n < q * u <==> n / u < q
  {
    DivMod(n, u);
    if n / u < q {
      MulGap(n / u, q, u);
    } else {
      MulMono(q, n / u, u);
    }
  }

  /** A sum may be cut to 64 bits at every step or at the end. */
  lemma ModAdd(a: nat, d: nat)
    ensures (a % TWO_64 + d) % TWO_64 == (a + d) % TWO_64
  {
    var x := a % TWO_64 + d;
    DivMod(a, TWO_64);
    DivMod(x, TWO_64);
    DivIs(a + d, TWO_64, a / TWO_64 + x / TWO_64, x % TWO_64);
  }

  lemma CeilDivBounds(n: nat, u: nat)
    requires u > 0
    ensures n <= CeilDiv(n, u) * u < n + u
  {
    DivMod(n + u - 1, u);
  }

  /** CeilDiv(n, u) is the least q with n <= q * u. */
  lemma CeilDivLeast(n: nat, u: nat, q: nat)
    requires u > 0
    ensures n <= q * u <==> CeilDiv(n, u) <= q
  {
    CeilDivBounds(n, u);
    var c := CeilDiv(n, u);
    if c <= q {
      MulMono(c, q, u);
    } else {
      MulMono(q, c - 1, u);
      assert (c - 1) * u == c * u - u;
    }
  }
}
