/** Numbers and finite sets: quotients and remainders with a variable divisor, and counting. */
module Arith {
  const KB: nat := 1024

  function Min(a: nat, b: nat): nat { if a < b then a else b }

  function Max(a: nat, b: nat): nat { if a < b then b else a }

  lemma {:induction false} MulStrict(a: int, b: int, w: nat)
    ensures a < b ==> a * w + w <= b * w
    decreases b - a
  {
    if a + 1 < b {
      MulStrict(a, b - 1, w);
      assert (b - 1) * w + w == b * w;
    } else if a + 1 == b {
      assert (a + 1) * w == a * w + w;
    }
  }

  /** The quotient and the remainder are determined by where n lies between multiples of w. */
  lemma QuotientUnique(w: nat, q: nat, r: nat)
    requires r < w
    ensures (q * w + r) / w == q && (q * w + r) % w == r
  {
    var n := q * w + r;
    MulStrict(n / w, q, w);
    MulStrict(q, n / w, w);
  }

  lemma DivMod(n: nat, w: nat)
    requires w > 0
    ensures n == (n / w) * w + n % w && 0 <= n % w < w
  {}

  lemma DivMonotone(a: nat, b: nat, w: nat)
    requires w > 0 && a <= b
    ensures a / w <= b / w
  {
    MulStrict(b / w, a / w, w);
  }

  lemma MultiplesAddUp(a: nat, b: nat, w: nat)
    requires w > 0 && a % w == 0
    ensures (a + b) % w == b % w && (a + b) / w == a / w + b / w
    ensures b < w ==> (a + b) / w == a / w
  {
    var (p, q) := (a / w, b / w);
    assert a + b == (p + q) * w + b % w by {
      assert (p + q) * w == p * w + q * w;
    }
    QuotientUnique(w, p + q, b % w);
    if b < w {
      QuotientUnique(w, 0, b);
    }
  }

  /** Between two different multiples of w there is room for w. */
  lemma MultiplesApart(a: nat, b: nat, w: nat)
    requires w > 0 && a % w == 0 && b % w == 0 && a < b
    ensures a + w <= b
  {
    MulStrict(a / w, b / w, w);
    MulStrict(b / w, a / w, w);
  }

  lemma SubsetBySize(a: set<int>, b: set<int>)
    requires a <= b
    ensures |a| == |b| <==> a == b
  {
    assert |b - a| == |b| - |a|;
  }
}
