// Powers of two and aligned blocks: the arithmetic under the page allocator.
module Powers {

  function Pow2(k: nat): (r: nat)
    ensures r >= 1
  {
    if k == 0 then 1 else 2 * Pow2(k - 1)
  }

  function Min(a: int, b: int): int {
    if a <= b then a else b
  }

  // The block of 2^k pages that starts at page h is naturally aligned.
  ghost predicate Aligned(h: nat, k: nat) {
    h % Pow2(k) == 0
  }

  lemma MulMonotone(a: int, b: int, d: nat)
    ensures a <= b ==> a * d <= b * d
  {}

  lemma DivModUnique(q: nat, d: nat, r: nat)
    requires r < d
    ensures (q * d + r) / d == q
    ensures (q * d + r) % d == r
  {
    var x := q * d + r;
    var q', r' := x / d, x % d;
    assert x == q' * d + r';
    MulMonotone(q' + 1, q, d);
    MulMonotone(q + 1, q', d);
  }

  lemma Pow2Succ(k: nat)
    ensures Pow2(k + 1) == 2 * Pow2(k)
  {}

  lemma Pow2Monotone(i: nat, j: nat)
    requires i <= j
    ensures Pow2(i) <= Pow2(j)
  {
    if i < j {
      Pow2Monotone(i, j - 1);
    }
  }

  lemma {:induction false} AlignedDown(h: nat, i: nat, j: nat)
    requires i <= j && Aligned(h, j)
    ensures Aligned(h, i)
  {
    if i < j {
      var q := h / Pow2(j);
      assert h == q * Pow2(j) == (2 * q) * Pow2(j - 1) + 0;
      DivModUnique(2 * q, Pow2(j - 1), 0);
      AlignedDown(h, i, j - 1);
    }
  }

  // The end of an aligned block is aligned again.
  lemma AlignedEnd(h: nat, k: nat)
    requires Aligned(h, k)
    ensures Aligned(h + Pow2(k), k)
  {
    var q := h / Pow2(k);
    assert h + Pow2(k) == (q + 1) * Pow2(k) + 0;
    DivModUnique(q + 1, Pow2(k), 0);
  }

  // Distinct multiples of 2^k are at least 2^k apart.
  lemma AlignedApart(a: nat, b: nat, k: nat)
    requires Aligned(a, k) && Aligned(b, k) && a < b
    ensures a + Pow2(k) <= b
  {
    var d, p, q := Pow2(k), a / Pow2(k), b / Pow2(k);
    assert a == p * d && b == q * d;
    MulMonotone(q, p, d);
    MulMonotone(p + 1, q, d);
  }

  // Two aligned blocks that overlap are nested, the smaller inside the larger.
  lemma Nested(a: nat, i: nat, b: nat, j: nat)
    requires i <= j && Aligned(a, i) && Aligned(b, j)
    requires a < b + Pow2(j) && b < a + Pow2(i)
    ensures b <= a && a + Pow2(i) <= b + Pow2(j)
  {
    AlignedEnd(b, j);
    AlignedDown(b, i, j);
    AlignedDown(b + Pow2(j), i, j);
    AlignedApart(a, b + Pow2(j), i);
    if a < b {
      AlignedApart(a, b, i);
    }
  }
}
