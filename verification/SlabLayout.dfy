// src/mm/slab.c, __register_slab_type: how many objects a slab holds and how many
// pages it takes. Unsigned and signed 32-bit wrap-around are written out.
module SlabLayout {
  import opened Powers
  import opened Slab

  const PAGE_STRUCT: nat := 24   // sizeof(struct page), the divisor of the starting estimate
  const OBJNUM_PER_SLAB: nat := 8
  const TWO32: int := 0x1_0000_0000

  function Unsigned(x: int): nat { x % TWO32 }

  function Signed(x: int): int {
    if x % TWO32 < 0x8000_0000 then x % TWO32 else x % TWO32 - TWO32
  }

  // The position of the highest set bit (the bsr instruction).
  function Bsr(x: nat): (h: nat)
    requires x > 0
    ensures Pow2(h) <= x < Pow2(h + 1)
  {
    if x == 1 then 0 else 1 + Bsr(x / 2)
  }

  // ceil2n: (x + mask) & ~mask, with mask the bits below the highest one.
  function Ceil2n(x: nat): nat
    requires x > 0
  {
    var p := Pow2(Bsr(x));
    (x + p - 1) / p * p
  }

  // The least power of two that is not below x.
  lemma Ceil2nIsLeast(x: nat) returns (k: nat)
    requires x > 0
    ensures Ceil2n(x) == Pow2(k) >= x && Bsr(Pow2(k)) == k
    ensures forall j: nat :: x <= Pow2(j) ==> k <= j
  {
    hide Bsr;
    var h := Bsr(x);
    k := if x == Pow2(h) then h else h + 1;
    if x == Pow2(h) {
      assert x + Pow2(h) - 1 == 1 * Pow2(h) + (Pow2(h) - 1);
      DivModUnique(1, Pow2(h), Pow2(h) - 1);
    } else {
      assert x + Pow2(h) - 1 == 2 * Pow2(h) + (x - Pow2(h) - 1);
      DivModUnique(2, Pow2(h), x - Pow2(h) - 1);
    }
    BsrOfPow2(k);
    forall j: nat | x <= Pow2(j)
      ensures k <= j
    {
      if j < k {
        Pow2Monotone(j, k - 1);
      }
    }
  }

  lemma {:induction false} BsrOfPow2(k: nat)
    ensures Bsr(Pow2(k)) == k
  {
    if k > 0 {
      BsrOfPow2(k - 1);
      assert Pow2(k) / 2 == Pow2(k - 1);
    }
  }

  function CeilDiv(a: nat, b: nat): nat
    requires b > 0
  {
    a / b + if a % b == 0 then 0 else 1
  }

  // C's division of signed integers: toward zero.
  function Quot(a: int, b: nat): int
    requires b > 0
  {
    if a >= 0 then a / b else -((-a) / b)
  }

  datatype Layout = Layout(objnum: nat, gfporder: nat)

  // x: how many objects make way for the index array, d bytes an object with its entry.
  function Surplus(padden: int, most: nat, d: nat): nat
    requires d > 0
  {
    if Quot(padden, 2) >= most then 0 else CeilDiv(Unsigned(2 * most - padden), d)
  }

  // The arithmetic of __register_slab_type for an aligned object size, with the
  // starting estimate `most` (objnum_most) as a parameter.
  function Objnum(objsize: nat, size: nat, most: nat): int {
    var objStart := Unsigned(size - objsize * most);
    var padden := Signed(objStart - SLAB_HEADER);
    Signed(most - Surplus(padden, most, objsize + 2))
  }

  // least_pages of size2pages, whose products and sums are signed; a bit scan of nothing
  // leaves the page count open where it is not positive.
  function LeastPages(objsize: nat): int {
    Signed(Signed(objsize * OBJNUM_PER_SLAB) + PAGE - 1) / PAGE
  }

  function Estimate(size: nat): nat
    requires size >= SLAB_HEADER
  {
    (size - SLAB_HEADER) / PAGE_STRUCT
  }

  // The number of objects is a u16.
  function ObjnumStored(objsize: nat, size: nat): nat
    requires size >= SLAB_HEADER
  {
    Objnum(objsize, size, Estimate(size)) % 65536
  }

  lemma Ceil2nAtLeast(x: nat)
    requires x > 0
    ensures Ceil2n(x) >= x
  {
    var _ := Ceil2nIsLeast(x);
  }

  function Register(objsize: nat): Layout
    requires LeastPages(objsize) > 0
  {
    var pages := Ceil2n(LeastPages(objsize));
    Ceil2nAtLeast(LeastPages(objsize));
    var size := pages * PAGE;
    Layout(ObjnumStored(objsize, size), Bsr(pages))
  }

  lemma DivBounds(a: int, d: nat)
    requires d > 0
    ensures a / d * d <= a < a / d * d + d
  {}

  lemma DivUnique(a: int, d: nat, q: int)
    requires d > 0 && q * d <= a < (q + 1) * d
    ensures a / d == q
  {
    DivBounds(a, d);
    MulMonotone(a / d + 1, q, d);
    MulMonotone(q + 1, a / d, d);
  }

  // The estimate's objects overlap what is left of the header by no more than an int can say.
  predicate InRange(size: int, product: int) {
    product - (size - SLAB_HEADER) <= 0x8000_0000
  }

  // Then the wrap-around of the C arithmetic has no effect.
  lemma NoWrap(size: int, product: int)
    requires SLAB_HEADER <= size <= 0x8000_0000 && 0 <= product && InRange(size, product)
    ensures Signed(Unsigned(size - product) - SLAB_HEADER) == size - product - SLAB_HEADER
  {
    assert (Unsigned(size - product) - SLAB_HEADER) % TWO32 == (size - product - SLAB_HEADER) % TWO32 by {
      WrapOnce(size - product, SLAB_HEADER);
    }
  }

  lemma WrapOnce(a: int, b: int)
    ensures (a % TWO32 - b) % TWO32 == (a - b) % TWO32
  {
    var q := a / TWO32;
    assert a == q * TWO32 + a % TWO32;
    ModShift(a % TWO32 - b, q);
  }

  lemma ModShift(x: int, k: int)
    ensures (x + k * TWO32) % TWO32 == x % TWO32
  {}

  lemma SignedSmall(v: int)
    requires 0 <= v < 0x8000_0000
    ensures Signed(v) == v
  {}

  lemma QuotBelow(padden: int, most: nat)
    ensures Quot(padden, 2) >= most ==> padden + (if most == 0 then 1 else 0) >= 2 * most
    ensures Quot(padden, 2) < most ==> padden < 2 * most
  {}

  // The number of objects taken off the estimate; d is the cost of one object,
  // its entry in the index array included.
  lemma Excess(right: nat, product: nat, most: nat, d: nat)
    requires d > 0 && most * d == product + 2 * most
    requires product - right <= 0x8000_0000 && most < 0x4000_0000 && right < 0x8000_0000
    ensures most - Surplus(right - product, most, d) == Min(most, right / d) >= 0
  {
    hide Surplus, CeilDiv, Quot, Min;
    var cost := most * d;
    if cost <= right {
      AllFit(right, cost, most, d);
    } else {
      ExcessOver(right, cost, most, d);
    }
    SurplusOf(right, product, cost, most, d, right / d);
  }

  lemma SurplusOf(right: nat, product: nat, cost: nat, most: nat, d: nat, q: int)
    requires d > 0 && cost == product + 2 * most
    requires product - right <= 0x8000_0000 && most < 0x4000_0000 && right < 0x8000_0000 && 0 <= q
    requires if cost <= right then most <= q else most - CeilDiv(cost - right, d) == q < most
    ensures most - Surplus(right - product, most, d) == Min(most, q) >= 0
  {
    hide CeilDiv, Quot;
    QuotBelow(right - product, most);
    if right < cost {
      assert Unsigned(cost - right) == cost - right;
    }
  }

  lemma AllFit(right: nat, cost: nat, most: nat, d: nat)
    requires d > 0 && cost == most * d <= right
    ensures most <= right / d
  {
    DivBounds(right, d);
    MulMonotone(right / d + 1, most, d);
  }

  lemma ExcessOver(right: nat, cost: nat, most: nat, d: nat)
    requires d > 0 && cost == most * d && right < cost
    ensures most - CeilDiv(cost - right, d) == right / d < most
  {
    var q := right / d;
    DivBounds(right, d);
    MulMonotone(most, q, d);
    var x := most - q;
    assert x * d == cost - q * d;
    assert (x - 1) * d == x * d - d;
    CeilDivIs(cost - right, d, x);
  }

  lemma ObjnumInRange(objsize: nat, size: nat, most: nat)
    requires SLAB_HEADER <= size <= 0x8000_0000 && most < 0x4000_0000 && InRange(size, objsize * most)
    ensures Objnum(objsize, size, most) == Min(most, (size - SLAB_HEADER) / (objsize + 2))
  {
    hide Objnum, Surplus, Signed;
    Distribute(objsize, most);
    Excess(size - SLAB_HEADER, objsize * most, most, objsize + 2);
    ObjnumOf(objsize, size, most);
    SignedSmall(Min(most, (size - SLAB_HEADER) / (objsize + 2)));
  }

  // Out of range the surplus comes out too small, by 2^32 bytes' worth of objects at least.
  lemma ObjnumOutOfRange(objsize: nat, size: nat, most: nat)
    requires SLAB_HEADER <= size <= 0x8000_0000 && most < 0x4000_0000 && !InRange(size, objsize * most)
    requires objsize < 0x8000_0000
    ensures 0 <= Objnum(objsize, size, most) <= most
    ensures Objnum(objsize, size, most) * (objsize + 2) > size - SLAB_HEADER
    ensures (most - Objnum(objsize, size, most)) * (objsize + 2) < 0x8000_0000 + 2 * most + (objsize + 2)
  {
    hide Objnum, Surplus, CeilDiv, Quot, Signed, Unsigned;
    var d, right, product := objsize + 2, size - SLAB_HEADER, objsize * most;
    Distribute(objsize, most);
    var padden := Signed(Unsigned(size - product) - SLAB_HEADER);
    Wrapped(size, product);
    var x := Surplus(padden, most, d);
    SurplusSmall(padden, most, d);
    TooMany(right, product, most, d, padden, x);
    ObjnumIs(objsize, size, most, padden, x);
  }

  lemma ObjnumIs(objsize: nat, size: nat, most: nat, padden: int, x: nat)
    requires padden == Signed(Unsigned(size - objsize * most) - SLAB_HEADER)
    requires x == Surplus(padden, most, objsize + 2) <= most < 0x4000_0000
    ensures Objnum(objsize, size, most) == most - x
  {
    hide Surplus;
    SignedSmall(most - x);
  }

  // padden is too large by a multiple of 2^32.
  lemma Wrapped(size: int, product: int)
    requires SLAB_HEADER <= size <= 0x8000_0000 && 0 <= product && !InRange(size, product)
    ensures
      var padden := Signed(Unsigned(size - product) - SLAB_HEADER);
      -0x8000_0000 <= padden < 0x8000_0000 && size - SLAB_HEADER - product + TWO32 <= padden
  {
    var v := size - product - SLAB_HEADER;
    WrapOnce(size - product, SLAB_HEADER);
    assert Signed(Unsigned(size - product) - SLAB_HEADER) == Signed(v);
    SignedShift(v);
  }

  lemma SignedShift(v: int)
    requires v < -0x8000_0000
    ensures -0x8000_0000 <= Signed(v) < 0x8000_0000 && v + TWO32 <= Signed(v)
  {
    var q := v / TWO32;
    assert v == q * TWO32 + v % TWO32;
    assert q <= -1;
  }

  lemma SurplusSmall(padden: int, most: nat, d: nat)
    requires -0x8000_0000 <= padden < 0x8000_0000 && most < 0x4000_0000 && d > 0
    ensures
      var x := Surplus(padden, most, d);
      x > 0 ==> x * d < 2 * most - padden + d
  {
    hide CeilDiv, Quot;
    QuotBelow(padden, most);
    if Quot(padden, 2) < most {
      assert Unsigned(2 * most - padden) == 2 * most - padden;
      CeilDivBelow(2 * most - padden, d);
    }
  }

  lemma CeilDivBelow(a: nat, d: nat)
    requires d > 0
    ensures CeilDiv(a, d) * d < a + d
  {
    DivBounds(a, d);
    assert a % d == a - a / d * d;
    assert (a / d + 1) * d == a / d * d + d;
  }

  lemma TooMany(right: nat, product: nat, most: nat, d: nat, padden: int, x: nat)
    requires 0 < d <= 0x8000_0001 && most * d == product + 2 * most && right < 0x8000_0000
    requires product - right > 0x8000_0000 && -0x8000_0000 <= padden && right - product + TWO32 <= padden
    requires x > 0 ==> x * d < 2 * most - padden + d
    ensures x <= most && (most - x) * d > right && x * d < 0x8000_0000 + 2 * most + d
  {
    assert (most - x) * d == most * d - x * d;
    if x > 0 {
      assert (most - x) * d > right + TWO32 - d;
      if x > most { MulMonotone(most - x, 0, d); }
    }
  }

  // The correction by x turns an estimate into min(estimate, what really fits) if and only if
  // the estimate's objects are in range; if they are not, more objects than fit come out.
  lemma ObjnumIsMin(objsize: nat, size: nat, most: nat)
    requires SLAB_HEADER <= size <= 0x8000_0000 && objsize < 0x8000_0000 && most < 0x4000_0000
    ensures Objnum(objsize, size, most) == Min(most, (size - SLAB_HEADER) / (objsize + 2))
      <==> InRange(size, objsize * most)
    ensures Objnum(objsize, size, most) * (objsize + 2) <= size - SLAB_HEADER <==> InRange(size, objsize * most)
  {
    hide Objnum, InRange;
    var d, right := objsize + 2, size - SLAB_HEADER;
    DivBounds(right, d);
    MulMonotone(Min(most, right / d), right / d, d);
    if InRange(size, objsize * most) {
      ObjnumInRange(objsize, size, most);
    } else {
      ObjnumOutOfRange(objsize, size, most);
    }
  }

  lemma Distribute(objsize: nat, most: nat)
    ensures most * (objsize + 2) == objsize * most + 2 * most
  {}

  lemma ObjnumOf(objsize: nat, size: nat, most: nat)
    requires SLAB_HEADER <= size <= 0x8000_0000 && InRange(size, objsize * most)
    ensures Objnum(objsize, size, most)
         == Signed(most - Surplus(size - SLAB_HEADER - objsize * most, most, objsize + 2))
  {
    hide Surplus, Signed, Unsigned;
    NoWrap(size, objsize * most);
  }

  lemma CeilDivIs(a: nat, d: nat, q: int)
    requires d > 0 && (q - 1) * d < a <= q * d
    ensures CeilDiv(a, d) == q
  {
    if a == q * d {
      DivUnique(a, d, q);
      assert a % d == a - a / d * d;
    } else {
      DivUnique(a, d, q - 1);
      assert a % d == a - a / d * d;
    }
  }

  // ------------------------------------------------------ the sizes that work

  // The pages: a power of two, the least that holds eight objects if their size does not wrap.
  lemma PagesTaken(objsize: nat) returns (k: nat)
    requires objsize < 0x8000_0000 && LeastPages(objsize) > 0
    ensures Ceil2n(LeastPages(objsize)) == Pow2(k) && Bsr(Pow2(k)) == k <= 19
    ensures PAGE <= PAGE * Pow2(k) <= 0x8000_0000
    ensures objsize < 0x1000_0000 ==>
      8 * objsize <= PAGE * Pow2(k) && (k > 0 ==> PAGE * Pow2(k) < 16 * objsize)
    ensures objsize >= 0x1000_0000 ==> objsize >= 0x2000_0000
  {
    hide Bsr, LeastPages, Ceil2n;
    var least := LeastPages(objsize);
    LeastIs(objsize);
    k := Ceil2nIsLeast(least);
    Pow2Of19();
    assert k <= 19;
    Pow2Monotone(k, 19);
    if k > 0 {
      Pow2Succ(k - 1);
      assert least > Pow2(k - 1);
    }
    Pow2Monotone(0, k);
  }

  lemma LeastIs(objsize: nat)
    requires objsize < 0x8000_0000 && LeastPages(objsize) > 0
    ensures LeastPages(objsize) <= 0x8_0000
    ensures objsize < 0x1000_0000 ==> LeastPages(objsize) == (8 * objsize + PAGE - 1) / PAGE
    ensures objsize >= 0x1000_0000 ==> objsize >= 0x2000_0000
  {}

  lemma Pow2Of19()
    ensures Pow2(19) == 0x8_0000
  {
    assert Pow2(10) == 1024;
    assert Pow2(15) == 32768;
  }

  // Up to 65536 bytes the estimate stays in range.
  lemma SmallEnough(objsize: nat, size: nat)
    requires 0 < objsize <= 65536 && PAGE <= size <= 0x80000 && 8 * objsize <= size
    ensures
      var n := Objnum(objsize, size, Estimate(size));
      && n == Min(Estimate(size), (size - SLAB_HEADER) / (objsize + 2))
      && 7 <= n < 65536
      && SLAB_HEADER + n * (objsize + 2) <= size
  {
    var most := Estimate(size);
    MulBounds(objsize, most, 65536, 21845);
    ObjnumIsMin(objsize, size, most);
    hide Objnum;
    AtLeastSeven(size - SLAB_HEADER, objsize + 2, most);
  }

  lemma AtLeastSeven(right: nat, d: nat, most: nat)
    requires d > 0 && 7 * d <= right && 7 <= most
    ensures 7 <= Min(most, right / d) && Min(most, right / d) * d <= right
  {
    var q := right / d;
    DivBounds(right, d);
    MulMonotone(q + 1, 7, d);
    MulMonotone(Min(most, q), q, d);
  }

  // The estimate for 2^k pages is a third of 2^(k+9), less a little.
  lemma EstimateIs(k: nat)
    ensures 3 * Estimate(PAGE * Pow2(k)) == 512 * Pow2(k) - 2 - (if k % 2 == 0 then 0 else 2)
  {
    var m := Pow2Thirds(k);
    hide Pow2;
    EstimateOf(Pow2(k), m, if k % 2 == 0 then 1 else 2);
  }

  lemma {:induction false} Pow2Thirds(k: nat) returns (m: nat)
    ensures Pow2(k) == 3 * m + if k % 2 == 0 then 1 else 2
  {
    if k == 0 {
      m := 0;
    } else {
      m := Pow2Thirds(k - 1);
      Pow2Succ(k - 1);
      m := 2 * m + if k % 2 == 0 then 1 else 0;
    }
  }

  lemma EstimateOf(p: nat, m: nat, r: nat)
    requires p == 3 * m + r && 1 <= r <= 2
    ensures 3 * Estimate(PAGE * p) == 512 * p - 2 - (if r == 1 then 0 else 2)
  {
    DivUnique(PAGE * p - SLAB_HEADER, PAGE_STRUCT, 512 * m + 170 * r);
  }

  // So it never ends in few objects in its lower 16 bits.
  lemma {:induction false} EstimateLow(k: nat)
    ensures k < 8 ==> 170 <= Estimate(PAGE * Pow2(k)) < 65536
    ensures k >= 8 ==> Estimate(PAGE * Pow2(k)) % 65536 == if k % 2 == 0 then 43690 else 21844
    ensures k == 8 ==> Estimate(PAGE * Pow2(k)) == 43690
  {
    EstimateIs(k);
    if k < 8 {
      Pow2Monotone(0, k);
      Pow2Monotone(k, 7);
      assert Pow2(7) == 128;
    } else if k == 8 {
      assert Pow2(8) == 256;
    } else {
      EstimateLow(k - 1);
      EstimateIs(k - 1);
      assert Pow2(k) == 2 * Pow2(k - 1);
      Doubled(Estimate(PAGE * Pow2(k - 1)), Estimate(PAGE * Pow2(k)), k);
    }
  }

  lemma Doubled(a: nat, b: nat, k: nat)
    requires b == 2 * a + if k % 2 == 0 then 2 else 0
    requires a % 65536 == if k % 2 == 0 then 21844 else 43690
    ensures b % 65536 == if k % 2 == 0 then 43690 else 21844
  {}

  // What is above 65536 bytes leaves the range.
  lemma TooLarge(objsize: nat, k: nat)
    requires 65536 < objsize && k <= 19 && PAGE * Pow2(k) <= 0x8000_0000
    requires objsize >= 0x2000_0000 || 8 * objsize <= PAGE * Pow2(k)
    ensures !InRange(PAGE * Pow2(k), objsize * Estimate(PAGE * Pow2(k)))
    ensures objsize < 0x2000_0000 ==> k >= 8
  {
    var most := Estimate(PAGE * Pow2(k));
    EstimateIs(k);
    if objsize >= 0x2000_0000 {
      MulMonotone(0x2000_0000, objsize, most);
      EstimateLow(k);
    } else {
      assert Pow2(7) == 128 && Pow2(8) == 256;
      if k < 8 { Pow2Monotone(k, 7); }
      Pow2Monotone(8, k);
      MulMonotone(65537, objsize, most);
    }
  }

  // Cut to sixteen bits, the objects are still too many: with objects of 512M or more,
  lemma CutTooManyHuge(d: nat, k: nat, most: nat, n: nat)
    requires k <= 19 && PAGE * Pow2(k) <= 0x8000_0000 && most == Estimate(PAGE * Pow2(k)) && n <= most
    requires (most - n) * d < 0x8000_0000 + 2 * most + d && d >= 0x2000_0000
    ensures n % 65536 * d > PAGE * Pow2(k)
  {
    EstimateLow(k);
    EstimateIs(k);
    FewLess(most - n, d, 0x2000_0000, 6, 0x8000_0000 + 2 * most);
    LowBits(most, most - n, 6, 164);
    MulMonotone(164, n % 65536, d);
  }

  // and with objects of a sixteenth of the slab or more.
  lemma CutTooManyLarge(d: nat, k: nat, most: nat, n: nat)
    requires 8 <= k <= 19 && PAGE * Pow2(k) <= 0x8000_0000 && most == Estimate(PAGE * Pow2(k)) && n <= most
    requires (most - n) * d < 0x8000_0000 + 2 * most + d && d > 65536 && PAGE * Pow2(k) < 16 * d
    ensures n % 65536 * d > PAGE * Pow2(k)
  {
    EstimateLow(k);
    EstimateIs(k);
    if k > 8 {
      Pow2Monotone(9, k);
      assert Pow2(9) == 512;
      FewLess(most - n, d, 131072, 20000, 0x8000_0000 + 2 * most);
      LowBits(most, most - n, 20000, 1844);
    } else {
      FewLess(most - n, d, 65536, 33000, 0x8000_0000 + 2 * most);
      LowBits(most, most - n, 33000, 10690);
    }
    MulMonotone(16, n % 65536, d);
  }

  // x objects of d bytes within c bytes, one object more or less
  lemma FewLess(x: nat, d: nat, least: nat, bound: nat, c: nat)
    requires x * d < c + d && 0 < least <= d && c < bound * least
    ensures x <= bound
  {
    assert (x - 1) * d == x * d - d;
    MulMonotone(least, d, bound);
    MulMonotone(bound, x - 1, d);
  }

  lemma LowBits(most: nat, x: nat, bound: nat, rest: nat)
    requires x <= bound && most % 65536 >= bound + rest && x <= most
    ensures (most - x) % 65536 >= rest
  {
    var q := most / 65536;
    assert most - x == q * 65536 + (most % 65536 - x);
  }

  lemma SmallFits(objsize: nat, k: nat)
    requires 0 < objsize <= 65536 && 8 * objsize <= PAGE * Pow2(k) && (k > 0 ==> PAGE * Pow2(k) < 16 * objsize)
    requires PAGE * Pow2(k) >= PAGE
    ensures
      var size, n := PAGE * Pow2(k), ObjnumStored(objsize, PAGE * Pow2(k));
      && SLAB_HEADER + n * (objsize + 2) <= size
      && n == Min(Estimate(size), (size - SLAB_HEADER) / (objsize + 2)) && 7 <= n < 65536
  {
    hide Objnum, Estimate;
    assert Pow2(7) == 128 && Pow2(8) == 256;
    if k > 7 { Pow2Monotone(8, k); } else { Pow2Monotone(k, 7); }
    SmallEnough(objsize, PAGE * Pow2(k));
  }

  lemma LargeDoesNot(objsize: nat, k: nat)
    requires 65536 < objsize < 0x8000_0000 && k <= 19 && PAGE <= PAGE * Pow2(k) <= 0x8000_0000
    requires objsize >= 0x2000_0000 || (8 * objsize <= PAGE * Pow2(k) && (k > 0 ==> PAGE * Pow2(k) < 16 * objsize))
    ensures SLAB_HEADER + ObjnumStored(objsize, PAGE * Pow2(k)) * (objsize + 2) > PAGE * Pow2(k)
  {
    hide Objnum, InRange;
    var size := PAGE * Pow2(k);
    var most := Estimate(size);
    TooLarge(objsize, k);
    ObjnumOutOfRange(objsize, size, most);
    if objsize >= 0x2000_0000 {
      CutTooManyHuge(objsize + 2, k, most, Objnum(objsize, size, most));
    } else {
      CutTooManyLarge(objsize + 2, k, most, Objnum(objsize, size, most));
    }
  }

  // Of all positive sizes for which a page count is computed, up to 65536 bytes, and for those
  // only, header, index array and objects fit into the 2^gfporder pages without overlap. They
  // are then as many objects as possible up to the estimate, and never fewer than seven; the
  // pages have room for eight objects, and half of them would not.
  lemma LayoutFits(objsize: nat)
    requires 0 < objsize < 0x8000_0000 && LeastPages(objsize) > 0
    ensures
      var l, size := Register(objsize), PAGE * Pow2(Register(objsize).gfporder);
      && (SLAB_HEADER + l.objnum * (objsize + 2) <= size <==> objsize <= 65536)
      && (objsize <= 65536 ==>
          && l.objnum == Min((size - SLAB_HEADER) / PAGE_STRUCT, (size - SLAB_HEADER) / (objsize + 2))
          && 7 <= l.objnum < 65536
          && 8 * objsize <= size && (size > PAGE ==> size / 2 < 8 * objsize))
  {
    hide Objnum, Bsr, Ceil2n, LeastPages;
    var k := PagesTaken(objsize);
    if objsize <= 65536 { SmallFits(objsize, k); } else { LargeDoesNot(objsize, k); }
  }

  // The next size: 43690 objects of 65537 bytes in 256 pages.
  lemma TooLargeByOne()
    ensures LeastPages(65537) > 0 && Register(65537) == Layout(43690, 8)
    ensures SLAB_HEADER + 43690 * (65537 + 2) > PAGE * Pow2(8)
  {
    hide Bsr, Ceil2n, Objnum;
    assert LeastPages(65537) > 0;
    var k := PagesTaken(65537);
    assert Pow2(7) == 128 && Pow2(8) == 256;
    if k < 8 { Pow2Monotone(k, 7); }
    if k > 8 { Pow2Monotone(9, k); }
    EstimateLow(8);
    NoSurplus();
  }

  lemma NoSurplus()
    ensures Objnum(65537, 0x10_0000, 43690) == 43690
  {
    assert Unsigned(0x10_0000 - 65537 * 43690) == 0x10_0000 - 2863311530 + TWO32;
  }

  lemma MulBounds(a: nat, b: nat, x: nat, y: nat)
    requires a <= x && b <= y
    ensures a * b <= x * y
  {
    MulMonotone(a, x, b);
    MulMonotone(b, y, x);
  }
}
