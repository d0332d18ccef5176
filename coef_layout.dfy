/** Layout of the coefficient vector of a bivariate polynomial of total
    degree d: one slot per monomial x^a y^b with a + b <= d, the
    highest-degree terms first and the constant term last.  Inside the
    block of degree k the power of y grows from 0 to k. */
module CoefLayout {

  /** Number of monomials of total degree at most d: a block of k + 1
      monomials for each degree k from 0 to d. */
  function Size(d: int): (n: nat)
    ensures d >= 0 ==> n >= d + 1
    decreases d
  {
    if d < 0 then 0 else Size(d - 1) + d + 1
  }

  function Abs(v: int): int
  {
    if v < 0 then -v else v
  }

  /** C++ division of an int by 2, which truncates toward zero. */
  function TruncHalf(v: int): int
  {
    if v >= 0 then v / 2 else -((-v) / 2)
  }


  /** A monomial belongs to a polynomial of degree d. */
  predicate InDegree(d: int, x: int, y: int)
  {
    0 <= x && 0 <= y && x + y <= d
  }

  /** The layout in closed form: the block of degree k = x + y starts
      Size(k) slots before the end of the vector, and y is the position
      inside the block. */
  function Slot(d: int, x: int, y: int): int
  {
    Size(d) - Size(x + y) + y
  }

  lemma ConsecutiveProductEven(m: int)
    ensures (m * (m + 1)) % 2 == 0
  {
    var q := m / 2;
    if m % 2 == 0 {
      assert m * (m + 1) == 2 * (q * (m + 1));
    } else {
      assert m + 1 == 2 * (q + 1);
      assert m * (m + 1) == 2 * (m * (q + 1));
    }
  }

  /** Each size exceeds the previous one by the number of monomials of the
      new degree. */
  lemma SizeStep(k: int)
    requires k >= 0
    ensures Size(k) == Size(k - 1) + k + 1
  {
  }

  /** The size as `incLMA` and `polyInv` compute it: (d+1)(d+2)/2. */
  lemma {:induction false} SizeClosedForm(d: int)
    requires d >= -1
    ensures Size(d) == (d + 1) * (d + 2) / 2
    decreases d + 1
  {
    if d >= 0 {
      SizeClosedForm(d - 1);
      ConsecutiveProductEven(d);
      ConsecutiveProductEven(d + 1);
      assert (d + 1) * (d + 2) == d * (d + 1) + 2 * (d + 1);
    }
  }

  lemma {:induction false} SizeMonotone(k: int, d: int)
    requires -1 <= k <= d
    ensures Size(k) <= Size(d)
    decreases d - k
  {
    if k < d {
      SizeStep(d);
      SizeMonotone(k, d - 1);
    }
  }

  lemma SizeStrictlyMonotone(k: int, d: int)
    requires -1 <= k < d
    ensures Size(k) < Size(d)
  {
    SizeStep(d);
    SizeMonotone(k, d - 1);
  }

  /** The halving in `coefIdx` is exact on every monomial of the polynomial:
      n and a1 + an have an odd sum, so one of them is even. */
  lemma CoefIdxDivisionExact(d: int, x: int, y: int)
    requires InDegree(d, x, y)
    ensures (Abs(x + y - d) + 1) * ((d + 1) + (x + y + 1)) % 2 == 0
  {
    var k := x + y;
    assert Abs(k - d) + 1 == d - k + 1;
    ProductAsDifference(d, k);
    ConsecutiveProductEven(d + 1);
    ConsecutiveProductEven(k);
    var a, b := (d + 1) * (d + 2), k * (k + 1);
    assert a == 2 * (a / 2) && b == 2 * (b / 2);
    assert a - b == 2 * (a / 2 - b / 2);
  }

  lemma ProductAsDifference(d: int, k: int)
    ensures (d - k + 1) * ((d + 1) + (k + 1)) == (d + 1) * (d + 2) - k * (k + 1)
  {
  }

  /** The series sum of `coefIdx`, halved and shifted, is the closed-form
      slot on every monomial of the polynomial. */
  lemma SeriesIsSlot(d: int, x: int, y: int)
    requires InDegree(d, x, y)
    ensures TruncHalf((Abs(x + y - d) + 1) * ((d + 1) + (x + y + 1))) - (x + y + 1) + y == Slot(d, x, y)
  {
    var k := x + y;
    assert Abs(k - d) + 1 == d - k + 1;
    ProductAsDifference(d, k);
    ConsecutiveProductEven(d + 1);
    ConsecutiveProductEven(k);
    SizeClosedForm(d);
    SizeClosedForm(k - 1);
    assert TruncHalf((d + 1) * (d + 2) - k * (k + 1)) == Size(d) - k * (k + 1) / 2;
    SizeStep(k);
  }

  /** `coefIdx(degree, x, y)`: the slot of the monomial with x to the power x
      and y to the power y, computed from the sum of an arithmetic series
      halved with C++ integer division.  On every monomial
      of the polynomial it is the closed-form slot. */
  function CoefIdx(degree: int, x: int, y: int): (r: int)
    ensures InDegree(degree, x, y) ==> r == Slot(degree, x, y)
  {
    var a1 := degree + 1;
    var n := Abs(x + y - degree) + 1;
    var an := x + y + 1;
    var sn := TruncHalf(n * (a1 + an));
    var idx := sn - an + y;
    if InDegree(degree, x, y) then SeriesIsSlot(degree, x, y); idx else idx
  }

  /** Every monomial of degree at most d gets a slot inside the vector. */
  lemma SlotInRange(d: int, x: int, y: int)
    requires InDegree(d, x, y)
    ensures 0 <= Slot(d, x, y) < Size(d)
  {
    SizeMonotone(x + y, d);
    SizeStep(x + y);
  }

  /** Inverse of the layout, relative to the block of degree k: r is the
      distance of a slot from the start of that block. */
  function Locate(k: nat, r: nat): (m: (nat, nat))
    requires r < Size(k)
    decreases k
  {
    if r <= k then (k - r, r)
    else
      SizeStep(k);
      Locate(k - 1, r - (k + 1))
  }

  /** The monomial (powers of x and y) stored in slot i of a degree-d vector. */
  function Monomial(d: nat, i: nat): (m: (nat, nat))
    requires i < Size(d)
  {
    Locate(d, i)
  }

  lemma {:induction false} LocateSound(k: nat, r: nat)
    requires r < Size(k)
    ensures InDegree(k, Locate(k, r).0, Locate(k, r).1)
    ensures Slot(k, Locate(k, r).0, Locate(k, r).1) == r
  {
    if r > k {
      SizeStep(k);
      LocateSound(k - 1, r - (k + 1));
    }
  }

  lemma {:induction false} LocateComplete(k: nat, x: nat, y: nat)
    requires x + y <= k
    ensures 0 <= Slot(k, x, y) < Size(k)
    ensures Locate(k, Slot(k, x, y)) == (x, y)
  {
    SlotInRange(k, x, y);
    if x + y < k {
      SizeStep(k);
      SizeMonotone(x + y, k - 1);
      SizeStep(x + y);
      LocateComplete(k - 1, x, y);
    }
  }

  /** Two monomials of degree at most d never share a slot. */
  lemma SlotInjective(d: nat, x1: nat, y1: nat, x2: nat, y2: nat)
    requires x1 + y1 <= d && x2 + y2 <= d
    ensures Slot(d, x1, y1) == Slot(d, x2, y2) <==> x1 == x2 && y1 == y2
  {
    LocateComplete(d, x1, y1);
    LocateComplete(d, x2, y2);
  }

  /** Surjectivity: every slot of a degree-d vector is the `coefIdx` of the
      monomial that Monomial names. */
  lemma MonomialThenCoefIdx(d: nat, i: nat)
    requires i < Size(d)
    ensures InDegree(d, Monomial(d, i).0, Monomial(d, i).1)
    ensures CoefIdx(d, Monomial(d, i).0, Monomial(d, i).1) == i
  {
    LocateSound(d, i);
  }

  /** Left inverse: reading back the monomial of a monomial's `coefIdx`
      gives it. */
  lemma CoefIdxThenMonomial(d: nat, x: nat, y: nat)
    requires x + y <= d
    ensures 0 <= CoefIdx(d, x, y) < Size(d)
    ensures Monomial(d, CoefIdx(d, x, y)) == (x, y)
  {
    LocateComplete(d, x, y);
  }

  /** Injectivity of `coefIdx`: two monomials of degree at most d never
      share a slot. */
  lemma CoefIdxInjective(d: nat, x1: nat, y1: nat, x2: nat, y2: nat)
    requires x1 + y1 <= d && x2 + y2 <= d
    ensures CoefIdx(d, x1, y1) == CoefIdx(d, x2, y2) <==> x1 == x2 && y1 == y2
  {
    SlotInjective(d, x1, y1, x2, y2);
  }

  /** Highest-degree terms come first: a monomial of larger total degree sits
      at a smaller slot. */
  lemma HigherDegreeFirst(d: int, x1: int, y1: int, x2: int, y2: int)
    requires InDegree(d, x1, y1) && InDegree(d, x2, y2)
    requires x1 + y1 > x2 + y2
    ensures CoefIdx(d, x1, y1) < CoefIdx(d, x2, y2)
  {
    SizeStep(x1 + y1);
    SizeMonotone(x2 + y2, x1 + y1 - 1);
  }

  /** The linear terms and the constant take the last three slots: x at
      size-3, y at size-2, the constant at size-1. */
  lemma LinearSlots(d: int)
    requires d >= 1
    ensures Slot(d, 1, 0) == Size(d) - 3
    ensures Slot(d, 0, 1) == Size(d) - 2
    ensures Slot(d, 0, 0) == Size(d) - 1
  {
    assert Size(1) == 3 && Size(0) == 1;
  }

  /** The last three slots hold exactly the monomials of degree at most one. */
  lemma LastThreeSlotsAreLowDegree(d: int, x: int, y: int)
    requires d >= 1 && InDegree(d, x, y)
    ensures Slot(d, x, y) >= Size(d) - 3 <==> x + y <= 1
  {
    assert Size(1) == 3 && Size(0) == 1;
    if x + y >= 2 {
      SizeStep(x + y);
      SizeMonotone(1, x + y - 1);
    }
  }
}
