/** Estimation of the correction polynomial (`incLMA`, `polyInv`,
    `polyEstime`): the orders visited by the incremental fit, the starting
    vectors and the frozen-coefficient masks handed to the minimiser at each
    order, the warm start from one order to the next, the refinement seed,
    the split of the fitted parameters into the X and Y polynomials, and the
    whole estimation from the images' edges to the inverse polynomial. */
module PolyFit {
  import opened CoefLayout
  import opened LineGroups

  /** The first order fitted by `incLMA`. */
  const BeginOrder: nat := 3

  /** The order increment used by `polyEstime`: only odd orders are fitted. */
  const OrderIncrement: nat := 2

  /** One call of the minimiser (`correctionLMA`, and the first
      `verification` of the refinement): the polynomial order used for both
      X and Y, the starting coefficients of X (b) and Y (c), and the masks
      saying which coefficients may move (1) and which are frozen (0). */
  datatype LmaCall = LmaCall(order: nat, b: seq<real>, c: seq<real>, flagX: seq<int>, flagY: seq<int>)

  /** The minimiser returns the X coefficients followed by the Y
      coefficients, Size(order) of each. */
  ghost predicate LmaShape(lma: LmaCall -> seq<real>)
  {
    forall call :: |lma(call)| == 2 * Size(call.order)
  }

  /** A coefficient vector that is 1 at `slot` and 0 elsewhere. */
  function Unit(size: nat, slot: int): (v: seq<real>)
    ensures |v| == size
  {
    seq(size, k => if k == slot then 1.0 else 0.0)
  }

  /** The flag vectors of `incLMA`, in its order loop and before its
      refinement: the last three coefficients are frozen (0), every other one
      may move (1). */
  function Mask(size: nat): (m: seq<int>)
    ensures |m| == size
    ensures forall k :: 0 <= k < size ==> (m[k] == 0 <==> k >= size - 3)
    ensures forall k :: 0 <= k < size ==> m[k] == 0 || m[k] == 1
  {
    seq(size, k => if k >= size - 3 then 0 else 1)
  }

  /** A lower-order vector copied into the tail of a zero vector. */
  function WarmStart(size: nat, prev: seq<real>): (v: seq<real>)
    requires |prev| <= size
    ensures |v| == size
    ensures v[size - |prev|..] == prev
  {
    seq(size - |prev|, k => 0.0) + prev
  }

  /** The first call, at order 3: X = x and Y = y, the identity map. */
  function FirstCall(): (call: LmaCall)
    ensures call.order == BeginOrder && |call.b| == |call.c| == Size(BeginOrder) == 10
    ensures call.flagX == call.flagY == Mask(10)
  {
    var n := Size(BeginOrder);
    LmaCall(BeginOrder, Unit(n, n - 3), Unit(n, n - 2), Mask(n), Mask(n))
  }

  /** Both halves of a fit of order prevOrder (X then Y) warm-started into
      vectors of order `order`. */
  function WarmStarted(order: nat, prevOrder: nat, prev: seq<real>): (halves: (seq<real>, seq<real>))
    requires prevOrder <= order && |prev| == 2 * Size(prevOrder)
    ensures |halves.0| == |halves.1| == Size(order)
  {
    SizeMonotone(prevOrder, order);
    var m := Size(prevOrder);
    (WarmStart(Size(order), prev[..m]), WarmStart(Size(order), prev[m..]))
  }

  /** The call at `order` that follows a call at `prevOrder` whose result was
      `prev`: both halves of `prev` are warm-started into the larger vectors. */
  function NextCall(order: nat, prevOrder: nat, prev: seq<real>): LmaCall
    requires prevOrder <= order && |prev| == 2 * Size(prevOrder)
  {
    var halves := WarmStarted(order, prevOrder, prev);
    LmaCall(order, halves.0, halves.1, Mask(Size(order)), Mask(Size(order)))
  }

  /** The calls that follow `last` while the next order does not pass `order`. */
  function Chain(last: LmaCall, order: int, inc: nat, lma: LmaCall -> seq<real>): seq<LmaCall>
    requires inc >= 1 && LmaShape(lma)
    decreases order - last.order
  {
    if last.order + inc > order then []
    else
      var next := NextCall(last.order + inc, last.order, lma(last));
      [next] + Chain(next, order, inc, lma)
  }

  /** Every call `incLMA(order, inc)` makes to the minimiser, in order. */
  function Calls(order: nat, inc: nat, lma: LmaCall -> seq<real>): (cs: seq<LmaCall>)
    requires order >= BeginOrder && inc >= 1 && LmaShape(lma)
    ensures |cs| >= 1 && cs[0] == FirstCall()
  {
    Run(FirstCall(), order, inc, lma)
  }

  /** The last order the incremental fit reaches. */
  function LastOrder(order: nat, inc: nat, lma: LmaCall -> seq<real>): nat
    requires order >= BeginOrder && inc >= 1 && LmaShape(lma)
  {
    var cs := Calls(order, inc, lma);
    cs[|cs| - 1].order
  }

  /** `midParams` after the order loop: the result of the last call. */
  function FinalParams(order: nat, inc: nat, lma: LmaCall -> seq<real>): seq<real>
    requires order >= BeginOrder && inc >= 1 && LmaShape(lma)
  {
    var cs := Calls(order, inc, lma);
    lma(cs[|cs| - 1])
  }

  /** `last` followed by the chain after it. */
  function Run(last: LmaCall, order: int, inc: nat, lma: LmaCall -> seq<real>): (s: seq<LmaCall>)
    requires inc >= 1 && LmaShape(lma)
    ensures |s| >= 1 && s[0] == last
  {
    [last] + Chain(last, order, inc, lma)
  }

  /** The orders of a run grow by inc from `last`, and the run stops exactly
      when the next order would pass `order`. */
  lemma {:induction false} RunOrders(last: LmaCall, order: int, inc: nat, lma: LmaCall -> seq<real>)
    requires inc >= 1 && LmaShape(lma)
    ensures forall t :: 0 <= t < |Run(last, order, inc, lma)| ==>
      Run(last, order, inc, lma)[t].order == last.order + t * inc
    ensures forall t :: 1 <= t < |Run(last, order, inc, lma)| ==>
      Run(last, order, inc, lma)[t].order <= order
    ensures var s := Run(last, order, inc, lma); s[|s| - 1].order + inc > order
    decreases order - last.order
  {
    if last.order + inc <= order {
      var next := NextCall(last.order + inc, last.order, lma(last));
      var s' := Run(next, order, inc, lma);
      var s := Run(last, order, inc, lma);
      assert s == [last] + s';
      RunOrders(next, order, inc, lma);
      forall t | 1 <= t < |s|
        ensures s[t].order == last.order + t * inc
      {
        assert s[t] == s'[t - 1];
        MultipleStep(t, inc);
      }
    }
  }

  /** Each call of a run after the first is the warm start of the result of
      the call before it, one increment higher. */
  lemma {:induction false} RunLinks(last: LmaCall, order: int, inc: nat, lma: LmaCall -> seq<real>)
    requires inc >= 1 && LmaShape(lma)
    ensures forall t :: 1 <= t < |Run(last, order, inc, lma)| ==>
      Linked(Run(last, order, inc, lma)[t - 1], Run(last, order, inc, lma)[t], inc, lma)
    decreases order - last.order
  {
    if last.order + inc <= order {
      var next := NextCall(last.order + inc, last.order, lma(last));
      var s' := Run(next, order, inc, lma);
      var s := Run(last, order, inc, lma);
      assert s == [last] + s';
      RunLinks(next, order, inc, lma);
      assert Linked(s[0], s[1], inc, lma);
      forall t | 2 <= t < |s|
        ensures Linked(s[t - 1], s[t], inc, lma)
      {
        assert s[t] == s'[t - 1] && s[t - 1] == s'[t - 2];
        assert Linked(s'[t - 2], s'[t - 1], inc, lma);
      }
    }
  }

  /** `call` is the call that follows `prev`: one increment higher, warm
      started from the result of `prev`. */
  ghost predicate Linked(prev: LmaCall, call: LmaCall, inc: nat, lma: LmaCall -> seq<real>)
    requires LmaShape(lma)
  {
    && call.order == prev.order + inc
    && call == NextCall(call.order, prev.order, lma(prev))
  }

  /** The orders `incLMA(order, inc)` visits: 3, 3 + inc, 3 + 2 inc, ..., as
      long as they do not pass `order`; each call after the first is the warm
      start of the result of the one before. */
  lemma CallsOrders(order: nat, inc: nat, lma: LmaCall -> seq<real>)
    requires order >= BeginOrder && inc >= 1 && LmaShape(lma)
    ensures forall j :: 0 <= j < |Calls(order, inc, lma)| ==>
      Calls(order, inc, lma)[j].order == BeginOrder + j * inc <= order
    ensures BeginOrder + |Calls(order, inc, lma)| * inc > order
  {
    var cs := Calls(order, inc, lma);
    RunOrders(FirstCall(), order, inc, lma);
    var n := |cs|;
    assert cs[n - 1].order + inc > order;
    assert cs[n - 1].order == BeginOrder + (n - 1) * inc;
    MultipleStep(n, inc);
  }

  /** Each call after the first is the warm start of the result of the one
      before, one increment higher. */
  lemma CallsLinks(order: nat, inc: nat, lma: LmaCall -> seq<real>)
    requires order >= BeginOrder && inc >= 1 && LmaShape(lma)
    ensures forall j :: 1 <= j < |Calls(order, inc, lma)| ==>
      Linked(Calls(order, inc, lma)[j - 1], Calls(order, inc, lma)[j], inc, lma)
  {
    RunLinks(FirstCall(), order, inc, lma);
  }

  lemma MultipleStep(n: int, inc: int)
    ensures (n - 1) * inc + inc == n * inc
  {
  }

  /** Every call works on vectors of the size of its order and freezes exactly
      the linear terms and the constant of X and Y. */
  lemma EveryCallFreezesLinearTerms(order: nat, inc: nat, lma: LmaCall -> seq<real>, j: nat, x: nat, y: nat)
    requires order >= BeginOrder && inc >= 1 && LmaShape(lma)
    requires j < |Calls(order, inc, lma)|
    requires x + y <= Calls(order, inc, lma)[j].order
    ensures var call := Calls(order, inc, lma)[j];
      && |call.b| == |call.c| == |call.flagX| == |call.flagY| == Size(call.order)
      && 0 <= Slot(call.order, x, y) < Size(call.order)
      && (call.flagX[Slot(call.order, x, y)] == 0 <==> x + y <= 1)
      && (call.flagY[Slot(call.order, x, y)] == 0 <==> x + y <= 1)
  {
    var cs := Calls(order, inc, lma);
    if j >= 1 {
      CallsLinks(order, inc, lma);
      assert Linked(cs[j - 1], cs[j], inc, lma);
    }
    var d := cs[j].order;
    SlotInRange(d, x, y);
    LastThreeSlotsAreLowDegree(d, x, y);
  }

  /** The first call starts from the identity: the X polynomial is x and the
      Y polynomial is y. */
  lemma FirstCallIsIdentity(x: nat, y: nat)
    requires x + y <= BeginOrder
    ensures 0 <= Slot(BeginOrder, x, y) < Size(BeginOrder)
    ensures FirstCall().b[Slot(BeginOrder, x, y)] == if x == 1 && y == 0 then 1.0 else 0.0
    ensures FirstCall().c[Slot(BeginOrder, x, y)] == if x == 0 && y == 1 then 1.0 else 0.0
  {
    SlotInRange(BeginOrder, x, y);
    LinearSlots(BeginOrder);
    SlotInjective(BeginOrder, x, y, 1, 0);
    SlotInjective(BeginOrder, x, y, 0, 1);
  }

  /** A warm start keeps each coefficient on its monomial: the monomials the
      smaller vector has take their old coefficients, the new higher-degree
      ones start at zero. */
  lemma WarmStartAt(d: nat, dOld: nat, prev: seq<real>, x: nat, y: nat)
    requires dOld <= d && |prev| == Size(dOld) && x + y <= d
    ensures Size(dOld) <= Size(d)
    ensures 0 <= Slot(d, x, y) < Size(d)
    ensures x + y <= dOld ==> 0 <= Slot(dOld, x, y) < Size(dOld)
    ensures WarmStart(Size(d), prev)[Slot(d, x, y)]
         == if x + y <= dOld then prev[Slot(dOld, x, y)] else 0.0
  {
    SizeMonotone(dOld, d);
    SlotInRange(d, x, y);
    var i := Slot(d, x, y);
    var off := Size(d) - Size(dOld);
    WarmStartIndex(Size(d), prev, i);
    if x + y <= dOld {
      SlotInRange(dOld, x, y);
      assert i - off == Slot(dOld, x, y);
    } else {
      SizeStep(x + y);
      SizeMonotone(dOld, x + y - 1);
      assert i < off;
    }
  }

  lemma WarmStartIndex(size: nat, prev: seq<real>, i: int)
    requires |prev| <= size && 0 <= i < size
    ensures WarmStart(size, prev)[i] == if i < size - |prev| then 0.0 else prev[i - (size - |prev|)]
  {
  }

  /** Warm-starting a fit of order prevOrder keeps every coefficient of X and
      of Y on its monomial and starts the monomials of the higher degrees at
      zero. */
  lemma WarmStartedKeepsMonomials(order: nat, prevOrder: nat, prev: seq<real>, x: nat, y: nat)
    requires prevOrder <= order && |prev| == 2 * Size(prevOrder) && x + y <= order
    ensures 0 <= Slot(order, x, y) < Size(order)
    ensures x + y <= prevOrder ==> 0 <= Slot(prevOrder, x, y) < Size(prevOrder)
    ensures WarmStarted(order, prevOrder, prev).0[Slot(order, x, y)]
         == if x + y <= prevOrder then prev[Slot(prevOrder, x, y)] else 0.0
    ensures WarmStarted(order, prevOrder, prev).1[Slot(order, x, y)]
         == if x + y <= prevOrder then prev[Size(prevOrder) + Slot(prevOrder, x, y)] else 0.0
  {
    var m := Size(prevOrder);
    WarmStartAt(order, prevOrder, prev[..m], x, y);
    WarmStartAt(order, prevOrder, prev[m..], x, y);
    if x + y <= prevOrder {
      SlotInRange(prevOrder, x, y);
    }
  }

  /** From one order to the next, X and Y keep every coefficient the previous
      fit found, on the same monomial, and start the new monomials at zero. */
  lemma WarmStartKeepsMonomials(order: nat, inc: nat, lma: LmaCall -> seq<real>, j: nat, x: nat, y: nat)
    requires order >= BeginOrder && inc >= 1 && LmaShape(lma)
    requires 1 <= j < |Calls(order, inc, lma)|
    requires x + y <= Calls(order, inc, lma)[j].order
    ensures var cs := Calls(order, inc, lma);
      var d, p, prev := cs[j].order, cs[j - 1].order, lma(cs[j - 1]);
      && 0 <= Slot(d, x, y) < |cs[j].b| == |cs[j].c|
      && (x + y <= p ==> 0 <= Slot(p, x, y) && Size(p) + Slot(p, x, y) < |prev|)
      && cs[j].b[Slot(d, x, y)] == (if x + y <= p then prev[Slot(p, x, y)] else 0.0)
      && cs[j].c[Slot(d, x, y)] == (if x + y <= p then prev[Size(p) + Slot(p, x, y)] else 0.0)
  {
    var cs := Calls(order, inc, lma);
    CallsLinks(order, inc, lma);
    assert Linked(cs[j - 1], cs[j], inc, lma);
    var d, p, prev := cs[j].order, cs[j - 1].order, lma(cs[j - 1]);
    WarmStartedKeepsMonomials(d, p, prev, x, y);
  }

  // ------------------------------------------------------------ refinement seed

  /** The refinement seed of `incLMA` as written: the first Size(order)
      entries of `midParams` for X and the next Size(order) for Y, the split
      `polyInv` also makes. */
  function RefineSeedAsWritten(order: nat, midParams: seq<real>): (seed: (seq<real>, seq<real>))
    requires |midParams| >= 2 * Size(order)
    ensures |seed.0| == |seed.1| == Size(order)
    ensures seed.0 + seed.1 == midParams[..2 * Size(order)]
  {
    SplitParams(midParams, order, order)
  }

  /** When the last fit was at the target order, the warm start is the
      plain split the refinement of `incLMA` makes. */
  lemma WarmStartedAgreesWhenOrderReached(order: nat, midParams: seq<real>)
    requires |midParams| == 2 * Size(order)
    ensures WarmStarted(order, order, midParams) == RefineSeedAsWritten(order, midParams)
  {
    var m := Size(order);
    assert WarmStart(m, midParams[..m]) == midParams[..m];
    assert WarmStart(m, midParams[m..]) == midParams[m..2 * m];
  }

  /** The fit reaches the target order exactly when order - 3 is a multiple
      of the increment. */
  lemma LastOrderReachesTarget(order: nat, inc: nat, lma: LmaCall -> seq<real>)
    requires order >= BeginOrder && inc >= 1 && LmaShape(lma)
    ensures LastOrder(order, inc, lma) <= order
    ensures LastOrder(order, inc, lma) == order <==> (order - BeginOrder) % inc == 0
  {
    var cs := Calls(order, inc, lma);
    CallsOrders(order, inc, lma);
    var q := |cs| - 1;
    assert cs[q].order == BeginOrder + q * inc;
    MultipleStep(|cs|, inc);
    RemainderOf(order - BeginOrder, q, inc, order - cs[q].order);
  }

  /** The remainder of a division is unique. */
  lemma RemainderOf(a: int, q: int, inc: int, r: int)
    requires inc >= 1 && 0 <= r < inc && a == q * inc + r
    ensures a % inc == r
  {
    var q2, r2 := a / inc, a % inc;
    assert (q - q2) * inc == r2 - r;
    if q > q2 {
      MultipleAtLeast(q - q2, inc);
    } else if q < q2 {
      MultipleAtLeast(q2 - q, inc);
    }
  }

  lemma MultipleAtLeast(k: int, inc: int)
    requires k >= 1 && inc >= 1
    ensures k * inc >= inc
  {
  }

  /** The slices the refinement of `incLMA` takes stay inside `midParams`
      exactly when the fit reached the target order. */
  lemma SeedInBoundsIffOrderReached(order: nat, inc: nat, lma: LmaCall -> seq<real>)
    requires order >= BeginOrder && inc >= 1 && LmaShape(lma)
    ensures |FinalParams(order, inc, lma)| >= 2 * Size(order) <==> (order - BeginOrder) % inc == 0
  {
    LastOrderReachesTarget(order, inc, lma);
    var last := LastOrder(order, inc, lma);
    if last < order {
      SizeStrictlyMonotone(last, order);
    }
  }

  /** Counterexample: with the increment 2 of `polyEstime` and the even
      order 4, the only fit is at order 3, whose 20 parameters are fewer than
      the 30 that the refinement of `incLMA` reads. */
  lemma EvenOrderOverreads(lma: LmaCall -> seq<real>)
    requires LmaShape(lma)
    ensures Calls(4, OrderIncrement, lma) == [FirstCall()]
    ensures |FinalParams(4, OrderIncrement, lma)| == 20 < 30 == 2 * Size(4)
  {
  }

  /** The call that starts the refinement: the corrected seed at the target
      order, with the linear terms and the constant frozen. */
  function RefineStart(order: nat, inc: nat, lma: LmaCall -> seq<real>): (call: LmaCall)
    requires order >= BeginOrder && inc >= 1 && LmaShape(lma)
    ensures call.order == order && |call.b| == |call.c| == Size(order)
  {
    LastOrderReachesTarget(order, inc, lma);
    var seed := WarmStarted(order, LastOrder(order, inc, lma), FinalParams(order, inc, lma));
    LmaCall(order, seed.0, seed.1, Mask(Size(order)), Mask(Size(order)))
  }

  /** The corrected seed never reads past the last fit: each monomial of the
      last fitted order keeps the coefficient that fit found, the monomials
      of higher degree start at zero, and the linear terms stay frozen.  When
      the last fit was at `order` the seed is the split `incLMA` makes. */
  lemma RefineStartKeepsLastFit(order: nat, inc: nat, lma: LmaCall -> seq<real>, x: nat, y: nat)
    requires order >= BeginOrder && inc >= 1 && LmaShape(lma) && x + y <= order
    ensures var p, prev, call := LastOrder(order, inc, lma), FinalParams(order, inc, lma), RefineStart(order, inc, lma);
      && 0 <= Slot(order, x, y) < Size(order)
      && (x + y <= p ==> 0 <= Slot(p, x, y) && Size(p) + Slot(p, x, y) < |prev|)
      && call.b[Slot(order, x, y)] == (if x + y <= p then prev[Slot(p, x, y)] else 0.0)
      && call.c[Slot(order, x, y)] == (if x + y <= p then prev[Size(p) + Slot(p, x, y)] else 0.0)
      && (call.flagX[Slot(order, x, y)] == 0 <==> x + y <= 1)
    ensures LastOrder(order, inc, lma) == order ==>
      (RefineStart(order, inc, lma).b, RefineStart(order, inc, lma).c)
      == RefineSeedAsWritten(order, FinalParams(order, inc, lma))
  {
    LastOrderReachesTarget(order, inc, lma);
    var p, prev := LastOrder(order, inc, lma), FinalParams(order, inc, lma);
    WarmStartedKeepsMonomials(order, p, prev, x, y);
    SizeMonotone(BeginOrder, order);
    LastThreeSlotsAreLowDegree(order, x, y);
    if p == order {
      WarmStartedAgreesWhenOrderReached(order, prev);
    }
  }

  /** `incLMA(order, inc)`: fit at orders 3, 3 + inc, ... up to `order`, each
      fit warm-started from the one before, then refine at `order`.  `lma` is
      `correctionLMA` and `refine` the refinement loop (repeated calls of
      `verification`), both with the centre xp, yp fixed.  `calls` lists the minimiser calls. */
  method IncLma(order: nat, inc: nat, lma: LmaCall -> seq<real>, refine: LmaCall -> seq<real>)
    returns (estParams: seq<real>, calls: seq<LmaCall>)
    requires order >= BeginOrder && inc >= 1 && LmaShape(lma)
    ensures calls == Calls(order, inc, lma)
    ensures estParams == refine(RefineStart(order, inc, lma))
  {
    var lastOrder, midParams;
    calls, lastOrder, midParams := OrderLoop(order, inc, lma);
    LastOrderReachesTarget(order, inc, lma);
    var sizexy := (order + 1) * (order + 2) / 2;
    SizeClosedForm(order);
    SizeMonotone(BeginOrder, order);
    var flagX := MaskArray(sizexy);
    var flagY := MaskArray(sizexy);
    var seedX, seedY := WarmStartCopy(order, lastOrder, midParams);
    estParams := refine(LmaCall(order, seedX, seedY, flagX, flagY));
  }

  /** The order loop of `incLMA`: one minimiser call per order 3, 3 + inc,
      ... up to `order`; `midParams` ends as the result of the last one. */
  method OrderLoop(order: nat, inc: nat, lma: LmaCall -> seq<real>)
    returns (calls: seq<LmaCall>, lastOrder: nat, midParams: seq<real>)
    requires order >= BeginOrder && inc >= 1 && LmaShape(lma)
    ensures calls == Calls(order, inc, lma)
    ensures lastOrder == LastOrder(order, inc, lma)
    ensures midParams == FinalParams(order, inc, lma)
  {
    var i := BeginOrder;
    midParams := [0.0];
    calls := [];
    while i <= order
      invariant BeginOrder <= i
      invariant |calls| == 0 <==> i == BeginOrder
      invariant |calls| >= 1 ==>
        && i == calls[|calls| - 1].order + inc
        && midParams == lma(calls[|calls| - 1])
        && calls[..|calls| - 1] + Run(calls[|calls| - 1], order, inc, lma) == Calls(order, inc, lma)
      decreases order + inc - i
    {
      var call := OrderStep(i, inc, midParams, calls);
      if |calls| >= 1 {
        var last := calls[|calls| - 1];
        assert Run(last, order, inc, lma) == [last] + Run(call, order, inc, lma);
        assert calls + [call] == calls[..|calls| - 1] + [last] + [call];
        assert (calls + [call])[..|calls|] == calls;
      }
      calls := calls + [call];
      midParams := lma(call);
      i := i + inc;
    }
    assert calls == Calls(order, inc, lma);
    lastOrder := i - inc;
  }

  /** The body of the order loop of `incLMA` at order i: the starting vectors
      (the identity at the first order, the warm start of the previous
      result otherwise) and the masks. */
  method OrderStep(i: nat, inc: nat, midParams: seq<real>, ghost calls: seq<LmaCall>) returns (call: LmaCall)
    requires BeginOrder <= i && inc >= 1
    requires |calls| == 0 <==> i == BeginOrder
    requires |calls| >= 1 ==> i == calls[|calls| - 1].order + inc
                              && |midParams| == 2 * Size(calls[|calls| - 1].order)
    ensures |calls| == 0 ==> call == FirstCall()
    ensures |calls| >= 1 ==>
      call == NextCall(i, calls[|calls| - 1].order, midParams)
  {
    SizeMonotone(BeginOrder, i);
    var sizebc := Size(i);
    var flagX := MaskArray(sizebc);
    var flagY := MaskArray(sizebc);
    if i == BeginOrder {
      var b := new real[sizebc](k => 0.0);
      var c := new real[sizebc](k => 0.0);
      b[sizebc - 3] := 1.0;
      c[sizebc - 2] := 1.0;
      assert b[..] == Unit(sizebc, sizebc - 3);
      assert c[..] == Unit(sizebc, sizebc - 2);
      call := LmaCall(i, b[..], c[..], flagX, flagY);
    } else {
      var b, c := WarmStartCopy(i, i - inc, midParams);
      call := LmaCall(i, b, c, flagX, flagY);
    }
  }

  /** `vector<int>::ones(size)` with its last three entries set to 0. */
  method MaskArray(size: nat) returns (m: seq<int>)
    requires size >= 3
    ensures m == Mask(size)
  {
    var flags := new int[size](k => 1);
    flags[size - 3] := 0;
    flags[size - 2] := 0;
    flags[size - 1] := 0;
    m := flags[..];
  }

  /** The copy loop in the order loop of `incLMA`: both halves of the
      previous result copied coefficient by coefficient into the tails of
      zero vectors of order `order`. */
  method WarmStartCopy(order: nat, prevOrder: nat, midParams: seq<real>) returns (b: seq<real>, c: seq<real>)
    requires prevOrder <= order && |midParams| == 2 * Size(prevOrder)
    ensures (b, c) == WarmStarted(order, prevOrder, midParams)
  {
    SizeMonotone(prevOrder, order);
    var sizebc, sizebcOld := Size(order), Size(prevOrder);
    var off := sizebc - sizebcOld;
    var bs := new real[sizebc](k => 0.0);
    var cs := new real[sizebc](k => 0.0);
    var k := 0;
    while k < sizebcOld
      invariant 0 <= k <= sizebcOld
      invariant forall t :: 0 <= t < off ==> bs[t] == 0.0 && cs[t] == 0.0
      invariant forall t :: off <= t < off + k ==> bs[t] == midParams[t - off]
      invariant forall t :: off <= t < off + k ==> cs[t] == midParams[sizebcOld + t - off]
      invariant forall t :: off + k <= t < sizebc ==> bs[t] == 0.0 && cs[t] == 0.0
    {
      bs[off + k] := midParams[k];
      cs[off + k] := midParams[sizebcOld + k];
      k := k + 1;
    }
    forall t | 0 <= t < sizebc
      ensures bs[t] == WarmStart(sizebc, midParams[..sizebcOld])[t]
      ensures cs[t] == WarmStart(sizebc, midParams[sizebcOld..])[t]
    {
      WarmStartIndex(sizebc, midParams[..sizebcOld], t);
      WarmStartIndex(sizebc, midParams[sizebcOld..], t);
    }
    assert bs[..] == WarmStart(sizebc, midParams[..sizebcOld]);
    assert cs[..] == WarmStart(sizebc, midParams[sizebcOld..]);
    b, c := bs[..], cs[..];
  }

  // ------------------------------------------------------------ polyInv

  /** The parameter vector read as the X polynomial of degree degX followed
      by the Y polynomial of degree degY. */
  function SplitParams(p: seq<real>, degX: nat, degY: nat): (halves: (seq<real>, seq<real>))
    requires |p| >= Size(degX) + Size(degY)
    ensures |halves.0| == Size(degX) && |halves.1| == Size(degY)
    ensures halves.0 + halves.1 == p[..Size(degX) + Size(degY)]
  {
    (p[..Size(degX)], p[Size(degX)..Size(degX) + Size(degY)])
  }

  /** Splitting a seed joined back together gives the seed again. */
  lemma SplitParamsOfJoined(x: seq<real>, y: seq<real>, degX: nat, degY: nat)
    requires |x| == Size(degX) && |y| == Size(degY)
    ensures SplitParams(x + y, degX, degY) == (x, y)
  {
    assert (x + y)[..Size(degX)] == x;
    assert (x + y)[Size(degX)..Size(degX) + Size(degY)] == y;
  }

  // ------------------------------------------------------------ polyEstime

  datatype ImageSize = ImageSize(width: nat, height: nat)

  /** The foreign numerical steps of one estimation, each with the image
      size and the centre xp, yp fixed:
      resample is `gaussian_convol_on_curve` with down factor 60,
      lma is `correctionLMA`, refine is the refinement loop of `incLMA`,
      invert is `getParamsInv`. */
  datatype Numerics = Numerics(
    resample: NTupleList -> NTupleList,
    lma: LmaCall -> seq<real>,
    refine: LmaCall -> seq<real>,
    invert: (seq<real>, seq<real>) -> seq<real>)

  ghost predicate NumericsShape(num: Numerics)
  {
    && (forall c :: WellFormed(num.resample(c)))
    && LmaShape(num.lma)
    && LmaShape(num.refine)
  }

  datatype Estimate =
    | SizeMismatch(image: nat)   // image `image` differs in size from image 0
    | NoLines                    // `read_images` found no line
    | Interrupted(image: nat)    // abort asked after image `image`
    | Estimated(polynome: seq<real>, detectedLines: seq<seq<seq<Point>>>)

  /** `min(w, h) * 0.3` truncated to an int. */
  function MinLength(s: ImageSize): (len: nat)
    ensures 10 * len <= 3 * s.width && 10 * len <= 3 * s.height
    ensures 10 * len + 10 > 3 * s.width || 10 * len + 10 > 3 * s.height
  {
    (if s.width < s.height then s.width else s.height) * 3 / 10
  }

  /** The inverse polynomial computed from the fit at `order`. */
  function Inverse(order: nat, num: Numerics): seq<real>
    requires order >= BeginOrder && NumericsShape(num)
  {
    var p := num.refine(RefineStart(order, OrderIncrement, num.lma));
    num.invert(SplitParams(p, order, order).0, SplitParams(p, order, order).1)
  }

  /** Regrouping the resampled curves by image gives, for each image, its
      own kept curves resampled, in detection order. */
  lemma DetectedLinesPerImage(edges: seq<seq<NTupleList>>, thresh: int, resample: NTupleList -> NTupleList)
    requires forall c :: WellFormed(resample(c))
    ensures Sum(GroupCounts(edges, thresh)) == |Resampled(KeptAll(edges, thresh), resample)|
    ensures var parts := Split(Resampled(KeptAll(edges, thresh), resample), GroupCounts(edges, thresh));
      |parts| == |edges| &&
      forall i :: 0 <= i < |edges| ==> parts[i] == Resampled(Kept(edges[i], thresh), resample)
  {
    var ks := KeptPerImage(edges, thresh);
    var rs := seq(|ks|, i requires 0 <= i < |ks| => Resampled(ks[i], resample));
    GroupCountsSum(edges, thresh);
    ResampledConcat(ks, resample);
    assert Counts(rs) == Counts(ks);
    SplitOfConcat(rs);
  }

  /** `polyEstime`: check that all images have the size of the first,
      detect and group the lines, fit the polynomial with the odd orders up
      to `order`, and invert it.  edges[i] is what the edge detector returns
      for image i, asked(i) the abort poll made after reading image i. */
  method PolyEstime(images: seq<ImageSize>, edges: seq<seq<NTupleList>>, order: nat,
                    num: Numerics, asked: nat -> bool)
    returns (r: Estimate)
    requires |images| >= 1 && |edges| == |images|
    requires order >= BeginOrder && NumericsShape(num)
    ensures r.SizeMismatch? <==> exists i :: 0 < i < |images| && images[i] != images[0]
    ensures r.SizeMismatch? ==> 0 < r.image < |images| && images[r.image] != images[0]
                                && forall k :: 0 < k < r.image ==> images[k] == images[0]
    ensures r.Interrupted? <==> !r.SizeMismatch? && exists i :: 0 <= i < |edges| && asked(i)
    ensures r.Interrupted? ==> r.image < |edges| && asked(r.image) && forall k :: 0 <= k < r.image ==> !asked(k)
    ensures r.NoLines? <==> !r.SizeMismatch? && !r.Interrupted? && KeptAll(edges, MinLength(images[0])) == []
    ensures r.Estimated? ==> |r.detectedLines| == |images|
    ensures r.Estimated? ==> forall i :: 0 <= i < |images| ==>
      r.detectedLines[i] == Resampled(Kept(edges[i], MinLength(images[0])), num.resample)
    ensures r.Estimated? ==> r.polynome == Inverse(order, num)
  {
    var mismatch := FirstMismatch(images);
    if mismatch < |images| {
      return SizeMismatch(mismatch);
    }
    var minLength := MinLength(images[0]);
    var read, reports := ReadImages(edges, minLength, num.resample, asked);
    match read {
      case Aborted(image) =>
        return Interrupted(image);
      case NothingDetected =>
        return NoLines;
      case Detected(lineSet) =>
        GroupCountsSum(edges, minLength);
        DetectedLinesPerImage(edges, minLength, num.resample);
        var detectedLines := Regroup(lineSet.lines, lineSet.groups);
        var polyParams, calls := IncLma(order, OrderIncrement, num.lma, num.refine);
        var polynome := PolyInv(polyParams, order, order, num.invert);
        return Estimated(polynome, detectedLines);
    }
  }

  /** The size check of `polyEstime`: the first image, after image 0, whose
      size differs from that of image 0, or |images| when there is none. */
  method FirstMismatch(images: seq<ImageSize>) returns (i: nat)
    requires |images| >= 1
    ensures 1 <= i <= |images|
    ensures forall k :: 0 < k < i ==> images[k] == images[0]
    ensures i < |images| ==> images[i] != images[0]
  {
    i := 1;
    while i < |images|
      invariant 1 <= i <= |images|
      invariant forall k :: 0 < k < i ==> images[k] == images[0]
    {
      if images[i] != images[0] {
        return;
      }
      i := i + 1;
    }
  }

  /** `polyInv` followed by the copy into `polynome`: the inverse of the
      polynomial whose X part is the first Size(degX) parameters and whose Y
      part is the next Size(degY). */
  method PolyInv(params: seq<real>, degX: nat, degY: nat, invert: (seq<real>, seq<real>) -> seq<real>)
    returns (polynome: seq<real>)
    requires |params| >= Size(degX) + Size(degY)
    ensures polynome == invert(SplitParams(params, degX, degY).0, SplitParams(params, degX, degY).1)
  {
    var sizex := (degX + 1) * (degX + 2) / 2;
    var sizey := (degY + 1) * (degY + 2) / 2;
    SizeClosedForm(degX);
    SizeClosedForm(degY);
    var inv := invert(params[..sizex], params[sizex..sizex + sizey]);
    polynome := [];
    var k := 0;
    while k < |inv|
      invariant 0 <= k <= |inv|
      invariant polynome == inv[..k]
    {
      polynome := polynome + [inv[k]];
      k := k + 1;
    }
  }
}
