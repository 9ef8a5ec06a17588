/** `app-carousel`: a track of slides showing one at a time, moved by
    `next`, `previous` and `goTo`. */
module Carousel {
  /** JavaScript's `a % b` for `b > 0`: the dividend less a whole multiple
      of the divisor, with the sign of the dividend and a magnitude below
      the divisor. Dafny's `%` is Euclidean and agrees only from 0 on. */
  function JsRem(a: int, b: int): (r: int)
    requires b > 0
    ensures (a - r) % b == 0
    ensures a >= 0 ==> 0 <= r < b
    ensures a < 0 ==> -b < r <= 0
    ensures 0 <= a < b ==> r == a
    ensures a == b ==> r == 0
  {
    if a >= 0 then
      NonNegativeRem(a, b);
      a % b
    else
      NegativeRem(a, b);
      -((-a) % b)
  }

  /** For a dividend from 0 on, Dafny's remainder already is JavaScript's. */
  lemma NonNegativeRem(a: int, b: int)
    requires a >= 0 && b > 0
    ensures (a - a % b) % b == 0
    ensures 0 <= a % b < b
    ensures a < b ==> a % b == a
    ensures a == b ==> a % b == 0
  {
    MultipleLeft(a, b);
    if a == b {
      MultipleMod(1, b);
    }
  }

  /** For a negative dividend the negated remainder of its magnitude lies
      in -b+1..0 and leaves a multiple of `b`. */
  lemma NegativeRem(a: int, b: int)
    requires a < 0 && b > 0
    ensures (a - -((-a) % b)) % b == 0
    ensures -b < -((-a) % b) <= 0
  {
    var n := -a;
    MultipleLeft(n, b);
    assert a - -(n % b) == -(n - n % b);
    NegatedMultiple(n - n % b, b);
  }

  /** Taking away the Euclidean remainder leaves a multiple of the divisor. */
  lemma MultipleLeft(a: int, b: int)
    requires b > 0
    ensures (a - a % b) % b == 0
  {
    assert a - a % b == (a / b) * b;
    MultipleMod(a / b, b);
  }

  /** A multiple of the divisor leaves no remainder: the remainder is a
      multiple too, and the only one in 0..b-1 is 0. */
  lemma MultipleMod(q: int, b: int)
    requires b > 0
    ensures (q * b) % b == 0
  {
    var x := q * b;
    var k := q - x / b;
    assert x == (x / b) * b + x % b;
    assert x % b == q * b - (x / b) * b;
    assert x % b == k * b;
  }

  lemma NegatedMultiple(x: int, b: int)
    requires b > 0 && x % b == 0
    ensures (-x) % b == 0
  {
    assert x == (x / b) * b;
    assert -x == (-(x / b)) * b;
    MultipleMod(-(x / b), b);
  }

  class Slider {
    var currentIndex: int
    /** The number of slides, as `updateSlides` last counted them. */
    var slideCount: nat

    constructor ()
      ensures currentIndex == 0 && slideCount == 0
    {
      currentIndex := 0;
      slideCount := 0;
    }

    /** `updateSlides`: the children are counted again; the index is left
        alone. */
    method UpdateSlides(count: nat)
      modifies this`slideCount
      ensures slideCount == count
    {
      slideCount := count;
    }

    /** `next`: the remainder of the following index by the slide count,
        which has no value without slides. */
    method Next()
      requires slideCount > 0
      modifies this`currentIndex
      ensures currentIndex == JsRem(old(currentIndex) + 1, slideCount)
    {
      currentIndex := JsRem(currentIndex + 1, slideCount);
    }

    /** `previous`: from 0 to the last slide, otherwise one back. */
    method Previous()
      modifies this`currentIndex
      ensures currentIndex == PrevIndex(old(currentIndex), slideCount)
    {
      currentIndex := if currentIndex == 0 then slideCount - 1 else currentIndex - 1;
    }

    /** `goTo`: the index is stored as given, unchecked. */
    method GoTo(index: int)
      modifies this`currentIndex
      ensures currentIndex == index
    {
      currentIndex := index;
    }
  }

  function NextIndex(i: int, n: int): int
    requires n > 0
  {
    JsRem(i + 1, n)
  }

  function PrevIndex(i: int, n: int): int
  {
    if i == 0 then n - 1 else i - 1
  }

  /** From an index in range, `next` and `previous` stay in range, `next`
      goes one on and wraps from the last slide to the first, and each
      undoes the other. */
  lemma StepsInRange(i: int, n: int)
    requires 0 <= i < n
    ensures 0 <= NextIndex(i, n) < n && 0 <= PrevIndex(i, n) < n
    ensures NextIndex(i, n) == (if i == n - 1 then 0 else i + 1)
    ensures PrevIndex(NextIndex(i, n), n) == i && NextIndex(PrevIndex(i, n), n) == i
  {
  }

  /** `next` pressed `k` times. */
  function NextTimes(i: int, n: int, k: nat): int
    requires n > 0
  {
    if k == 0 then i else NextIndex(NextTimes(i, n, k - 1), n)
  }

  /** Below the last slide, `k` presses move the index up by `k`. */
  lemma {:induction false} NextTimesBelowEnd(i: int, n: int, k: nat)
    requires 0 <= i && i + k < n
    ensures NextTimes(i, n, k) == i + k
  {
    if k > 0 {
      NextTimesBelowEnd(i, n, k - 1);
    }
  }

  /** `a + b` presses are `a` presses followed by `b` more. */
  lemma {:induction false} NextTimesAdd(i: int, n: int, a: nat, b: nat)
    requires n > 0
    ensures NextTimes(i, n, a + b) == NextTimes(NextTimes(i, n, a), n, b)
  {
    if b > 0 {
      NextTimesAdd(i, n, a, b - 1);
    }
  }

  /** `n` presses of `next` come back to the starting slide. */
  lemma FullCycle(i: int, n: int)
    requires 0 <= i < n
    ensures NextTimes(i, n, n) == i
  {
    NextTimesAdd(i, n, n - 1 - i, i + 1);
    NextTimesBelowEnd(i, n, n - 1 - i);
    NextTimesAdd(n - 1, n, 1, i);
    assert NextTimes(n - 1, n, 1) == NextIndex(n - 1, n) == 0;
    NextTimesBelowEnd(0, n, i);
  }

  /** Out of range, the arithmetic is JavaScript's: after `goTo(-3)` on
      five slides `next` gives -2, and `previous` from 0 without slides
      gives -1. */
  lemma OutOfRange()
    ensures NextIndex(-3, 5) == -2
    ensures PrevIndex(0, 0) == -1
  {
  }
}
