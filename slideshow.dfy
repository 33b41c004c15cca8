/**
 * The optional slideshow: the current slide index, the pause-on-hover flag,
 * and the periodic tick that advances the index while not paused.
 */
module Slideshow {
  import opened Wrappers

  /**
   * The slide that ends up carrying the `active` class after `showSlide`
   * has cleared them all: the one at the index, or none when the index is
   * past the end (indexing the slide list there yields `undefined`, and
   * adding a class to it throws before any slide is activated).
   */
  function ActiveSlide(count: nat, index: int): (a: Option<nat>)
    ensures a.Some? <==> 0 <= index < count
    ensures a.Some? ==> a.value == index
  {
    if 0 <= index < count then Some(index) else None
  }

  /** The index `showSlide(n)` leaves, as the code is written: line 14's reset to 0 is always overwritten. */
  function ShownIndex(count: nat, n: int): int {
    if n < 0 then count - 1 else n
  }

  /** The index after one tick of the interval timer. */
  function TickIndex(count: nat, index: int, paused: bool): int {
    if paused then index else ShownIndex(count, index + 1)
  }

  /** The index after `k` ticks while the slideshow is not paused. */
  function IndexAfterTicks(count: nat, index: int, k: nat): int
    decreases k
  {
    if k == 0 then index else TickIndex(count, IndexAfterTicks(count, index, k - 1), false)
  }

  /** The index never wraps: from any slide, `k` unpaused ticks move it exactly `k` forward. */
  lemma {:induction false} TicksNeverWrap(count: nat, index: nat, k: nat)
    ensures IndexAfterTicks(count, index, k) == index + k
    decreases k
  {
    if k > 0 {
      TicksNeverWrap(count, index, k - 1);
    }
  }

  /** After as many ticks as there are slides, counted from the first, no slide is shown. */
  lemma RunsPastLastSlide(count: nat)
    requires count > 0
    ensures IndexAfterTicks(count, 0, count) == count
    ensures ActiveSlide(count, IndexAfterTicks(count, 0, count)) == None
  {
    TicksNeverWrap(count, 0, count);
  }

  /** The index the code's comment intends: out-of-range indices wrap around to the other end. */
  function WrappedIndex(count: nat, n: int): (i: int)
    requires count > 0
    ensures 0 <= i < count
    ensures 0 <= n < count ==> i == n
  {
    if n >= count then 0 else if n < 0 then count - 1 else n
  }

  /** The index after `k` ticks with wrap-around. */
  function WrappedAfterTicks(count: nat, index: int, k: nat): int
    requires count > 0
    decreases k
  {
    if k == 0 then index else WrappedIndex(count, WrappedAfterTicks(count, index, k - 1) + 1)
  }

  /** With wrap-around the slideshow cycles: `k` ticks from a slide land on slide `(index + k) mod count`, always in range. */
  lemma {:induction false} WrappedTicksCycle(count: nat, index: nat, k: nat)
    requires index < count
    ensures WrappedAfterTicks(count, index, k) == (index + k) % count
    ensures ActiveSlide(count, WrappedAfterTicks(count, index, k)).Some?
    decreases k
  {
    if k > 0 {
      WrappedTicksCycle(count, index, k - 1);
      ModSuccessor(index + k - 1, count);
    }
  }

  /** Counting on by one modulo `c`: the remainder goes up by one, or wraps to 0 from `c - 1`. */
  lemma ModSuccessor(a: nat, c: nat)
    requires c > 0
    ensures (a + 1) % c == if a % c == c - 1 then 0 else a % c + 1
  {
    var q, r := a / c, a % c;
    assert a == q * c + r;
    if r == c - 1 {
      assert a + 1 == (q + 1) * c + 0;
      ModUnique(a + 1, c, q + 1, 0);
    } else {
      assert a + 1 == q * c + (r + 1);
      ModUnique(a + 1, c, q, r + 1);
    }
  }

  /** The remainder is the only `r` in `[0, c)` with `a == q * c + r`. */
  lemma ModUnique(a: int, c: int, q: int, r: int)
    requires c > 0 && 0 <= r < c && a == q * c + r
    ensures a % c == r
  {
    var q', r' := a / c, a % c;
    assert a == q' * c + r';
    assert (q - q') * c == r' - r;
    MulAwayFromZero(q - q', c);
  }

  lemma MulAwayFromZero(d: int, c: int)
    requires c > 0
    ensures d >= 1 ==> d * c >= c
    ensures d <= -1 ==> d * c <= -c
  {
  }

  /** The slideshow's state inside `initSlideshow`. */
  class Slides {
    /** The number of slides; the slideshow is only set up when there is at least one. */
    const count: nat
    var index: int
    var paused: bool
    var active: Option<nat>

    ghost predicate Valid()
      reads this
    {
      count > 0 && index >= 0 && active == ActiveSlide(count, index)
    }

    /** Set-up: not paused, and `showSlide(0)` shows the first slide. */
    constructor (count: nat)
      requires count > 0
      ensures Valid() && this.count == count
      ensures index == 0 && active == Some(0) && !paused
    {
      this.count := count;
      index := 0;
      active := Some(0);
      paused := false;
    }

    /**
     * `showSlide(n)`: a negative `n` selects the last slide and any other `n`
     * is taken as it is, even past the end; the slide at the new index is the
     * active one, or none when there is no slide there.
     */
    method ShowSlide(n: int)
      requires Valid()
      modifies this
      ensures Valid()
      ensures index == ShownIndex(count, n)
      ensures active == ActiveSlide(count, index)
      ensures paused == old(paused)
    {
      if n >= count {
        index := 0;
      }
      if n < 0 {
        index := count - 1;
      } else {
        index := n;
      }
      active := ActiveSlide(count, index);
    }

    /** `nextSlide`: show the slide after the current one. */
    method NextSlide()
      requires Valid()
      modifies this
      ensures Valid()
      ensures index == old(index) + 1 && paused == old(paused)
    {
      ShowSlide(index + 1);
    }

    /** The interval callback: advance only while not paused. */
    method Tick()
      requires Valid()
      modifies this
      ensures Valid()
      ensures index == TickIndex(count, old(index), old(paused))
      ensures old(paused) ==> active == old(active)
      ensures paused == old(paused)
    {
      if !paused {
        NextSlide();
      }
    }

    /** The pointer entering the slideshow container pauses it. */
    method MouseEnter()
      requires Valid()
      modifies this
      ensures Valid() && paused
      ensures index == old(index) && active == old(active)
    {
      paused := true;
    }

    /** The pointer leaving the container resumes it. */
    method MouseLeave()
      requires Valid()
      modifies this
      ensures Valid() && !paused
      ensures index == old(index) && active == old(active)
    {
      paused := false;
    }
  }
}
