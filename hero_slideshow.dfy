// The hero image carousel: `current` names the slide in front; every slide
// gets the class `slide` plus at most one position class derived from its
// offset to the current slide.

module HeroSlideshow {

  /** The class list a slide ends up with: `slide` alone, or `slide` plus one position class. */
  datatype Position = Plain | Active | Right1 | Right2 | Left1 | Left2

  /**
   * The offset of slide `index` from the current slide,
   * (index - current + n) % n. The dividend is positive, so JavaScript's
   * remainder and Dafny's agree.
   */
  function Offset(index: nat, current: nat, n: nat): (o: nat)
    requires index < n && current < n
    ensures o < n
    ensures current + o == index || current + o == index + n
  {
    ModBelowTwice(index - current + n, n);
    (index - current + n) % n
  }

  /** For 0 <= x < 2n, x % n is x or x - n. */
  lemma ModBelowTwice(x: int, n: int)
    requires n > 0 && 0 <= x < 2 * n
    ensures x % n == if x < n then x else x - n
  {
  }

  /** The `else if` chain of `updateSlides`, tested in its order. */
  function PositionOf(offset: nat, n: nat): Position
  {
    if offset == 0 then Active
    else if offset == 1 then Right1
    else if offset == 2 then Right2
    else if offset == n - 1 then Left1
    else if offset == n - 2 then Left2
    else Plain
  }

  /** The slide k places after `current`, counting round the end. */
  function Ahead(current: nat, k: nat, n: nat): int
  {
    if current + k < n then current + k else current + k - n
  }

  /** The slide k places before `current`, counting round the start. */
  function Behind(current: nat, k: nat, n: nat): int
  {
    if k <= current then current - k else current + n - k
  }

  /**
   * The classes of all n slides when `current` is in front: the current
   * slide is active, the next two are `right1` and `right2`, the two before
   * it are `left1` and `left2` (each once there are enough slides for it to
   * be a slide of its own), and every other slide has no position class.
   */
  function Layout(current: nat, n: nat): (r: seq<Position>)
    requires current < n
    ensures |r| == n
    ensures forall i :: 0 <= i < n ==> r[i] == PositionOf(Offset(i, current, n), n)
    ensures r[current] == Active
    ensures forall i :: 0 <= i < n && r[i] == Active ==> i == current
    ensures n >= 2 ==> r[Ahead(current, 1, n)] == Right1
    ensures n >= 3 ==> r[Ahead(current, 2, n)] == Right2
    ensures n >= 4 ==> r[Behind(current, 1, n)] == Left1
    ensures n >= 5 ==> r[Behind(current, 2, n)] == Left2
    ensures forall i :: 0 <= i < n && r[i] != Plain ==>
      i == current || i == Ahead(current, 1, n) || i == Ahead(current, 2, n) ||
      i == Behind(current, 1, n) || i == Behind(current, 2, n)
  {
    var r := seq(n, i requires 0 <= i < n => PositionOf(Offset(i, current, n), n));
    assert Offset(current, current, n) == 0;
    assert n >= 2 ==> Offset(Ahead(current, 1, n), current, n) == 1;
    assert n >= 3 ==> Offset(Ahead(current, 2, n), current, n) == 2;
    assert n >= 4 ==> Offset(Behind(current, 1, n), current, n) == n - 1;
    assert n >= 5 ==> Offset(Behind(current, 2, n), current, n) == n - 2;
    assert forall i :: 0 <= i < n && r[i] != Plain ==> Offset(i, current, n) in {0, 1, 2, n - 1, n - 2};
    r
  }

  class Slideshow {
    /** One entry per slide element: its class list. */
    var slides: array<Position>
    var current: nat

    ghost predicate Valid()
      reads this
    {
      slides.Length > 0 ==> current < slides.Length
    }

    /** `init`: with no slides it stops at once; otherwise it lays the slides out. */
    constructor (n: nat)
      ensures Valid() && fresh(slides) && slides.Length == n && current == 0
      ensures n > 0 ==> slides[..] == Layout(0, n)
    {
      slides := new Position[n](_ => Plain);
      current := 0;
      new;
      if n > 0 {
        UpdateSlides();
      }
    }

    /** Resets every slide's class and adds the class its offset selects. */
    method UpdateSlides()
      requires Valid() && slides.Length > 0
      modifies slides
      ensures slides[..] == Layout(current, slides.Length)
    {
      var n := slides.Length;
      for index := 0 to n
        invariant forall i :: 0 <= i < index ==> slides[i] == PositionOf(Offset(i, current, n), n)
      {
        slides[index] := PositionOf(Offset(index, current, n), n);
      }
    }

    /** The timer step: the next slide comes to the front. */
    method Rotate()
      requires Valid() && slides.Length > 0
      modifies this, slides
      ensures Valid() && slides == old(slides)
      ensures current == Next(old(current), slides.Length)
      ensures slides[..] == Layout(current, slides.Length)
    {
      current := (current + 1) % slides.Length;
      UpdateSlides();
    }

    /** A click on slide `index` brings it to the front. */
    method Select(index: nat)
      requires Valid() && index < slides.Length
      modifies this, slides
      ensures Valid() && slides == old(slides)
      ensures current == index
      ensures slides[..] == Layout(index, slides.Length)
    {
      current := index;
      UpdateSlides();
    }
  }

  /** The new value of `current` after one rotation. */
  function Next(current: nat, n: nat): (r: nat)
    requires n > 0
    ensures r < n
    ensures current < n ==> r == if current == n - 1 then 0 else current + 1
  {
    if current < n then ModBelowTwice(current + 1, n); (current + 1) % n
    else (current + 1) % n
  }

  /** `current` after k rotations. */
  function Rotations(current: nat, n: nat, k: nat): nat
    requires n > 0
  {
    if k == 0 then current else Next(Rotations(current, n, k - 1), n)
  }

  /** k <= n rotations advance a valid `current` by k, wrapping around once past the last slide. */
  lemma {:induction false} RotationsAdd(current: nat, n: nat, k: nat)
    requires current < n && k <= n
    ensures Rotations(current, n, k) == if current + k < n then current + k else current + k - n
  {
    if k > 0 {
      RotationsAdd(current, n, k - 1);
    }
  }

  /** n rotations bring the carousel back to where it started, and fewer do not. */
  lemma FullCycle(current: nat, n: nat)
    requires current < n
    ensures Rotations(current, n, n) == current
    ensures forall k :: 0 < k < n ==> Rotations(current, n, k) != current
  {
    RotationsAdd(current, n, n);
    forall k | 0 < k < n ensures Rotations(current, n, k) != current {
      RotationsAdd(current, n, k);
    }
  }

  /**
   * The order of the chain decides ties: with two slides the other one is
   * `right1` (not `left1`), with three the third is `right2`, and with four
   * the slide at offset 3 is `left1`; slides at offsets 3 to n - 3 get no
   * position class.
   */
  lemma ChainOrder(current: nat, n: nat, i: nat)
    requires current < n && i < n
    ensures var o := Offset(i, current, n);
      (n == 2 && o == 1 ==> Layout(current, n)[i] == Right1) &&
      (n == 3 && o == 2 ==> Layout(current, n)[i] == Right2) &&
      (n == 4 && o == 3 ==> Layout(current, n)[i] == Left1) &&
      (3 <= o <= n - 3 ==> Layout(current, n)[i] == Plain) &&
      (n >= 5 && o == n - 1 ==> Layout(current, n)[i] == Left1) &&
      (n >= 5 && o == n - 2 ==> Layout(current, n)[i] == Left2)
  {
  }

  /** Each position class is used by at most one slide, however many slides there are. */
  lemma PositionsDistinct(current: nat, n: nat, i: nat, j: nat)
    requires current < n && i < n && j < n && i != j
    ensures Layout(current, n)[i] == Plain || Layout(current, n)[i] != Layout(current, n)[j]
  {
  }
}
