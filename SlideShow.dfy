/** The banner carousel of js/main.js (`initBanner`): a shared
    `bannerIndex` and the `active` class on each slide and dot, moved by
    `showSlide`, `nextSlide` and `prevSlide`. */
module SlideShow {

  /** The slide after `i` among `n`, wrapping from the last to the first.
      The index is never negative (it starts at 0 and is only ever set to a
      slide or dot position), so `%` here agrees with JavaScript's. */
  function NextIndex(i: nat, n: nat): (r: nat)
    requires n > 0
    ensures r < n
    ensures i < n - 1 ==> r == i + 1
    ensures i == n - 1 ==> r == 0
  {
    (i + 1) % n
  }

  /** The slide before `i` among `n`, wrapping from the first to the last. */
  function PrevIndex(i: nat, n: nat): (r: nat)
    requires n > 0
    ensures r < n
    ensures 0 < i < n ==> r == i - 1
    ensures i == 0 ==> r == n - 1
  {
    (i - 1 + n) % n
  }

  /** Going back undoes going forward, and the other way round. */
  lemma StepsUndo(i: nat, n: nat)
    requires i < n
    ensures PrevIndex(NextIndex(i, n), n) == i
    ensures NextIndex(PrevIndex(i, n), n) == i
  {
  }

  /** The slide reached by `k` calls of `nextSlide` from `i`. */
  function Forward(i: nat, n: nat, k: nat): (r: nat)
    requires n > 0 && i < n
    ensures r < n
    decreases k
  {
    if k == 0 then i else NextIndex(Forward(i, n, k - 1), n)
  }

  /** Up to `n` steps forward go round the carousel at most once. */
  lemma {:induction false} ForwardWraps(i: nat, n: nat, k: nat)
    requires i < n && k <= n
    ensures Forward(i, n, k) == if i + k < n then i + k else i + k - n
    decreases k
  {
    if k > 0 {
      ForwardWraps(i, n, k - 1);
    }
  }

  /** `n` steps forward from any slide come back to it. */
  lemma FullCycle(i: nat, n: nat)
    requires i < n
    ensures Forward(i, n, n) == i
    ensures forall k | 0 < k < n :: Forward(i, n, k) != i
  {
    ForwardWraps(i, n, n);
    forall k | 0 < k < n ensures Forward(i, n, k) != i {
      ForwardWraps(i, n, k);
    }
  }

  /** The carousel's state: which slides and dots carry `active`, and the
      shared `bannerIndex`. */
  class Carousel {
    var slideActive: array<bool>
    var dotActive: array<bool>
    var bannerIndex: nat

    /** `initBanner` stops at a page without slides; slides and dots are
        different elements. */
    predicate Valid()
      reads this
    {
      slideActive.Length > 0 && slideActive != dotActive
    }

    /** Exactly the slide and dot at `k` are active. */
    predicate Shows(k: nat)
      reads this, slideActive, dotActive
    {
      && (forall i | 0 <= i < slideActive.Length :: slideActive[i] <==> i == k)
      && (forall i | 0 <= i < dotActive.Length :: dotActive[i] <==> i == k)
    }

    /** A carousel over the page's slides and dots, with their `active`
        classes as the markup sets them and `bannerIndex` at 0. */
    constructor(slides: seq<bool>, dots: seq<bool>)
      requires |slides| > 0
      ensures Valid()
      ensures slideActive[..] == slides && dotActive[..] == dots && bannerIndex == 0
      ensures fresh(slideActive) && fresh(dotActive)
    {
      slideActive := new bool[|slides|](i requires 0 <= i < |slides| => slides[i]);
      dotActive := new bool[|dots|](i requires 0 <= i < |dots| => dots[i]);
      bannerIndex := 0;
    }

    /** `showSlide`: `active` on the slide and dot at `index` and on no
        other, and `bannerIndex` set to `index`. */
    method ShowSlide(index: nat)
      requires Valid()
      modifies this`bannerIndex, slideActive, dotActive
      ensures Valid()
      ensures bannerIndex == index
      ensures Shows(index)
    {
      for i := 0 to slideActive.Length
        invariant forall j | 0 <= j < i :: slideActive[j] <==> j == index
      {
        slideActive[i] := i == index;
      }
      for i := 0 to dotActive.Length
        invariant forall j | 0 <= j < slideActive.Length :: slideActive[j] <==> j == index
        invariant forall j | 0 <= j < i :: dotActive[j] <==> j == index
      {
        dotActive[i] := i == index;
      }
      bannerIndex := index;
    }

    /** `nextSlide`. */
    method NextSlide()
      requires Valid()
      modifies this`bannerIndex, slideActive, dotActive
      ensures Valid()
      ensures bannerIndex == NextIndex(old(bannerIndex), slideActive.Length)
      ensures Shows(bannerIndex)
    {
      ShowSlide(NextIndex(bannerIndex, slideActive.Length));
    }

    /** `prevSlide`. */
    method PrevSlide()
      requires Valid()
      modifies this`bannerIndex, slideActive, dotActive
      ensures Valid()
      ensures bannerIndex == PrevIndex(old(bannerIndex), slideActive.Length)
      ensures Shows(bannerIndex)
    {
      ShowSlide(PrevIndex(bannerIndex, slideActive.Length));
    }
  }
}
