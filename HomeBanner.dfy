/** The home-page carousel of js/home-banner.js: class `HomeBanner`, whose
    methods move `currentIndex`, the `active` class of the slides and dots,
    and the one autoplay interval timer. */
module HomeBanner {
  import opened Text
  import SlideShow

  /** The period of the autoplay timer, in milliseconds. */
  const AutoplayInterval: nat := 5000

  /** The horizontal distance a touch must travel to count as a swipe. */
  const MinSwipeDistance: nat := 50

  /** `goTo`'s target: an index below 0 goes to the last slide, one past
      the end to the first, any other is kept.  Targets are clamped to an
      end, not reduced modulo `n`. */
  function Clamp(index: int, n: nat): (r: nat)
    requires n > 0
    ensures r < n
    ensures 0 <= index < n ==> r == index
    ensures index < 0 ==> r == n - 1
    ensures index >= n ==> r == 0
  {
    if index < 0 then n - 1 else if index >= n then 0 else index
  }

  /** Far targets do not wrap round: with two slides or more, two back
      from the first is the last slide, where wrapping would give the
      last but one, and two past the end is the first, where wrapping
      would give the second. */
  lemma ClampIsNotWrap(n: nat)
    requires n >= 2
    ensures Clamp(-2, n) == n - 1 && (-2) % n == n - 2
    ensures Clamp(n + 1, n) == 0 && (n + 1) % n == 1
  {
  }

  /** For a target one step away, clamping and wrapping agree: `next` and
      `prev` step like the carousel of js/main.js. */
  lemma StepsAgreeWithSlideShow(i: nat, n: nat)
    requires i < n
    ensures Clamp(i + 1, n) == SlideShow.NextIndex(i, n)
    ensures Clamp(i - 1, n) == SlideShow.PrevIndex(i, n)
  {
  }

  /** `classList.remove`/`add('active')` on element `i`, when there is one. */
  function SetActive(flags: seq<bool>, i: nat, on: bool): (r: seq<bool>)
    ensures |r| == |flags|
    ensures forall j | 0 <= j < |r| && j != i :: r[j] == flags[j]
    ensures i < |r| ==> r[i] == on
  {
    if i < |flags| then flags[i := on] else flags
  }

  /** `goTo`'s class change: `active` off the element at `from`, then on
      the one at `to`. */
  function Move(flags: seq<bool>, from: nat, to: nat): seq<bool> {
    SetActive(SetActive(flags, from, false), to, true)
  }

  /** Exactly the element at `k` is active (none, when there is no `k`th). */
  predicate OnlyActive(flags: seq<bool>, k: nat) {
    forall i | 0 <= i < |flags| :: flags[i] <==> i == k
  }

  /** Moving keeps "exactly one active": from only `from` active to only
      `to` active. */
  lemma MoveKeepsOneActive(flags: seq<bool>, from: nat, to: nat)
    requires OnlyActive(flags, from)
    ensures OnlyActive(Move(flags, from, to), to)
  {
  }

  /** Moving changes no element but the two it names. */
  lemma MoveTouchesTwo(flags: seq<bool>, from: nat, to: nat)
    ensures |Move(flags, from, to)| == |flags|
    ensures forall i | 0 <= i < |flags| && i != from && i != to :: Move(flags, from, to)[i] == flags[i]
    ensures to < |flags| ==> Move(flags, from, to)[to]
    ensures from < |flags| && from != to ==> !Move(flags, from, to)[from]
  {
  }

  class HomeBanner {
    /** Whether each slide and each dot has the `active` class. */
    var slideActive: array<bool>
    var dotActive: array<bool>
    var currentIndex: nat
    /** Set by the constructor and never read. */
    var isAnimating: bool
    var autoplayInterval: nat
    /** The id of the autoplay interval, or none. */
    var autoplayTimer: Option<nat>
    /** The intervals this banner has created and not cleared. */
    var liveTimers: set<nat>
    /** The id the next `setInterval` returns; ids are positive, so a
        stored id always counts as set. */
    var nextTimerId: nat
    /** Whether the button, dot, hover, key and touch listeners are bound. */
    var eventsBound: bool

    /** The index names a slide, and the only live interval is the stored one. */
    predicate Valid()
      reads this
    {
      && slideActive != dotActive
      && (slideActive.Length > 0 ==> currentIndex < slideActive.Length)
      && nextTimerId >= 1
      && liveTimers == (if autoplayTimer.None? then {} else {autoplayTimer.value})
      && (autoplayTimer.Some? ==> 1 <= autoplayTimer.value < nextTimerId)
    }

    /** Never more than one autoplay interval is running. */
    lemma AtMostOneTimer()
      requires Valid()
      ensures |liveTimers| <= 1
      ensures autoplayTimer.None? <==> liveTimers == {}
    {
    }

    /** Exactly the current slide, and the current dot if there is one,
        are active. */
    predicate ShowsCurrent()
      reads this, slideActive, dotActive
    {
      OnlyActive(slideActive[..], currentIndex) && OnlyActive(dotActive[..], currentIndex)
    }

    /** `new HomeBanner()` over slides and dots whose `active` classes are
        as the markup sets them; the constructor ends by calling `init`. */
    constructor(slides: seq<bool>, dots: seq<bool>)
      ensures Valid()
      ensures fresh(slideActive) && fresh(dotActive)
      ensures slideActive[..] == slides && dotActive[..] == dots
      ensures currentIndex == 0 && !isAnimating && autoplayInterval == AutoplayInterval
      ensures slides == [] ==> !eventsBound && autoplayTimer.None? && liveTimers == {}
      ensures slides != [] ==> eventsBound && autoplayTimer.Some? && |liveTimers| == 1
    {
      slideActive := new bool[|slides|](i requires 0 <= i < |slides| => slides[i]);
      dotActive := new bool[|dots|](i requires 0 <= i < |dots| => dots[i]);
      currentIndex := 0;
      isAnimating := false;
      autoplayInterval := AutoplayInterval;
      autoplayTimer := None;
      liveTimers := {};
      nextTimerId := 1;
      eventsBound := false;
      new;
      Init();
    }

    /** `init`: without slides nothing happens; otherwise the listeners
        are bound and autoplay starts. */
    method Init()
      requires Valid()
      modifies this`eventsBound, this`autoplayTimer, this`liveTimers, this`nextTimerId
      ensures Valid()
      ensures slideActive.Length == 0 ==>
                eventsBound == old(eventsBound) && autoplayTimer == old(autoplayTimer)
                && liveTimers == old(liveTimers) && nextTimerId == old(nextTimerId)
      ensures slideActive.Length > 0 ==>
                eventsBound && autoplayTimer == Some(old(nextTimerId)) && liveTimers == {old(nextTimerId)}
    {
      if slideActive.Length == 0 {
        return;
      }
      BindEvents();
      StartAutoplay();
    }

    /** `bindEvents`: registers the listeners the handler methods below
        stand for. */
    method BindEvents()
      modifies this`eventsBound
      ensures eventsBound
    {
      eventsBound := true;
    }

    /** `goTo`. */
    method GoTo(index: int)
      requires Valid() && slideActive.Length > 0
      modifies this`currentIndex, slideActive, dotActive
      ensures Valid()
      ensures currentIndex == Clamp(index, slideActive.Length)
      ensures slideActive[..] == Move(old(slideActive[..]), old(currentIndex), currentIndex)
      ensures dotActive[..] == Move(old(dotActive[..]), old(currentIndex), currentIndex)
      ensures old(ShowsCurrent()) ==> ShowsCurrent()
    {
      var target := index;
      if target < 0 {
        target := slideActive.Length - 1;
      } else if target >= slideActive.Length {
        target := 0;
      }
      ghost var slides0, dots0 := slideActive[..], dotActive[..];
      slideActive[currentIndex] := false;
      if currentIndex < dotActive.Length {
        dotActive[currentIndex] := false;
      }
      ghost var from := currentIndex;
      currentIndex := target;
      slideActive[currentIndex] := true;
      if currentIndex < dotActive.Length {
        dotActive[currentIndex] := true;
      }
      assert slideActive[..] == Move(slides0, from, currentIndex);
      assert dotActive[..] == Move(dots0, from, currentIndex);
      if OnlyActive(slides0, from) && OnlyActive(dots0, from) {
        MoveKeepsOneActive(slides0, from, currentIndex);
        MoveKeepsOneActive(dots0, from, currentIndex);
      }
    }

    /** `next`: the following slide, or the first after the last. */
    method Next()
      requires Valid() && slideActive.Length > 0
      modifies this`currentIndex, slideActive, dotActive
      ensures Valid()
      ensures currentIndex == if old(currentIndex) == slideActive.Length - 1 then 0 else old(currentIndex) + 1
      ensures slideActive[..] == Move(old(slideActive[..]), old(currentIndex), currentIndex)
      ensures dotActive[..] == Move(old(dotActive[..]), old(currentIndex), currentIndex)
      ensures old(ShowsCurrent()) ==> ShowsCurrent()
    {
      GoTo(currentIndex + 1);
    }

    /** `prev`: the preceding slide, or the last before the first. */
    method Prev()
      requires Valid() && slideActive.Length > 0
      modifies this`currentIndex, slideActive, dotActive
      ensures Valid()
      ensures currentIndex == if old(currentIndex) == 0 then slideActive.Length - 1 else old(currentIndex) - 1
      ensures slideActive[..] == Move(old(slideActive[..]), old(currentIndex), currentIndex)
      ensures dotActive[..] == Move(old(dotActive[..]), old(currentIndex), currentIndex)
      ensures old(ShowsCurrent()) ==> ShowsCurrent()
    {
      GoTo(currentIndex - 1);
    }

    /** `startAutoplay`: clears the running interval, if any, before
        creating the next one. */
    method StartAutoplay()
      requires Valid()
      modifies this`autoplayTimer, this`liveTimers, this`nextTimerId
      ensures Valid()
      ensures autoplayTimer == Some(old(nextTimerId)) && liveTimers == {old(nextTimerId)}
      ensures nextTimerId == old(nextTimerId) + 1
    {
      if autoplayTimer.Some? {
        liveTimers := liveTimers - {autoplayTimer.value};
      }
      var id := nextTimerId;
      nextTimerId := nextTimerId + 1;
      liveTimers := liveTimers + {id};
      autoplayTimer := Some(id);
    }

    /** `pauseAutoplay`: clears the running interval, if any; with none
        running it changes nothing. */
    method PauseAutoplay()
      requires Valid()
      modifies this`autoplayTimer, this`liveTimers
      ensures Valid()
      ensures autoplayTimer.None? && liveTimers == {}
      ensures old(autoplayTimer).None? ==> liveTimers == old(liveTimers)
    {
      if autoplayTimer.Some? {
        liveTimers := liveTimers - {autoplayTimer.value};
        autoplayTimer := None;
      }
    }

    /** `resetAutoplay`. */
    method ResetAutoplay()
      requires Valid()
      modifies this`autoplayTimer, this`liveTimers, this`nextTimerId
      ensures Valid()
      ensures autoplayTimer == Some(old(nextTimerId)) && liveTimers == {old(nextTimerId)}
      ensures nextTimerId == old(nextTimerId) + 1
    {
      StartAutoplay();
    }

    /** `destroy`: pauses autoplay.  Its `removeEventListener` calls name
        `this.prev` and `this.next`, which were never registered (the
        listeners are separate closures), so every listener stays bound. */
    method Destroy()
      requires Valid()
      modifies this`autoplayTimer, this`liveTimers
      ensures Valid()
      ensures autoplayTimer.None? && liveTimers == {}
      ensures eventsBound == old(eventsBound)
    {
      PauseAutoplay();
    }

    /** The autoplay interval firing: one step forward. */
    method AutoplayTick()
      requires Valid() && slideActive.Length > 0 && autoplayTimer.Some?
      modifies this`currentIndex, slideActive, dotActive
      ensures Valid()
      ensures currentIndex == SlideShow.NextIndex(old(currentIndex), slideActive.Length)
      ensures slideActive[..] == Move(old(slideActive[..]), old(currentIndex), currentIndex)
      ensures dotActive[..] == Move(old(dotActive[..]), old(currentIndex), currentIndex)
      ensures old(ShowsCurrent()) ==> ShowsCurrent()
    {
      StepsAgreeWithSlideShow(currentIndex, slideActive.Length);
      Next();
    }

    /** The previous-button listener: back one slide, autoplay restarted. */
    method ClickPrev()
      requires Valid() && slideActive.Length > 0 && eventsBound
      modifies this`currentIndex, slideActive, dotActive, this`autoplayTimer, this`liveTimers, this`nextTimerId
      ensures Valid()
      ensures currentIndex == SlideShow.PrevIndex(old(currentIndex), slideActive.Length)
      ensures slideActive[..] == Move(old(slideActive[..]), old(currentIndex), currentIndex)
      ensures dotActive[..] == Move(old(dotActive[..]), old(currentIndex), currentIndex)
      ensures old(ShowsCurrent()) ==> ShowsCurrent()
      ensures autoplayTimer == Some(old(nextTimerId)) && liveTimers == {old(nextTimerId)}
    {
      StepsAgreeWithSlideShow(currentIndex, slideActive.Length);
      Prev();
      ResetAutoplay();
    }

    /** The next-button listener: forward one slide, autoplay restarted. */
    method ClickNext()
      requires Valid() && slideActive.Length > 0 && eventsBound
      modifies this`currentIndex, slideActive, dotActive, this`autoplayTimer, this`liveTimers, this`nextTimerId
      ensures Valid()
      ensures currentIndex == SlideShow.NextIndex(old(currentIndex), slideActive.Length)
      ensures slideActive[..] == Move(old(slideActive[..]), old(currentIndex), currentIndex)
      ensures dotActive[..] == Move(old(dotActive[..]), old(currentIndex), currentIndex)
      ensures old(ShowsCurrent()) ==> ShowsCurrent()
      ensures autoplayTimer == Some(old(nextTimerId)) && liveTimers == {old(nextTimerId)}
    {
      StepsAgreeWithSlideShow(currentIndex, slideActive.Length);
      Next();
      ResetAutoplay();
    }

    /** A dot's listener: to the dot's slide (clamped when there are more
        dots than slides), autoplay restarted. */
    method ClickDot(dot: nat)
      requires Valid() && slideActive.Length > 0 && eventsBound && dot < dotActive.Length
      modifies this`currentIndex, slideActive, dotActive, this`autoplayTimer, this`liveTimers, this`nextTimerId
      ensures Valid()
      ensures currentIndex == Clamp(dot, slideActive.Length)
      ensures slideActive[..] == Move(old(slideActive[..]), old(currentIndex), currentIndex)
      ensures dotActive[..] == Move(old(dotActive[..]), old(currentIndex), currentIndex)
      ensures old(ShowsCurrent()) ==> ShowsCurrent()
      ensures autoplayTimer == Some(old(nextTimerId)) && liveTimers == {old(nextTimerId)}
    {
      GoTo(dot);
      ResetAutoplay();
    }

    /** The hover listeners: entering pauses autoplay, leaving starts it. */
    method MouseEnter()
      requires Valid() && eventsBound
      modifies this`autoplayTimer, this`liveTimers
      ensures Valid()
      ensures autoplayTimer.None? && liveTimers == {}
    {
      PauseAutoplay();
    }

    method MouseLeave()
      requires Valid() && eventsBound
      modifies this`autoplayTimer, this`liveTimers, this`nextTimerId
      ensures Valid()
      ensures autoplayTimer == Some(old(nextTimerId)) && liveTimers == {old(nextTimerId)}
    {
      StartAutoplay();
    }

    /** The key listener: the left and right arrows step back and forward
        and restart autoplay; any other key changes nothing. */
    method KeyDown(key: string)
      requires Valid() && slideActive.Length > 0 && eventsBound
      modifies this`currentIndex, slideActive, dotActive, this`autoplayTimer, this`liveTimers, this`nextTimerId
      ensures Valid()
      ensures key == "ArrowLeft" ==> currentIndex == SlideShow.PrevIndex(old(currentIndex), slideActive.Length)
      ensures key == "ArrowRight" ==> currentIndex == SlideShow.NextIndex(old(currentIndex), slideActive.Length)
      ensures key == "ArrowLeft" || key == "ArrowRight" ==>
                && slideActive[..] == Move(old(slideActive[..]), old(currentIndex), currentIndex)
                && dotActive[..] == Move(old(dotActive[..]), old(currentIndex), currentIndex)
                && autoplayTimer == Some(old(nextTimerId)) && liveTimers == {old(nextTimerId)}
      ensures key != "ArrowLeft" && key != "ArrowRight" ==>
                && currentIndex == old(currentIndex)
                && slideActive[..] == old(slideActive[..]) && dotActive[..] == old(dotActive[..])
                && autoplayTimer == old(autoplayTimer) && liveTimers == old(liveTimers)
                && nextTimerId == old(nextTimerId)
      ensures old(ShowsCurrent()) ==> ShowsCurrent()
    {
      if key == "ArrowLeft" {
        ClickPrev();
      } else if key == "ArrowRight" {
        ClickNext();
      }
    }

    /** The touch listeners: a horizontal travel of more than 50 pixels
        steps back (rightward swipe) or forward (leftward swipe) and
        restarts autoplay; a shorter one changes nothing. */
    method Swipe(startX: int, endX: int)
      requires Valid() && slideActive.Length > 0 && eventsBound
      modifies this`currentIndex, slideActive, dotActive, this`autoplayTimer, this`liveTimers, this`nextTimerId
      ensures Valid()
      ensures endX - startX > MinSwipeDistance ==> currentIndex == SlideShow.PrevIndex(old(currentIndex), slideActive.Length)
      ensures startX - endX > MinSwipeDistance ==> currentIndex == SlideShow.NextIndex(old(currentIndex), slideActive.Length)
      ensures endX - startX > MinSwipeDistance || startX - endX > MinSwipeDistance ==>
                && slideActive[..] == Move(old(slideActive[..]), old(currentIndex), currentIndex)
                && dotActive[..] == Move(old(dotActive[..]), old(currentIndex), currentIndex)
                && autoplayTimer == Some(old(nextTimerId)) && liveTimers == {old(nextTimerId)}
      ensures -(MinSwipeDistance as int) <= endX - startX <= MinSwipeDistance ==>
                && currentIndex == old(currentIndex)
                && slideActive[..] == old(slideActive[..]) && dotActive[..] == old(dotActive[..])
                && autoplayTimer == old(autoplayTimer) && liveTimers == old(liveTimers)
                && nextTimerId == old(nextTimerId)
      ensures old(ShowsCurrent()) ==> ShowsCurrent()
    {
      var distance := endX - startX;
      var magnitude := if distance < 0 then -distance else distance;
      if magnitude > MinSwipeDistance {
        if distance > 0 {
          ClickPrev();
        } else {
          ClickNext();
        }
      }
    }
  }
}
