/** The featured-books carousel (src/components/FeaturedCarousel.tsx): the
    current index, moved by the arrow buttons, the arrow keys, the dots and
    the 20-second rotation, and the progress bar that each manual move resets. */
module FeaturedCarousel {
  import opened Arith

  /** `(prevIndex + 1) % books.length` */
  function NextIndex(i: nat, n: nat): (r: nat)
    requires n > 0
    ensures r < n
  {
    (i + 1) % n
  }

  /** `prevIndex === 0 ? books.length - 1 : prevIndex - 1` */
  function PrevIndex(i: nat, n: nat): (r: nat)
    requires n > 0
    ensures i < n ==> r < n
  {
    if i == 0 then n - 1 else i - 1
  }

  /** Prev undoes Next and Next undoes Prev. */
  lemma PrevNextInverse(i: nat, n: nat)
    requires n > 0 && i < n
    ensures PrevIndex(NextIndex(i, n), n) == i
    ensures NextIndex(PrevIndex(i, n), n) == i
  {
    if i + 1 < n {
      DivModUnique(i + 1, n, 0, i + 1);
    } else {
      DivModUnique(i + 1, n, 1, 0);
    }
    if i == 0 {
      DivModUnique(n, n, 1, 0);
    } else {
      DivModUnique(i, n, 0, i);
    }
  }

  /** `k` advances from index `i`. */
  function NextTimes(i: nat, k: nat, n: nat): (r: nat)
    requires n > 0
  {
    if k == 0 then i else NextIndex(NextTimes(i, k - 1, n), n)
  }

  lemma {:induction false} NextTimesShifts(i: nat, k: nat, n: nat)
    requires n > 0 && i < n
    ensures NextTimes(i, k, n) == (i + k) % n
  {
    if k == 0 {
      DivModUnique(i, n, 0, i);
    } else {
      NextTimesShifts(i, k - 1, n);
      var a: nat := i + k - 1;
      var prev := NextTimes(i, k - 1, n);
      assert prev == a % n;
      assert NextTimes(i, k, n) == (prev + 1) % n;
      ModSucc(a, n);
      assert a + 1 == i + k;
    }
  }

  /** `n` advances bring the carousel back to where it started. */
  lemma NextFullCircle(i: nat, n: nat)
    requires n > 0 && i < n
    ensures NextTimes(i, n, n) == i
  {
    NextTimesShifts(i, n, n);
    DivModUnique(i + n, n, 1, i);
  }

  /** The state of one mounted carousel over `count` books. Progress moves in
      steps of 100 / (20000 / 100) = 0.5 percent, which a binary float adds
      exactly, so it is kept as a count of half-percent ticks. */
  class Carousel {
    const count: nat
    var index: nat
    var progressTicks: nat

    ghost predicate Valid()
      reads this
    {
      count > 0 && index < count && progressTicks <= 200
    }

    constructor (n: nat)
      requires n > 0
      ensures Valid() && count == n && index == 0 && progressTicks == 0
    {
      count := n;
      index := 0;
      progressTicks := 0;
    }

    /** The progress bar's percentage. */
    function Progress(): real
      reads this
    {
      progressTicks as real / 2.0
    }

    /** `handleNext`: advance and reset the progress. */
    method Next()
      requires Valid()
      modifies this
      ensures Valid() && index == NextIndex(old(index), count) && progressTicks == 0
    {
      index := NextIndex(index, count);
      progressTicks := 0;
    }

    /** `handlePrev` */
    method Prev()
      requires Valid()
      modifies this
      ensures Valid() && index == PrevIndex(old(index), count) && progressTicks == 0
    {
      index := PrevIndex(index, count);
      progressTicks := 0;
    }

    /** `handleDotClick`: the dots are drawn one per book, so `k` is in range. */
    method DotClick(k: nat)
      requires Valid() && k < count
      modifies this
      ensures Valid() && index == k && progressTicks == 0
    {
      index := k;
      progressTicks := 0;
    }

    /** The rotation interval: advance. The progress is reset by the effect
        that re-runs when the index changes; with one book the index stays 0,
        nothing re-renders and the progress runs on. */
    method AutoAdvance()
      requires Valid()
      modifies this
      ensures Valid() && index == NextIndex(old(index), count)
      ensures progressTicks == if index != old(index) then 0 else old(progressTicks)
    {
      var next := NextIndex(index, count);
      if next != index {
        progressTicks := 0;
      }
      index := next;
    }

    /** The 100 ms progress interval: back to 0 once at 100 percent, otherwise
        half a percent more. */
    method ProgressTick()
      requires Valid()
      modifies this
      ensures Valid() && index == old(index)
      ensures progressTicks == if old(progressTicks) >= 200 then 0 else old(progressTicks) + 1
      ensures Progress() == if old(Progress()) >= 100.0 then 0.0 else old(Progress()) + 0.5
    {
      progressTicks := if progressTicks >= 200 then 0 else progressTicks + 1;
    }

    /** One keydown: ArrowLeft goes back, ArrowRight forward, other keys do nothing. */
    method KeyDown(key: string)
      requires Valid()
      modifies this
      ensures Valid()
      ensures index == (if key == "ArrowLeft" then PrevIndex(old(index), count)
                        else if key == "ArrowRight" then NextIndex(old(index), count)
                        else old(index))
      ensures key == "ArrowLeft" || key == "ArrowRight" ==> progressTicks == 0
      ensures key != "ArrowLeft" && key != "ArrowRight" ==> progressTicks == old(progressTicks)
    {
      if key == "ArrowLeft" {
        Prev();
      } else if key == "ArrowRight" {
        Next();
      }
    }

    /** A keydown while the carousel itself has focus, as the component is
        written: the element's `onKeyDown` and the window listener both run. */
    method FocusedKeyDown(key: string)
      requires Valid()
      modifies this
      ensures Valid()
      ensures key == "ArrowRight" ==> index == NextIndex(NextIndex(old(index), count), count)
      ensures key == "ArrowLeft" ==> index == PrevIndex(PrevIndex(old(index), count), count)
      ensures key == "ArrowLeft" || key == "ArrowRight" ==> progressTicks == 0
      ensures key != "ArrowLeft" && key != "ArrowRight" ==> index == old(index) && progressTicks == old(progressTicks)
    {
      KeyDown(key);
      KeyDown(key);
    }

    /** The indicator dots, one per book: exactly the current one highlighted. */
    function Dots(): (dots: seq<bool>)
      reads this
      requires Valid()
      ensures |dots| == count
      ensures forall k :: 0 <= k < count ==> (dots[k] <==> k == index)
    {
      var current := index;
      seq(count, k => k == current)
    }
  }

  /** With three or more books, one ArrowRight on the focused carousel skips a
      slide: from the first book it lands on the third, while one press should
      show the second. */
  lemma FocusedArrowSkipsSlide(n: nat)
    requires n >= 3
    ensures NextIndex(NextIndex(0, n), n) == 2
    ensures NextIndex(0, n) == 1
  {
    DivModUnique(1, n, 0, 1);
    DivModUnique(2, n, 0, 2);
  }
}
