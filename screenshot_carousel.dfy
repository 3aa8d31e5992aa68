/**
 * The screenshot carousel of the project pages
 * (components/ScreenshotCarousel.tsx). It shows one image of a list at a
 * time; the arrow buttons step backwards and forwards through the list, wrapping
 * round at either end, and a row of dots marks the image on show.
 */
module ScreenshotCarousel {
  import opened Wrappers

  /** One screenshot. An absent caption and an empty one both show no caption. */
  datatype CarouselImage = CarouselImage(url: string, alt: string, caption: Option<string>)

  // ---------------------------------------------------------------------------
  // The index updaters

  /** The updater of the "next" button: the last index goes back to the first. */
  function NextIndex(i: nat, n: nat): (r: nat)
    requires i < n
    ensures r < n
  {
    if i == n - 1 then 0 else i + 1
  }

  /** The updater of the "previous" button: the first index goes round to the last. */
  function PrevIndex(i: nat, n: nat): (r: nat)
    requires i < n
    ensures r < n
  {
    if i == 0 then n - 1 else i - 1
  }

  /** "Next" is a step forwards round the list. */
  lemma NextIndexMod(i: nat, n: nat)
    requires i < n
    ensures NextIndex(i, n) == (i + 1) % n
  {
    if i == n - 1 {
      ModUnique(n, n, 1, 0);
    } else {
      ModUnique(i + 1, n, 0, i + 1);
    }
  }

  /** "Previous" is a step backwards round the list. */
  lemma PrevIndexMod(i: nat, n: nat)
    requires i < n
    ensures PrevIndex(i, n) == (i + n - 1) % n
  {
    if i == 0 {
      ModUnique(n - 1, n, 0, n - 1);
    } else {
      ModUnique(i + n - 1, n, 1, i - 1);
    }
  }

  /** The two buttons undo each other. */
  lemma PrevNextInverse(i: nat, n: nat)
    requires i < n
    ensures PrevIndex(NextIndex(i, n), n) == i
    ensures NextIndex(PrevIndex(i, n), n) == i
  {
  }

  /** The index after `k` presses of "next". */
  function NextTimes(i: nat, n: nat, k: nat): (r: nat)
    requires i < n
    ensures r < n
  {
    if k == 0 then i else NextIndex(NextTimes(i, n, k - 1), n)
  }

  /** `k` presses of "next" move the index `k` places round the list. */
  lemma {:induction false} NextTimesMod(i: nat, n: nat, k: nat)
    requires i < n
    ensures NextTimes(i, n, k) == (i + k) % n
  {
    if k == 0 {
      ModUnique(i, n, 0, i);
    } else {
      NextTimesMod(i, n, k - 1);
      NextIndexMod(NextTimes(i, n, k - 1), n);
      ModSucc(i + k - 1, n);
    }
  }

  /** Pressing "next" once per image comes back to the image on show, and not before. */
  lemma NextCycle(i: nat, n: nat)
    requires i < n
    ensures NextTimes(i, n, n) == i
    ensures forall k :: 0 < k < n ==> NextTimes(i, n, k) != i
  {
    NextTimesMod(i, n, n);
    ModUnique(i + n, n, 1, i);
    forall k | 0 < k < n ensures NextTimes(i, n, k) != i {
      NextTimesMod(i, n, k);
      if i + k < n {
        ModUnique(i + k, n, 0, i + k);
      } else {
        ModUnique(i + k, n, 1, i + k - n);
      }
    }
  }

  // ---------------------------------------------------------------------------
  // Arithmetic round the list

  lemma {:induction false} MulAtLeast(d: int, n: int)
    requires d >= 1 && n > 0
    ensures d * n >= n
    decreases d
  {
    if d > 1 {
      MulAtLeast(d - 1, n);
      assert d * n == (d - 1) * n + n;
    }
  }

  lemma MulLess(a: int, b: int, n: int)
    requires a < b && n > 0
    ensures a * n + n <= b * n
  {
    MulAtLeast(b - a, n);
    assert b * n == a * n + (b - a) * n;
  }

  /** The remainder is the one `r` in `[0, n)` with `x == q * n + r`. */
  lemma ModUnique(x: int, n: int, q: int, r: int)
    requires n > 0 && 0 <= r < n && x == q * n + r
    ensures x % n == r
  {
    var q0 := x / n;
    assert x == q0 * n + x % n;
    if q0 < q {
      MulLess(q0, q, n);
    } else if q < q0 {
      MulLess(q, q0, n);
    }
  }

  lemma ModSucc(x: int, n: int)
    requires n > 0
    ensures (x % n + 1) % n == (x + 1) % n
  {
    var q := x / n;
    var r := x % n;
    assert x == q * n + r;
    if r + 1 == n {
      ModUnique(r + 1, n, 1, 0);
      ModUnique(x + 1, n, q + 1, 0);
    } else {
      ModUnique(r + 1, n, 0, r + 1);
      ModUnique(x + 1, n, q, r + 1);
    }
  }

  lemma ModPred(x: int, n: int)
    requires n > 0
    ensures (x % n + n - 1) % n == (x - 1) % n
  {
    var q := x / n;
    var r := x % n;
    assert x == q * n + r;
    if r == 0 {
      ModUnique(n - 1, n, 0, n - 1);
      ModUnique(x - 1, n, q - 1, n - 1);
    } else {
      ModUnique(r + n - 1, n, 1, r - 1);
      ModUnique(x - 1, n, q, r - 1);
    }
  }

  // ---------------------------------------------------------------------------
  // Clicks

  datatype Click = PrevClick | NextClick

  /** The index after the clicks, applied in order from `i`. */
  function Replay(i: nat, n: nat, clicks: seq<Click>): (r: nat)
    requires i < n
    ensures r < n
  {
    if clicks == [] then i
    else
      var j := Replay(i, n, clicks[..|clicks| - 1]);
      if clicks[|clicks| - 1] == NextClick then NextIndex(j, n) else PrevIndex(j, n)
  }

  function Count(clicks: seq<Click>, c: Click): nat {
    if clicks == [] then 0
    else Count(clicks[..|clicks| - 1], c) + (if clicks[|clicks| - 1] == c then 1 else 0)
  }

  /** Whatever the order of the clicks, the index is the start plus the "next" clicks minus the "previous" clicks, round the list. */
  lemma {:induction false} ReplayPosition(i: nat, n: nat, clicks: seq<Click>)
    requires i < n
    ensures Replay(i, n, clicks) == (i + Count(clicks, NextClick) - Count(clicks, PrevClick)) % n
  {
    if clicks != [] {
      var init := clicks[..|clicks| - 1];
      ReplayPosition(i, n, init);
      var x := i + Count(init, NextClick) - Count(init, PrevClick);
      var j := Replay(i, n, init);
      if clicks[|clicks| - 1] == NextClick {
        NextIndexMod(j, n);
        ModSucc(x, n);
      } else {
        PrevIndexMod(j, n);
        ModPred(x, n);
      }
    } else {
      ModUnique(i, n, 0, i);
    }
  }

  // ---------------------------------------------------------------------------
  // What is rendered

  /** The rendered carousel: nothing at all, or the current image with its controls. */
  datatype CarouselView =
    | Hidden
    | Shown(url: string, alt: string, priority: bool, arrows: bool, caption: Option<string>, dots: seq<bool>)

  /** What the component renders for `images` with index `idx`; each dot says whether it is highlighted. */
  function ViewOf(images: seq<CarouselImage>, idx: nat): (v: CarouselView)
    requires idx == 0 || idx < |images|
    ensures v.Hidden? <==> images == []
    ensures v.Shown? ==> v.url == images[idx].url && v.alt == images[idx].alt
    ensures v.Shown? ==> (v.priority <==> idx == 0)
    ensures v.Shown? ==> (v.arrows <==> |images| > 1)
    ensures v.Shown? ==> (v.caption.Some? <==> images[idx].caption.Some? && images[idx].caption.value != [])
    ensures v.Shown? && v.caption.Some? ==> v.caption == images[idx].caption
    ensures v.Shown? && |images| > 1 ==> |v.dots| == |images| && forall j :: 0 <= j < |v.dots| ==> (v.dots[j] <==> j == idx)
    ensures v.Shown? && |images| <= 1 ==> v.dots == []
  {
    if images == [] then Hidden
    else
      var image := images[idx];
      Shown(
        image.url, image.alt, idx == 0, |images| > 1,
        if image.caption.Some? && image.caption.value != [] then image.caption else None,
        if |images| > 1 then seq(|images|, j => j == idx) else [])
  }

  function Highlighted(dots: seq<bool>): nat {
    if dots == [] then 0 else Highlighted(dots[..|dots| - 1]) + (if dots[|dots| - 1] then 1 else 0)
  }

  lemma {:induction false} HighlightedOne(dots: seq<bool>, idx: nat)
    requires idx < |dots|
    requires forall j :: 0 <= j < |dots| ==> (dots[j] <==> j == idx)
    ensures Highlighted(dots) == 1
  {
    var init := dots[..|dots| - 1];
    if idx < |init| {
      HighlightedOne(init, idx);
    } else {
      HighlightedNone(init);
    }
  }

  lemma {:induction false} HighlightedNone(dots: seq<bool>)
    requires forall j :: 0 <= j < |dots| ==> !dots[j]
    ensures Highlighted(dots) == 0
  {
    if dots != [] {
      HighlightedNone(dots[..|dots| - 1]);
    }
  }

  /** With more than one image exactly one dot is highlighted. */
  lemma OneDotHighlighted(images: seq<CarouselImage>, idx: nat)
    requires idx < |images| && |images| > 1
    ensures ViewOf(images, idx).Shown? && Highlighted(ViewOf(images, idx).dots) == 1
  {
    HighlightedOne(ViewOf(images, idx).dots, idx);
  }

  // ---------------------------------------------------------------------------
  // The component's state

  /** The carousel: its `images` prop and its `idx` state. */
  class Carousel {
    const images: seq<CarouselImage>
    var idx: nat

    /** The index always names an image, unless there are none. */
    predicate Valid()
      reads this
    {
      idx == 0 || idx < |images|
    }

    /** A missing list behaves as an empty one; the index starts at 0. */
    constructor(prop: Option<seq<CarouselImage>>)
      ensures images == (if prop.Some? then prop.value else [])
      ensures idx == 0 && Valid()
    {
      images := if prop.Some? then prop.value else [];
      idx := 0;
    }

    /** The "previous" button (rendered only for more than one image; stepping is defined for any non-empty list). */
    method Prev()
      requires Valid() && |images| > 0
      modifies this
      ensures Valid()
      ensures idx == PrevIndex(old(idx), |images|)
    {
      idx := PrevIndex(idx, |images|);
    }

    /** The "next" button (rendered only for more than one image; stepping is defined for any non-empty list). */
    method Next()
      requires Valid() && |images| > 0
      modifies this
      ensures Valid()
      ensures idx == NextIndex(old(idx), |images|)
    {
      idx := NextIndex(idx, |images|);
    }

    /** What the component renders now. */
    function View(): CarouselView
      requires Valid()
      reads this
    {
      ViewOf(images, idx)
    }
  }
}
