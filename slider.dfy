/** Model of components/ProjectImgeSlider.tsx: a carousel that keeps a cursor
    over a fixed, non-empty list of image references. The cursor moves by the
    previous/next buttons, by a click on one of the position dots and by a
    recurring timer; the renderer shows the image, and highlights the dot,
    whose index equals the cursor. */
module ProjectImageSlider {

  /** The class suffixes the renderer gives to the shown and the hidden images. */
  const VisibleImage := "opacity-100"
  const HiddenImage := "opacity-0"

  /** The class suffixes the renderer gives to the highlighted and the other dots. */
  const ActiveDot := "bg-white"
  const InactiveDot := "bg-white/50 hover:bg-white/70"

  // ---------------------------------------------------------------------------
  // Modular arithmetic used to characterise the steps
  // ---------------------------------------------------------------------------

  /** A positive multiple of n is at least n. */
  lemma MultipleAtLeast(d: int, n: int)
    requires d >= 1 && n > 0
    ensures d * n >= n
  {
  }

  /** Euclidean division has exactly one quotient and remainder. */
  lemma ModOfDecomposition(a: int, n: int, q: int, r: int)
    requires n > 0 && 0 <= r < n && a == q * n + r
    ensures a % n == r && a / n == q
  {
    var q', r' := a / n, a % n;
    assert a == q' * n + r';
    assert (q - q') * n == q * n - q' * n;
    if q > q' {
      MultipleAtLeast(q - q', n);
    } else if q < q' {
      MultipleAtLeast(q' - q, n);
    }
  }

  /** Taking the remainder before adding one changes nothing modulo n. */
  lemma ModSuccessor(a: int, n: int)
    requires n > 0
    ensures (a % n + 1) % n == (a + 1) % n
  {
    var q, r := a / n, a % n;
    if r + 1 < n {
      ModOfDecomposition(a + 1, n, q, r + 1);
      ModOfDecomposition(r + 1, n, 0, r + 1);
    } else {
      ModOfDecomposition(a + 1, n, q + 1, 0);
      ModOfDecomposition(r + 1, n, 1, 0);
    }
  }

  // ---------------------------------------------------------------------------
  // The index updaters
  // ---------------------------------------------------------------------------

  /** The updater of the "next" button and of every timer tick: the last image
      wraps round to the first, any other index moves one forward. */
  function NextIndex(i: nat, n: nat): (r: nat)
    requires i < n
    ensures r < n
    ensures r == (i + 1) % n
  {
    if i == n - 1 then
      ModOfDecomposition(i + 1, n, 1, 0);
      0
    else
      ModOfDecomposition(i + 1, n, 0, i + 1);
      i + 1
  }

  /** The updater of the "previous" button: the first image wraps round to the
      last, any other index moves one back. */
  function PrevIndex(i: nat, n: nat): (r: nat)
    requires i < n
    ensures r < n
    ensures r == (i - 1 + n) % n
  {
    if i == 0 then
      ModOfDecomposition(n - 1, n, 0, n - 1);
      n - 1
    else
      ModOfDecomposition(i - 1 + n, n, 1, i - 1);
      i - 1
  }

  /** The last image is followed by the first, every other one by its successor. */
  lemma NextWrapsAround(n: nat)
    requires n >= 1
    ensures NextIndex(n - 1, n) == 0
    ensures forall i :: 0 <= i < n - 1 ==> NextIndex(i, n) == i + 1
  {
  }

  /** The first image is preceded by the last, every other one by its predecessor. */
  lemma PrevWrapsAround(n: nat)
    requires n >= 1
    ensures PrevIndex(0, n) == n - 1
    ensures forall i :: 0 < i < n ==> PrevIndex(i, n) == i - 1
  {
  }

  /** "Previous" undoes "next" and "next" undoes "previous". */
  lemma PrevNextInverse(i: nat, n: nat)
    requires i < n
    ensures PrevIndex(NextIndex(i, n), n) == i
    ensures NextIndex(PrevIndex(i, n), n) == i
  {
  }

  // ---------------------------------------------------------------------------
  // The timer
  // ---------------------------------------------------------------------------

  /** The index reached from i after k timer ticks and no manual input. */
  function Ticks(i: nat, n: nat, k: nat): (r: nat)
    requires i < n
    ensures r < n
    decreases k
  {
    if k == 0 then i else NextIndex(Ticks(i, n, k - 1), n)
  }

  /** k ticks advance the cursor by k positions, modulo the number of images. */
  lemma {:induction false} TicksAdvance(i: nat, n: nat, k: nat)
    requires i < n
    ensures Ticks(i, n, k) == (i + k) % n
    decreases k
  {
    if k == 0 {
      ModOfDecomposition(i, n, 0, i);
    } else {
      TicksAdvance(i, n, k - 1);
      ModSuccessor(i + k - 1, n);
    }
  }

  /** From the initial index, k ticks give k modulo the number of images. */
  lemma TicksFromStart(n: nat, k: nat)
    requires n >= 1
    ensures Ticks(0, n, k) == k % n
  {
    TicksAdvance(0, n, k);
  }

  /** As many ticks as there are images bring the cursor back where it was. */
  lemma TicksFullCycle(i: nat, n: nat)
    requires i < n
    ensures Ticks(i, n, n) == i
  {
    TicksAdvance(i, n, n);
    ModOfDecomposition(i + n, n, 1, i);
  }

  /** Ticking from the successor is ticking once more. */
  lemma {:induction false} TicksShift(i: nat, n: nat, k: nat)
    requires i < n
    ensures Ticks(NextIndex(i, n), n, k) == Ticks(i, n, k + 1)
    decreases k
  {
    if k > 0 {
      TicksShift(i, n, k - 1);
    }
  }

  /** With a single image, every step leaves the cursor at 0. */
  lemma SingleImageNeverMoves(k: nat)
    ensures NextIndex(0, 1) == 0 && PrevIndex(0, 1) == 0 && Ticks(0, 1, k) == 0
  {
  }

  // ---------------------------------------------------------------------------
  // Sequences of events
  // ---------------------------------------------------------------------------

  /** What can move the cursor: the two buttons, a dot and the timer. */
  datatype Event = NextClick | PrevClick | DotClick(dotIndex: nat) | TimerTick

  /** A dot click can only name a dot the renderer drew, one per image. */
  predicate Admissible(e: Event, n: nat) {
    e.DotClick? ==> e.dotIndex < n
  }

  /** The effect of one event on the cursor. */
  function Step(i: nat, n: nat, e: Event): (r: nat)
    requires i < n && Admissible(e, n)
    ensures r < n
  {
    match e
    case NextClick => NextIndex(i, n)
    case PrevClick => PrevIndex(i, n)
    case DotClick(d) => d
    case TimerTick => NextIndex(i, n)
  }

  /** The cursor after a sequence of events, applied in order; it never leaves
      the range of valid image indices. */
  function Run(i: nat, n: nat, es: seq<Event>): (r: nat)
    requires i < n
    requires forall k :: 0 <= k < |es| ==> Admissible(es[k], n)
    ensures r < n
    decreases |es|
  {
    if es == [] then i else Run(Step(i, n, es[0]), n, es[1..])
  }

  /** k timer events in a row do what k ticks do. */
  lemma {:induction false} RunOfTicks(i: nat, n: nat, k: nat)
    requires i < n
    ensures Run(i, n, seq(k, _ => TimerTick)) == Ticks(i, n, k)
    decreases k
  {
    var es := seq(k, _ => TimerTick);
    if k > 0 {
      assert es[1..] == seq(k - 1, _ => TimerTick);
      RunOfTicks(NextIndex(i, n), n, k - 1);
      TicksShift(i, n, k - 1);
    }
  }

  /** A manual step and a tick compose through the shared cursor: with three
      images, "next" and then one tick take the cursor from 0 to 2, and with
      four images three ticks take it from 0 to 3. */
  lemma ManualAndTimerCompose()
    ensures Run(0, 3, [NextClick, TimerTick]) == 2
    ensures Run(0, 4, [TimerTick, TimerTick, TimerTick]) == 3
  {
  }

  // ---------------------------------------------------------------------------
  // Rendering
  // ---------------------------------------------------------------------------

  /** One rendered image: its source and its visibility class. */
  datatype ImageTag = ImageTag(src: string, cls: string)

  /** One rendered position dot: the index its click jumps to, and its class. */
  datatype Dot = Dot(target: nat, cls: string)

  /** The images as rendered: one tag per image, in order, and only the one at
      the cursor visible. */
  function RenderImages(images: seq<string>, current: nat): (r: seq<ImageTag>)
    ensures |r| == |images|
    ensures forall j :: 0 <= j < |r| ==> r[j].src == images[j]
    ensures forall j :: 0 <= j < |r| ==> (r[j].cls == VisibleImage <==> j == current)
  {
    seq(|images|, j requires 0 <= j < |images| =>
      ImageTag(images[j], if j == current then VisibleImage else HiddenImage))
  }

  /** The dots as rendered: one per image, each jumping to a valid index, and
      only the one at the cursor highlighted. */
  function RenderDots(n: nat, current: nat): (r: seq<Dot>)
    ensures |r| == n
    ensures forall j :: 0 <= j < n ==> r[j].target == j && r[j].target < n
    ensures forall j :: 0 <= j < n ==> (r[j].cls == ActiveDot <==> j == current)
  {
    seq(n, (j: nat) => Dot(j, if j == current then ActiveDot else InactiveDot))
  }

  /** The number of elements of s that satisfy p. */
  function CountWhere<T>(s: seq<T>, p: T -> bool): nat
    decreases |s|
  {
    if s == [] then 0 else (if p(s[0]) then 1 else 0) + CountWhere(s[1..], p)
  }

  lemma {:induction false} CountWhereNone<T>(s: seq<T>, p: T -> bool)
    requires forall j :: 0 <= j < |s| ==> !p(s[j])
    ensures CountWhere(s, p) == 0
    decreases |s|
  {
    if s != [] {
      CountWhereNone(s[1..], p);
    }
  }

  /** An element that is the only one satisfying p is counted exactly once. */
  lemma {:induction false} CountWhereOnlyAt<T>(s: seq<T>, p: T -> bool, k: nat)
    requires k < |s| && p(s[k])
    requires forall j :: 0 <= j < |s| && j != k ==> !p(s[j])
    ensures CountWhere(s, p) == 1
    decreases |s|
  {
    if k == 0 {
      CountWhereNone(s[1..], p);
    } else {
      CountWhereOnlyAt(s[1..], p, k - 1);
    }
  }

  /** Exactly one image is visible and exactly one dot is highlighted, both at
      the cursor. */
  lemma ExactlyOneActive(images: seq<string>, current: nat)
    requires current < |images|
    ensures RenderImages(images, current)[current].cls == VisibleImage
    ensures CountWhere(RenderImages(images, current), (t: ImageTag) => t.cls == VisibleImage) == 1
    ensures RenderDots(|images|, current)[current].cls == ActiveDot
    ensures CountWhere(RenderDots(|images|, current), (d: Dot) => d.cls == ActiveDot) == 1
  {
    CountWhereOnlyAt(RenderImages(images, current), (t: ImageTag) => t.cls == VisibleImage, current);
    CountWhereOnlyAt(RenderDots(|images|, current), (d: Dot) => d.cls == ActiveDot, current);
  }

  // ---------------------------------------------------------------------------
  // The component's state
  // ---------------------------------------------------------------------------

  /** One mounted slider: the images and title it was given, and the cursor. */
  class Slider {
    const images: seq<string>
    const title: string
    var currentImageIndex: nat

    ghost predicate Valid()
      reads this
    {
      |images| >= 1 && currentImageIndex < |images|
    }

    /** Mounting starts at the first image. */
    constructor (images: seq<string>, title: string)
      requires |images| >= 1
      ensures Valid()
      ensures this.images == images && this.title == title
      ensures currentImageIndex == 0
    {
      this.images := images;
      this.title := title;
      currentImageIndex := 0;
    }

    method NextImage()
      requires Valid()
      modifies this
      ensures Valid()
      ensures currentImageIndex == NextIndex(old(currentImageIndex), |images|)
    {
      currentImageIndex := if currentImageIndex == |images| - 1 then 0 else currentImageIndex + 1;
    }

    method PrevImage()
      requires Valid()
      modifies this
      ensures Valid()
      ensures currentImageIndex == PrevIndex(old(currentImageIndex), |images|)
    {
      currentImageIndex := if currentImageIndex == 0 then |images| - 1 else currentImageIndex - 1;
    }

    /** A click on the dot drawn for image dotIndex. */
    method SelectDot(dotIndex: nat)
      requires Valid() && dotIndex < |images|
      modifies this
      ensures Valid()
      ensures currentImageIndex == dotIndex
    {
      currentImageIndex := dotIndex;
    }

    /** One firing of the recurring timer: the same step as the "next" button. */
    method Tick()
      requires Valid()
      modifies this
      ensures Valid()
      ensures currentImageIndex == NextIndex(old(currentImageIndex), |images|)
    {
      currentImageIndex := if currentImageIndex == |images| - 1 then 0 else currentImageIndex + 1;
    }

    /** What the slider currently draws. */
    function Render(): (r: (seq<ImageTag>, seq<Dot>))
      reads this
      requires Valid()
      ensures |r.0| == |images| && |r.1| == |images|
      ensures forall j :: 0 <= j < |images| ==> (r.0[j].cls == VisibleImage <==> j == currentImageIndex)
      ensures forall j :: 0 <= j < |images| ==> (r.1[j].cls == ActiveDot <==> j == currentImageIndex)
    {
      (RenderImages(images, currentImageIndex), RenderDots(|images|, currentImageIndex))
    }
  }
}
