/**
 * The gallery viewing session of js/gallery.js as a value: the three page
 * globals `currentSection`, `currentImageIndex` and `currentImages`
 * (js/main.js), the parts of the page the gallery writes, and the image loads
 * that have been started and not yet completed.  Every gallery operation is a
 * function from the old state to the new one; the class in module Gallery is
 * proved to follow these functions step by step.
 *
 * `showImage` is asynchronous in the page: it starts a preload and returns.
 * Here it is split into ShowImage, which records the request, and LoadDone,
 * the request's `onload`/`onerror` callback.  Nothing cancels a request, so a
 * completion may arrive after the session it was started in has been closed
 * or replaced.
 */
module GalleryState {
  import opened Wrappers
  import Decimal

  // ---------------------------------------------------------------------------
  // The section table
  // ---------------------------------------------------------------------------

  /** The five product sections of the page, in page order. */
  const Sections: seq<string> := ["fertilizer", "soil", "plot-finder", "pest-detection", "microclimate"]

  /** Screenshot numbers shown for a section; any other key has none. */
  function ImageNumbersForSection(sectionType: string): (r: seq<int>)
    ensures sectionType !in Sections ==> r == []
    ensures sectionType in Sections ==> |r| >= 2 && forall k :: 0 <= k < |r| ==> r[k] == r[0] + k
  {
    if sectionType == "fertilizer" then [1, 2]
    else if sectionType == "soil" then [3, 4]
    else if sectionType == "plot-finder" then [5, 6, 7, 8, 9, 10]
    else if sectionType == "pest-detection" then [11, 12]
    else if sectionType == "microclimate" then [13, 14]
    else []
  }

  /** Upper bounds of the sections' runs: section `k` holds exactly the numbers in `(Bounds[k], Bounds[k + 1]]`. */
  const Bounds: seq<int> := [0, 2, 4, 10, 12, 14]

  /** The sections partition the screenshots 1..14 into consecutive, non-overlapping runs. */
  lemma SectionsPartitionScreenshots(n: int)
    ensures forall k :: 0 <= k < |Sections| ==>
      (n in ImageNumbersForSection(Sections[k]) <==> Bounds[k] < n <= Bounds[k + 1])
  {
    forall k | 0 <= k < |Sections|
      ensures n in ImageNumbersForSection(Sections[k]) <==> Bounds[k] < n <= Bounds[k + 1]
    {
      var r := ImageNumbersForSection(Sections[k]);
      assert r[0] == Bounds[k] + 1 && |r| == Bounds[k + 1] - Bounds[k];
    }
  }

  // ---------------------------------------------------------------------------
  // Session state
  // ---------------------------------------------------------------------------

  /**
   * A started preload: the index it will commit and the screenshot number whose
   * path it fetches, `ImagePath(image)`; both are fixed when the load starts.
   */
  datatype Request = Request(index: int, image: Option<int>)

  /** What #galleryImage shows: whatever the page markup holds, or a screenshot path `ImagePath(number)`. */
  datatype Picture = InitialPicture | Screenshot(number: Option<int>)

  /** What #imageCounter reads: whatever the page markup holds, or `CounterText(position, total)`. */
  datatype Counter = InitialCounter | Position(position: int, total: int)

  datatype State = State(
    section: Option<string>,    // currentSection; None is null
    index: int,                 // currentImageIndex
    images: seq<int>,           // currentImages
    visible: bool,              // #galleryContainer shown (and #defaultScreen hidden)
    controls: bool,             // the navigation overlay is displayed ('flex', not 'none')
    src: Picture,               // #galleryImage src
    counter: Counter,           // #imageCounter text
    prevDisabled: bool,         // #prevBtn disabled
    nextDisabled: bool,         // #nextBtn disabled
    loading: bool,              // the gallery loading indicator is shown
    pending: multiset<Request>  // preloads started and not yet completed
  )

  /** The page before any interaction: the globals as declared in js/main.js; the page parts (gallery hidden, controls shown, buttons enabled) as the markup leaves them. */
  function Initial(): (s: State)
    ensures s.section == None && s.index == 0 && s.images == []
    ensures !s.visible && !s.loading && s.pending == multiset{}
  {
    State(None, 0, [], false, true, InitialPicture, InitialCounter, false, false, false, multiset{})
  }

  /** `images[i]`, which JavaScript reads as `undefined` outside the array. */
  function ImageAt(images: seq<int>, i: int): Option<int>
  {
    if 0 <= i < |images| then Some(images[i]) else None
  }

  const PathPrefix: string := "images/app-screenshot/"
  const PathSuffix: string := ".png"

  /** How an image number is interpolated into a path; a missing one reads `undefined`. */
  function NumberText(n: Option<int>): string
  {
    if n.Some? then Decimal.IntToString(n.value) else "undefined"
  }

  lemma {:induction false} NumberTextInjective(m: Option<int>, n: Option<int>)
    ensures NumberText(m) == NumberText(n) ==> m == n
  {
    if m.Some? && n.Some? {
      Decimal.IntToStringInjective(m.value, n.value);
    } else {
      if m.Some? { Decimal.IntToStringShape(m.value); }
      if n.Some? { Decimal.IntToStringShape(n.value); }
      assert "undefined"[0] == 'u';
    }
  }

  /** The screenshot path built from an image number. */
  function ImagePath(n: Option<int>): string
  {
    PathPrefix + NumberText(n) + PathSuffix
  }

  /** Different image numbers give different paths, so the path shown identifies the screenshot. */
  lemma ImagePathInjective(m: Option<int>, n: Option<int>)
    ensures ImagePath(m) == ImagePath(n) <==> m == n
  {
    if ImagePath(m) == ImagePath(n) {
      var a, b := NumberText(m), NumberText(n);
      assert |a| == |b|;
      assert a == ImagePath(m)[|PathPrefix|..|PathPrefix| + |a|];
      assert b == ImagePath(n)[|PathPrefix|..|PathPrefix| + |b|];
      NumberTextInjective(m, n);
    }
  }

  /** The counter text `"{position}/{total}"`. */
  function CounterText(position: int, total: int): string
  {
    Decimal.IntToString(position) + "/" + Decimal.IntToString(total)
  }

  /** The counter text determines both the position and the total. */
  lemma CounterTextInjective(p: int, n: int, q: int, m: int)
    ensures CounterText(p, n) == CounterText(q, m) <==> p == q && n == m
  {
    if CounterText(p, n) == CounterText(q, m) {
      Decimal.IntToStringShape(p);
      Decimal.IntToStringShape(q);
      Decimal.SplitAtSeparator(Decimal.IntToString(p), Decimal.IntToString(n),
                               Decimal.IntToString(q), Decimal.IntToString(m), '/');
      Decimal.IntToStringInjective(p, q);
      Decimal.IntToStringInjective(n, m);
    }
  }

  // ---------------------------------------------------------------------------
  // Invariants
  // ---------------------------------------------------------------------------

  /** `i` is a position in `images`, or the reset value 0. */
  predicate Fits(i: int, images: seq<int>)
  {
    0 <= i && (i < |images| || i == 0)
  }

  /** A request belongs to the session showing `images`: its index fits and it fetches that index's screenshot. */
  predicate Agrees(r: Request, images: seq<int>)
  {
    Fits(r.index, images) && r.image == ImageAt(images, r.index)
  }

  /** The index fits the images and no pending request is stale. */
  predicate Consistent(s: State)
  {
    Fits(s.index, s.images) && forall r :: r in s.pending ==> Agrees(r, s.images)
  }

  /** The prev/next buttons reflect the committed index. */
  predicate ButtonsAgree(s: State)
  {
    s.prevDisabled == (s.index == 0) && s.nextDisabled == (s.index == |s.images| - 1)
  }

  /** While a section is open the gallery is browsing: shown, with live controls. */
  predicate Browsing(s: State)
  {
    s.section.Some? ==> s.visible && s.controls && ButtonsAgree(s)
  }

  lemma InitialIsConsistent()
    ensures Consistent(Initial()) && Browsing(Initial())
  {
  }

  // ---------------------------------------------------------------------------
  // Operations
  // ---------------------------------------------------------------------------

  function UpdateNavigationButtons(s: State): State
  {
    s.(prevDisabled := s.index == 0, nextDisabled := s.index == |s.images| - 1)
  }

  /** The synchronous part of `showImage(i)`: the indicator goes on and a preload starts. */
  function ShowImage(s: State, i: int): State
  {
    s.(loading := true, pending := s.pending + multiset{Request(i, ImageAt(s.images, i))})
  }

  /** Completion of a started preload: `onload` when `ok`, `onerror` otherwise. */
  function LoadDone(s: State, r: Request, ok: bool): State
    requires r in s.pending
  {
    var rest := s.pending - multiset{r};
    if ok then
      var t := s.(src := Screenshot(r.image), index := r.index, counter := Position(r.index + 1, |s.images|));
      UpdateNavigationButtons(t).(loading := false, pending := rest)
    else
      s.(loading := false, pending := rest)
  }

  function OpenGallery(s: State, section: string, imageNumbers: seq<int>): State
  {
    var t := ShowImage(s.(section := Some(section), index := 0, images := imageNumbers), 0);
    UpdateNavigationButtons(t.(visible := true, controls := true))
  }

  function NextImage(s: State): State
  {
    if s.index < |s.images| - 1 then ShowImage(s, s.index + 1) else s
  }

  function PreviousImage(s: State): State
  {
    if s.index > 0 then ShowImage(s, s.index - 1) else s
  }

  function CloseGallery(s: State): State
  {
    s.(visible := false, section := None, index := 0, images := [])
  }

  function ShowHoverPreview(s: State, imageNumbers: seq<int>): State
  {
    if s.section == None then
      s.(visible := true, src := Screenshot(ImageAt(imageNumbers, 0)), controls := false)
    else s
  }

  function HideHoverPreview(s: State): State
  {
    if s.section == None then s.(visible := false, controls := true) else s
  }

  function Abs(x: int): int { if x < 0 then -x else x }

  const SwipeThreshold: int := 50

  datatype Direction = Forward | Backward | Stay

  /** A swipe of more than the threshold to the left goes forward, to the right back. */
  function SwipeDirection(startX: int, endX: int): (d: Direction)
    ensures d == Forward <==> startX - endX > SwipeThreshold
    ensures d == Backward <==> endX - startX > SwipeThreshold
  {
    var diff := startX - endX;
    if Abs(diff) > SwipeThreshold then (if diff > 0 then Forward else Backward) else Stay
  }

  function HandleSwipe(s: State, startX: int, endX: int): State
  {
    match SwipeDirection(startX, endX)
    case Forward => NextImage(s)
    case Backward => PreviousImage(s)
    case Stay => s
  }

  datatype Command = GoPrevious | GoNext | Dismiss | Ignore

  function KeyCommand(key: string): Command
  {
    if key == "ArrowLeft" then GoPrevious
    else if key == "ArrowRight" then GoNext
    else if key == "Escape" then Dismiss
    else Ignore
  }

  /** The keydown handler: keys are ignored while the gallery container is hidden. */
  function HandleKey(s: State, key: string): State
  {
    if !s.visible then s
    else match KeyCommand(key)
      case GoPrevious => PreviousImage(s)
      case GoNext => NextImage(s)
      case Dismiss => CloseGallery(s)
      case Ignore => s
  }

  // ---------------------------------------------------------------------------
  // Traces
  // ---------------------------------------------------------------------------

  /** What can happen to the gallery: a user action, or a started preload completing. */
  datatype Event =
    | Open(section: string, imageNumbers: seq<int>)
    | Next
    | Previous
    | Loaded(request: Request, ok: bool)
    | Close
    | Hover(hoverImages: seq<int>)
    | Leave
    | Swipe(startX: int, endX: int)
    | KeyDown(key: string)

  /** One event; a completion of a request that was never started cannot happen and changes nothing. */
  function Step(s: State, e: Event): State
  {
    match e
    case Open(section, imgs) => OpenGallery(s, section, imgs)
    case Next => NextImage(s)
    case Previous => PreviousImage(s)
    case Loaded(r, ok) => if r in s.pending then LoadDone(s, r, ok) else s
    case Close => CloseGallery(s)
    case Hover(imgs) => ShowHoverPreview(s, imgs)
    case Leave => HideHoverPreview(s)
    case Swipe(a, b) => HandleSwipe(s, a, b)
    case KeyDown(k) => HandleKey(s, k)
  }

  function Run(s: State, es: seq<Event>): State
    decreases |es|
  {
    if es == [] then s else Run(Step(s, es[0]), es[1..])
  }

  /** After `e`, every request still pending belongs to the session then current. */
  predicate NoStaleLeft(s: State, e: Event)
  {
    forall r :: r in s.pending ==> Agrees(r, Step(s, e).images)
  }

  /** No step of the run leaves a stale request behind. */
  predicate NoStaleRun(s: State, es: seq<Event>)
    decreases |es|
  {
    es == [] || (NoStaleLeft(s, es[0]) && NoStaleRun(Step(s, es[0]), es[1..]))
  }

  // ---------------------------------------------------------------------------
  // Properties of single operations
  // ---------------------------------------------------------------------------

  /** `nextImage` moves forward only from below the last index, and never past it. */
  lemma NextImageBounds(s: State)
    requires Consistent(s)
    ensures var t := NextImage(s);
      && Consistent(t)
      && t.index == s.index && t.images == s.images && t.section == s.section && t.src == s.src
      && (s.index < |s.images| - 1 ==>
            t.pending == s.pending + multiset{Request(s.index + 1, Some(s.images[s.index + 1]))} && t.loading)
      && (s.index >= |s.images| - 1 ==> t == s)
  {
  }

  /** `previousImage` moves back only from above 0. */
  lemma PreviousImageBounds(s: State)
    requires Consistent(s)
    ensures var t := PreviousImage(s);
      && Consistent(t)
      && t.index == s.index && t.images == s.images && t.section == s.section && t.src == s.src
      && (s.index > 0 ==>
            t.pending == s.pending + multiset{Request(s.index - 1, Some(s.images[s.index - 1]))} && t.loading)
      && (s.index == 0 ==> t == s)
  {
  }

  /** With no images, navigation does nothing (as long as no stale commit moved the index). */
  lemma EmptyNavigationIsNoop(s: State)
    requires Consistent(s) && s.images == []
    ensures NextImage(s) == s && PreviousImage(s) == s
  {
  }

  /** A successful load commits its index, counter and buttons, and shows the image of that index. */
  lemma CommitEffect(s: State, r: Request)
    requires Consistent(s) && r in s.pending
    ensures var t := LoadDone(s, r, true);
      && Consistent(t)
      && t.index == r.index && t.images == s.images && t.section == s.section
      && t.src == Screenshot(ImageAt(s.images, r.index))
      && t.counter == Position(r.index + 1, |s.images|)
      && ButtonsAgree(t) && !t.loading
  {
    var t := LoadDone(s, r, true);
    assert forall q :: q in t.pending ==> q in s.pending;
  }

  /** A failed load only turns the indicator off: index, image and counter stay. */
  lemma FailedLoadKeepsDisplay(s: State, r: Request)
    requires r in s.pending
    ensures var t := LoadDone(s, r, false);
      && t == s.(loading := false, pending := t.pending)
      && t.pending[r] == s.pending[r] - 1
  {
  }

  /** Opening a section starts at its first image, whatever was open before. */
  lemma OpenGalleryEffect(s: State, section: string, imageNumbers: seq<int>)
    ensures var t := OpenGallery(s, section, imageNumbers);
      && Browsing(t)
      && t.section == Some(section) && t.index == 0 && t.images == imageNumbers
      && t.pending == s.pending + multiset{Request(0, ImageAt(imageNumbers, 0))} && t.loading
      && t.prevDisabled && (t.nextDisabled <==> |imageNumbers| == 1)
    ensures Consistent(s) && NoStaleLeft(s, Open(section, imageNumbers)) ==> Consistent(OpenGallery(s, section, imageNumbers))
  {
    if Consistent(s) && NoStaleLeft(s, Open(section, imageNumbers)) {
      OpenKeepsConsistent(s, section, imageNumbers);
    }
  }

  /** Closing twice is closing once. */
  lemma CloseIdempotent(s: State)
    ensures CloseGallery(CloseGallery(s)) == CloseGallery(s)
  {
  }

  /** Open followed by close leaves the session as it was when the page loaded. */
  lemma OpenThenCloseIsIdle(s: State, section: string, imageNumbers: seq<int>)
    ensures var t := CloseGallery(OpenGallery(s, section, imageNumbers));
      t.section == Initial().section && t.index == Initial().index && t.images == Initial().images && !t.visible
  {
  }

  /** Hover never touches the session, and does nothing at all while a section is open. */
  lemma HoverLeavesSessionAlone(s: State, imageNumbers: seq<int>)
    ensures var t := ShowHoverPreview(s, imageNumbers);
      t.section == s.section && t.index == s.index && t.images == s.images && t.pending == s.pending
    ensures var t := HideHoverPreview(s);
      t.section == s.section && t.index == s.index && t.images == s.images && t.pending == s.pending
    ensures s.section.Some? ==> ShowHoverPreview(s, imageNumbers) == s && HideHoverPreview(s) == s
  {
  }

  /** In preview mode, entering and leaving shows the first image and then the default screen again. */
  lemma HoverThenLeave(s: State, imageNumbers: seq<int>)
    requires s.section == None
    ensures ShowHoverPreview(s, imageNumbers).src == Screenshot(ImageAt(imageNumbers, 0))
    ensures ShowHoverPreview(s, imageNumbers).visible && !ShowHoverPreview(s, imageNumbers).controls
    ensures HideHoverPreview(ShowHoverPreview(s, imageNumbers))
         == s.(visible := false, controls := true, src := Screenshot(ImageAt(imageNumbers, 0)))
  {
  }

  /** A swipe is `nextImage`, `previousImage` or nothing, by the 50-pixel rule. */
  lemma SwipeDispatch(s: State, startX: int, endX: int)
    ensures startX - endX > 50 ==> HandleSwipe(s, startX, endX) == NextImage(s)
    ensures startX - endX < -50 ==> HandleSwipe(s, startX, endX) == PreviousImage(s)
    ensures -50 <= startX - endX <= 50 ==> HandleSwipe(s, startX, endX) == s
  {
  }

  /** Keys map ArrowLeft, ArrowRight and Escape; all keys are ignored while the gallery is hidden. */
  lemma KeyDispatch(s: State, key: string)
    ensures !s.visible ==> HandleKey(s, key) == s
    ensures s.visible && key == "ArrowLeft" ==> HandleKey(s, key) == PreviousImage(s)
    ensures s.visible && key == "ArrowRight" ==> HandleKey(s, key) == NextImage(s)
    ensures s.visible && key == "Escape" ==> HandleKey(s, key) == CloseGallery(s)
    ensures key !in {"ArrowLeft", "ArrowRight", "Escape"} ==> HandleKey(s, key) == s
  {
  }

  // ---------------------------------------------------------------------------
  // Properties of runs
  // ---------------------------------------------------------------------------

  /** Every event keeps the browsing invariant: with a section open, buttons reflect the index. */
  lemma StepKeepsBrowsing(s: State, e: Event)
    requires Browsing(s)
    ensures Browsing(Step(s, e))
  {
  }

  /** Starting a load of a fitting index keeps the session consistent. */
  lemma ShowImageKeepsConsistent(s: State, i: int)
    requires Consistent(s) && Fits(i, s.images)
    ensures Consistent(ShowImage(s, i))
  {
    var t := ShowImage(s, i);
    assert forall q :: q in t.pending ==> q in s.pending || q == Request(i, ImageAt(s.images, i));
  }

  /** A completion of a request that agrees with the session keeps it consistent. */
  lemma LoadDoneKeepsConsistent(s: State, r: Request, ok: bool)
    requires Consistent(s) && r in s.pending
    ensures Consistent(LoadDone(s, r, ok))
  {
    var t := LoadDone(s, r, ok);
    assert forall q :: q in t.pending ==> q in s.pending;
  }

  lemma OpenKeepsConsistent(s: State, section: string, imageNumbers: seq<int>)
    requires Consistent(s) && NoStaleLeft(s, Open(section, imageNumbers))
    ensures Consistent(OpenGallery(s, section, imageNumbers))
  {
    var u := s.(section := Some(section), index := 0, images := imageNumbers);
    assert Consistent(u);
    ShowImageKeepsConsistent(u, 0);
  }

  lemma NextKeepsConsistent(s: State)
    requires Consistent(s)
    ensures Consistent(NextImage(s))
  {
    if s.index < |s.images| - 1 {
      var t := ShowImage(s, s.index + 1);
      ShowImageKeepsConsistent(s, s.index + 1);
      assert Consistent(t);
    }
  }

  lemma PreviousKeepsConsistent(s: State)
    requires Consistent(s)
    ensures Consistent(PreviousImage(s))
  {
    if s.index > 0 {
      var t := ShowImage(s, s.index - 1);
      ShowImageKeepsConsistent(s, s.index - 1);
      assert Consistent(t);
    }
  }

  lemma NavigationKeepsConsistent(s: State)
    requires Consistent(s)
    ensures Consistent(NextImage(s)) && Consistent(PreviousImage(s))
  {
    NextKeepsConsistent(s);
    PreviousKeepsConsistent(s);
  }

  /** Every event that leaves no stale request keeps the session consistent. */
  lemma StepKeepsConsistent(s: State, e: Event)
    requires Consistent(s) && NoStaleLeft(s, e)
    ensures Consistent(Step(s, e))
  {
    var t := Step(s, e);
    assert forall r :: r in s.pending ==> Agrees(r, t.images);
    match e
    case Open(section, imgs) =>
      assert t == OpenGallery(s, section, imgs);
      OpenKeepsConsistent(s, section, imgs);
    case Next => NavigationKeepsConsistent(s);
    case Previous => NavigationKeepsConsistent(s);
    case Loaded(r, ok) =>
      if r in s.pending { LoadDoneKeepsConsistent(s, r, ok); }
    case Close =>
      assert t == CloseGallery(s);
    case Hover(imgs) =>
      assert t == ShowHoverPreview(s, imgs);
    case Leave =>
      assert t == HideHoverPreview(s);
    case Swipe(a, b) =>
      assert t == HandleSwipe(s, a, b);
      NavigationKeepsConsistent(s);
    case KeyDown(k) =>
      assert t == HandleKey(s, k);
      NavigationKeepsConsistent(s);
  }

  /** Only an event that replaces the images (open, close, Escape) can make a request stale. */
  lemma OnlySessionSwitchesMakeStale(s: State, e: Event)
    requires Consistent(s) && Step(s, e).images == s.images
    ensures NoStaleLeft(s, e)
  {
  }

  /** The index stays in range along every run in which no stale completion can happen. */
  lemma {:induction false} RunStaysConsistent(s: State, es: seq<Event>)
    requires Consistent(s) && Browsing(s) && NoStaleRun(s, es)
    ensures Consistent(Run(s, es)) && Browsing(Run(s, es))
    decreases |es|
  {
    if es != [] {
      StepKeepsConsistent(s, es[0]);
      StepKeepsBrowsing(s, es[0]);
      RunStaysConsistent(Step(s, es[0]), es[1..]);
    }
  }

  /** If `e` is a successful completion of a started request, that request belongs to the current images. */
  predicate CommitAgrees(s: State, e: Event)
  {
    e.Loaded? && e.ok && e.request in s.pending ==> Agrees(e.request, s.images)
  }

  /** No successful completion along the run belongs to other images than those current when it lands. */
  predicate CommitsAgree(s: State, es: seq<Event>)
    decreases |es|
  {
    es == [] || (CommitAgrees(s, es[0]) && CommitsAgree(Step(s, es[0]), es[1..]))
  }

  /** Only a completion that belongs to other images can move the index out of range. */
  lemma StepKeepsIndexInRange(s: State, e: Event)
    requires Fits(s.index, s.images) && CommitAgrees(s, e)
    ensures Fits(Step(s, e).index, Step(s, e).images)
  {
    match e
    case Loaded(r, ok) =>
      if r in s.pending && ok {
        assert Step(s, e).index == r.index && Step(s, e).images == s.images;
      }
    case KeyDown(k) =>
      assert Step(s, e) == HandleKey(s, k);
    case Swipe(a, b) =>
      assert Step(s, e) == HandleSwipe(s, a, b);
    case _ =>
  }

  /** The index stays in range along every run in which no stale completion commits. */
  lemma {:induction false} RunKeepsIndexInRange(s: State, es: seq<Event>)
    requires Fits(s.index, s.images) && CommitsAgree(s, es)
    ensures Fits(Run(s, es).index, Run(s, es).images)
    decreases |es|
  {
    if es != [] {
      StepKeepsIndexInRange(s, es[0]);
      RunKeepsIndexInRange(Step(s, es[0]), es[1..]);
    }
  }

  /**
   * Closing while a load is in flight: no completion commits, so the index stays
   * in range, but the load left pending no longer belongs to the session.
   */
  lemma CloseWithLoadInFlight()
    ensures var es := [Open("soil", [3, 4]), Loaded(Request(0, Some(3)), true), Next, Close];
      var t := Run(Initial(), es);
      && CommitsAgree(Initial(), es) && Fits(t.index, t.images)
      && !NoStaleRun(Initial(), es) && !Consistent(t) && Request(1, Some(4)) in t.pending
  {
    var r0 := Request(0, Some(3));
    var r1 := Request(1, Some(4));
    var es := [Open("soil", [3, 4]), Loaded(r0, true), Next, Close];
    var s1 := Step(Initial(), es[0]);
    assert s1.pending == multiset{r0};
    var s2 := Step(s1, es[1]);
    assert s2.pending == multiset{} && s2.index == 0;
    var s3 := Step(s2, es[2]);
    assert s3.pending == multiset{r1};
    var s4 := Step(s3, es[3]);
    assert s4.pending == multiset{r1} && s4.images == [];
    assert Run(s4, []) == s4;
    assert es[3..] == [Close] && es[2..] == [Next, Close] && es[1..] == [Loaded(r0, true), Next, Close];
    assert Run(s3, es[3..]) == s4;
    assert Run(s2, es[2..]) == s4;
    assert Run(s1, es[1..]) == s4;
    assert CommitsAgree(s4, []);
    assert CommitsAgree(s3, es[3..]);
    assert CommitsAgree(s2, es[2..]);
    assert CommitsAgree(s1, es[1..]);
    assert !NoStaleLeft(s3, Close);
  }

  /** The request `nextImage` starts from a state with a next image. */
  function NextRequest(s: State): Request
    requires 0 <= s.index < |s.images| - 1
  {
    Request(s.index + 1, Some(s.images[s.index + 1]))
  }

  /** `nextImage`, followed by the successful completion of the load it started. */
  function AdvanceOnce(s: State): (t: State)
    requires Consistent(s) && s.index < |s.images| - 1
    ensures Consistent(t) && t.index == s.index + 1 && t.images == s.images && t.section == s.section
    ensures t.src == Screenshot(Some(s.images[s.index + 1])) && t.counter == Position(s.index + 2, |s.images|)
  {
    var u := NextImage(s);
    assert NextRequest(s) in u.pending;
    var t := LoadDone(u, NextRequest(s), true);
    assert t.pending == s.pending;
    t
  }

  /** `k` successful steps forward. */
  function Browse(s: State, k: nat): (t: State)
    requires Consistent(s) && s.index + k < |s.images|
    ensures Consistent(t) && t.index == s.index + k && t.images == s.images && t.section == s.section
    decreases k
  {
    if k == 0 then s else Browse(AdvanceOnce(s), k - 1)
  }

  /** From any position, `|images| - 1 - index` successful steps reach the last image; one more is a no-op. */
  lemma BrowseToLast(s: State)
    requires Consistent(s) && |s.images| > 0
    ensures var t := Browse(s, |s.images| - 1 - s.index);
      t.index == |s.images| - 1 && NextImage(t) == t
  {
  }

  // ---------------------------------------------------------------------------
  // Scenarios
  // ---------------------------------------------------------------------------

  /** pest-detection: 1/2 with prev disabled, then 2/2 with next disabled, then next is a no-op. */
  lemma PestDetectionScenario()
    ensures var s1 := OpenGallery(Initial(), "pest-detection", ImageNumbersForSection("pest-detection"));
      && s1.images == [11, 12] && s1.index == 0 && s1.prevDisabled && !s1.nextDisabled
      && var r0 := Request(0, Some(11));
      && r0 in s1.pending
      && var s2 := LoadDone(s1, r0, true);
      && s2.counter == Position(1, 2) && CounterText(1, 2) == "1/2" && s2.prevDisabled && !s2.nextDisabled
      && var s3 := NextImage(s2);
      && var r1 := Request(1, Some(12));
      && r1 in s3.pending
      && var s4 := LoadDone(s3, r1, true);
      && s4.index == 1 && s4.counter == Position(2, 2) && CounterText(2, 2) == "2/2" && !s4.prevDisabled && s4.nextDisabled
      && NextImage(s4) == s4
  {
    var s1 := OpenGallery(Initial(), "pest-detection", ImageNumbersForSection("pest-detection"));
    var r0 := Request(0, Some(11));
    var s2 := LoadDone(s1, r0, true);
    assert Decimal.IntToString(1) == "1" && Decimal.IntToString(2) == "2";
    var s3 := NextImage(s2);
    assert s3.pending == multiset{Request(1, Some(12))};
  }

  /** A failed load of the next image leaves the index where it was and ends the indicator. */
  lemma FailedNextScenario()
    ensures var s1 := OpenGallery(Initial(), "soil", [3, 4]);
      && var r0 := Request(0, Some(3));
      && r0 in s1.pending
      && var s2 := NextImage(LoadDone(s1, r0, true));
      && var r1 := Request(1, Some(4));
      && r1 in s2.pending && s2.loading
      && var s3 := LoadDone(s2, r1, false);
      && s3.index == 0 && !s3.loading && s3.src == Screenshot(Some(3))
  {
  }

  /**
   * The stale-completion hazard: the load started by `nextImage` completes after
   * `closeGallery` and commits index 1 into a session with no images.
   */
  lemma StaleLoadAfterClose()
    ensures var r0 := Request(0, Some(3));
      var r1 := Request(1, Some(4));
      var t := Step(Step(Step(Step(Step(Initial(), Open("soil", [3, 4])), Loaded(r0, true)), Next), Close), Loaded(r1, true));
      && t.section == None && t.images == [] && t.index == 1
      && !Fits(t.index, t.images) && !Consistent(t)
      && t.counter == Position(2, 0) && CounterText(2, 0) == "2/0"
  {
    var r0 := Request(0, Some(3));
    var r1 := Request(1, Some(4));
    var s1 := Step(Initial(), Open("soil", [3, 4]));
    assert s1.pending == multiset{r0};
    var s2 := Step(s1, Loaded(r0, true));
    assert s2.pending == multiset{} && s2.index == 0;
    var s3 := Step(s2, Next);
    assert s3.pending == multiset{r1};
    var s4 := Step(s3, Close);
    assert s4.pending == multiset{r1} && s4.images == [];
    var s5 := Step(s4, Loaded(r1, true));
    assert s5 == LoadDone(s4, r1, true);
    assert Decimal.IntToString(2) == "2" && Decimal.IntToString(0) == "0";
  }

  /**
   * The same hazard across sections: a soil load that completes after fertilizer
   * was opened keeps the index in range but shows soil's screenshot 4 under the
   * fertilizer counter.
   */
  lemma StaleLoadAfterSwitch()
    ensures var s1 := OpenGallery(Initial(), "soil", [3, 4]);
      && var r0 := Request(0, Some(3));
      && r0 in s1.pending
      && var s2 := NextImage(LoadDone(s1, r0, true));
      && var r1 := Request(1, Some(4));
      && r1 in s2.pending
      && var s3 := OpenGallery(s2, "fertilizer", [1, 2]);
      && r1 in s3.pending && !NoStaleLeft(s2, Open("fertilizer", [1, 2]))
      && var s4 := LoadDone(s3, r1, true);
      && s4.section == Some("fertilizer") && s4.index == 1 && Fits(s4.index, s4.images)
      && s4.src == Screenshot(Some(4)) && ImageAt(s4.images, s4.index) == Some(2)
      && ImagePath(Some(4)) != ImagePath(Some(2))
  {
    ImagePathInjective(Some(4), Some(2));
  }

  /**
   * Loads are not serialized: pressing next and then previous at image 2 of
   * plot-finder, with the next load finishing last, ends on image 3 although
   * previous was pressed last.
   */
  lemma OutOfOrderCommit()
    ensures var imgs := ImageNumbersForSection("plot-finder");
      && var s1 := OpenGallery(Initial(), "plot-finder", imgs);
      && var r0 := Request(0, Some(5));
      && r0 in s1.pending
      && var s2 := NextImage(LoadDone(s1, r0, true));
      && var r1 := Request(1, Some(6));
      && r1 in s2.pending
      && var s3 := LoadDone(s2, r1, true);
      && var s4 := PreviousImage(NextImage(s3));
      && var back := Request(0, Some(5));
      && var fwd := Request(2, Some(7));
      && back in s4.pending && fwd in s4.pending
      && var s5 := LoadDone(LoadDone(s4, back, true), fwd, true);
      && Consistent(s5) && s5.index == 2
  {
    var imgs := ImageNumbersForSection("plot-finder");
    var s1 := OpenGallery(Initial(), "plot-finder", imgs);
    var r0 := Request(0, Some(5));
    var s2 := NextImage(LoadDone(s1, r0, true));
    var r1 := Request(1, Some(6));
    assert s2.pending == multiset{r1};
    var s3 := LoadDone(s2, r1, true);
    assert s3.index == 1 && s3.pending == multiset{};
    var s4 := PreviousImage(NextImage(s3));
    var back := Request(0, Some(5));
    var fwd := Request(2, Some(7));
    assert s4.pending == multiset{fwd, back};
    var s45 := LoadDone(s4, back, true);
    assert s45.pending == multiset{fwd};
  }
}
