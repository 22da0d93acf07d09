/**
 * The `Gallery` object of js/gallery.js with the session globals it drives
 * (`currentSection`, `currentImageIndex`, `currentImages`) and the parts of the
 * page it writes, as one class.  Each method changes the fields exactly as the
 * corresponding function of GalleryState changes the state value, so every
 * property proved there holds of the object.
 */
module Gallery {
  import opened Wrappers
  import S = GalleryState

  /** First position of `id` in `ids`, as `document.querySelector('[data-section="id"]')` finds it. */
  function FirstIndexOf(ids: seq<string>, id: string): (r: Option<nat>)
    ensures r.Some? ==> r.value < |ids| && ids[r.value] == id && forall j :: 0 <= j < r.value ==> ids[j] != id
    ensures r.None? ==> id !in ids
  {
    if |ids| == 0 then None
    else if ids[0] == id then Some(0)
    else match FirstIndexOf(ids[1..], id)
      case None => None
      case Some(k) => Some(k + 1)
  }

  class Gallery {
    var section: Option<string>
    var index: int
    var images: seq<int>
    var visible: bool
    var controls: bool
    var src: S.Picture
    var counter: S.Counter
    var prevDisabled: bool
    var nextDisabled: bool
    var loading: bool
    var pending: multiset<S.Request>

    /** The `data-section` value of every element that carries one, in document order. */
    const sectionIds: seq<string>
    /** Whether each of those elements carries the active-section highlight. */
    const ring: array<bool>

    /** The fields as a GalleryState value. */
    function State(): S.State
      reads this
    {
      S.State(section, index, images, visible, controls, src, counter, prevDisabled, nextDisabled, loading, pending)
    }

    ghost predicate Valid()
      reads this
    {
      ring.Length == |sectionIds|
    }

    /** The page before any interaction: the globals as js/main.js declares them, nothing highlighted. */
    constructor (sectionIds: seq<string>)
      ensures Valid() && this.sectionIds == sectionIds && fresh(ring)
      ensures State() == S.Initial()
      ensures forall k :: 0 <= k < ring.Length ==> !ring[k]
    {
      section, index, images := None, 0, [];
      visible, controls := false, true;
      src, counter := S.InitialPicture, S.InitialCounter;
      prevDisabled, nextDisabled := false, false;
      loading, pending := false, multiset{};
      this.sectionIds := sectionIds;
      ring := new bool[|sectionIds|](_ => false);
    }

    method UpdateNavigationButtons()
      modifies this
      ensures State() == S.UpdateNavigationButtons(old(State()))
    {
      prevDisabled := index == 0;
      nextDisabled := index == |images| - 1;
    }

    /** The request step of `showImage(i)`: the indicator goes on and a preload starts. */
    method ShowImage(i: int)
      modifies this
      ensures State() == S.ShowImage(old(State()), i)
    {
      loading := true;
      pending := pending + multiset{S.Request(i, S.ImageAt(images, i))};
    }

    /** The completion step: the preload for `r` fired `onload` (`ok`) or `onerror`. */
    method LoadDone(r: S.Request, ok: bool)
      requires r in pending
      modifies this
      ensures State() == S.LoadDone(old(State()), r, ok)
    {
      ghost var s0 := State();
      var rest := pending - multiset{r};
      if ok {
        src := S.Screenshot(r.image);
        index := r.index;
        counter := S.Position(r.index + 1, |images|);
        ghost var s1 := State();
        assert s1 == s0.(src := S.Screenshot(r.image), index := r.index, counter := S.Position(r.index + 1, |s0.images|));
        UpdateNavigationButtons();
      }
      loading := false;
      pending := rest;
    }

    method RemoveActiveSectionHighlight()
      requires Valid()
      modifies ring
      ensures forall k :: 0 <= k < ring.Length ==> !ring[k]
    {
      for k := 0 to ring.Length
        invariant forall j :: 0 <= j < k ==> !ring[j]
      {
        ring[k] := false;
      }
    }

    /** Exactly the first element whose `data-section` is `section` ends up highlighted. */
    method HighlightActiveSection(section: string)
      requires Valid()
      modifies ring
      ensures forall k :: 0 <= k < ring.Length ==> (ring[k] <==> FirstIndexOf(sectionIds, section) == Some(k))
      ensures forall i, j :: 0 <= i < ring.Length && 0 <= j < ring.Length && ring[i] && ring[j] ==> i == j
      ensures section in sectionIds ==> exists k :: 0 <= k < ring.Length && ring[k]
    {
      RemoveActiveSectionHighlight();
      var first := FirstIndexOf(sectionIds, section);
      if first.Some? {
        ring[first.value] := true;
      }
    }

    method OpenGallery(section: string, sectionName: string, imageNumbers: seq<int>)
      requires Valid()
      modifies this, ring
      ensures State() == S.OpenGallery(old(State()), section, imageNumbers)
      ensures forall k :: 0 <= k < ring.Length ==> (ring[k] <==> FirstIndexOf(sectionIds, section) == Some(k))
    {
      ghost var s0 := State();
      this.section := Some(section);
      index := 0;
      images := imageNumbers;
      ghost var s1 := State();
      ShowImage(0);
      visible, controls := true, true;
      assert State() == S.ShowImage(s1, 0).(visible := true, controls := true);
      UpdateNavigationButtons();
      ghost var s2 := State();
      assert s2 == S.OpenGallery(s0, section, imageNumbers);
      HighlightActiveSection(section);
      assert State() == s2;
    }

    method NextImage()
      modifies this
      ensures State() == S.NextImage(old(State()))
    {
      if index < |images| - 1 {
        ShowImage(index + 1);
      }
    }

    method PreviousImage()
      modifies this
      ensures State() == S.PreviousImage(old(State()))
    {
      if index > 0 {
        ShowImage(index - 1);
      }
    }

    method CloseGallery()
      requires Valid()
      modifies this, ring
      ensures State() == S.CloseGallery(old(State()))
      ensures forall k :: 0 <= k < ring.Length ==> !ring[k]
    {
      visible := false;
      section, index, images := None, 0, [];
      RemoveActiveSectionHighlight();
    }

    method ShowHoverPreview(section: string, imageNumbers: seq<int>)
      modifies this
      ensures State() == S.ShowHoverPreview(old(State()), imageNumbers)
    {
      if this.section == None {
        visible := true;
        src := S.Screenshot(S.ImageAt(imageNumbers, 0));
        controls := false;
      }
    }

    method HideHoverPreview()
      modifies this
      ensures State() == S.HideHoverPreview(old(State()))
    {
      if section == None {
        visible := false;
        controls := true;
      }
    }

    method HandleSwipe(startX: int, endX: int)
      modifies this
      ensures State() == S.HandleSwipe(old(State()), startX, endX)
    {
      var diff := startX - endX;
      if S.Abs(diff) > S.SwipeThreshold {
        if diff > 0 {
          NextImage();
        } else {
          PreviousImage();
        }
      }
    }

    /** The keydown listener. */
    method HandleKey(key: string)
      requires Valid()
      modifies this, ring
      ensures State() == S.HandleKey(old(State()), key)
      ensures old(visible) && key == "Escape" ==> forall k :: 0 <= k < ring.Length ==> !ring[k]
      ensures !(old(visible) && key == "Escape") ==> ring[..] == old(ring[..])
    {
      if !visible {
        return;
      }
      if key == "ArrowLeft" {
        PreviousImage();
      } else if key == "ArrowRight" {
        NextImage();
      } else if key == "Escape" {
        CloseGallery();
      }
    }
  }
}
