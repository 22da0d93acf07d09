/**
 * The `Navigation` object of js/navigation.js: the scroll-spy that highlights
 * the link of the section under the reading line, the mobile-menu toggle and
 * close, and the click handler of in-page links.
 */
module Navigation {
  import opened Wrappers
  import U = Utils

  /** How far below the top of the window the reading line sits. */
  const ScrollOffset: real := 300.0

  /** A `section[id]` element: its `id`, `offsetTop` and `clientHeight`. */
  datatype SectionBox = SectionBox(id: string, top: real, height: real)

  /** The section spans the reading line `y`: a half-open interval, its bottom edge excluded. */
  predicate Covers(b: SectionBox, y: real)
  {
    b.top <= y < b.top + b.height
  }

  /** The position of the last section, in document order, that spans `y`. */
  function LastMatch(sections: seq<SectionBox>, y: real): (r: Option<nat>)
    ensures r.Some? ==> r.value < |sections| && Covers(sections[r.value], y)
    ensures r.Some? ==> forall j :: r.value < j < |sections| ==> !Covers(sections[j], y)
    ensures r.None? <==> forall j :: 0 <= j < |sections| ==> !Covers(sections[j], y)
  {
    if |sections| == 0 then None
    else if Covers(sections[|sections| - 1], y) then Some(|sections| - 1)
    else LastMatch(sections[..|sections| - 1], y)
  }

  /** The `current` id the scroll-spy settles on: that of the last spanning section, or "" when none spans. */
  function ActiveId(sections: seq<SectionBox>, pageYOffset: real): string
  {
    match LastMatch(sections, pageYOffset + ScrollOffset)
    case None => ""
    case Some(k) => sections[k].id
  }

  /** The active id is that of the last section spanning the reading line. */
  lemma ActiveIdIsLastSpanning(sections: seq<SectionBox>, pageYOffset: real, k: nat)
    requires k < |sections| && Covers(sections[k], pageYOffset + ScrollOffset)
    requires forall j :: k < j < |sections| ==> !Covers(sections[j], pageYOffset + ScrollOffset)
    ensures ActiveId(sections, pageYOffset) == sections[k].id
  {
    var m := LastMatch(sections, pageYOffset + ScrollOffset);
    assert m.Some?;
    assert m.value == k;
  }

  /** With no section under the reading line the active id is empty. */
  lemma ActiveIdEmptyWhenNoneSpans(sections: seq<SectionBox>, pageYOffset: real)
    requires forall j :: 0 <= j < |sections| ==> !Covers(sections[j], pageYOffset + ScrollOffset)
    ensures ActiveId(sections, pageYOffset) == ""
  {
  }

  /** The first loop of `updateActiveNavLink`: every spanning section overwrites `current`. */
  method FindCurrent(sections: seq<SectionBox>, pageYOffset: real) returns (current: string)
    ensures current == ActiveId(sections, pageYOffset)
  {
    current := "";
    var scrollPosition := pageYOffset + ScrollOffset;
    for k := 0 to |sections|
      invariant current == ActiveId(sections[..k], pageYOffset)
    {
      var sectionTop := sections[k].top;
      var sectionBottom := sectionTop + sections[k].height;
      assert sections[..k + 1][..k] == sections[..k];
      if scrollPosition >= sectionTop && scrollPosition < sectionBottom {
        current := sections[k].id;
      }
    }
    assert sections[..|sections|] == sections;
  }

  /** The result of `document.querySelector(href)` for an in-page link. */
  datatype Lookup = Found(box: U.Box) | NotFound | Throws

  /**
   * Where the click handler scrolls: to 0 for `#top`, to the phone mock-up for
   * `#features`, to the section otherwise; None when nothing is scrolled.
   */
  function ClickTarget(href: string, target: Lookup, phone: Option<U.Box>, innerHeight: real): (r: Option<real>)
    ensures target.Throws? ==> r.None?
    ensures !target.Throws? && href == "#top" ==> r == Some(0.0)
    ensures target.NotFound? && href != "#top" ==> r.None?
    ensures target.Found? && href == "#features" ==> r == U.SmoothScrollTarget(phone, innerHeight, 0.0)
    ensures target.Found? && href == "#features" ==> (r.Some? <==> phone.Some?)
    ensures target.Found? && href != "#top" && href != "#features" ==> r == U.SmoothScrollTarget(Some(target.box), innerHeight, 0.0)
    ensures r.Some? ==> r.value >= 0.0
  {
    if target.Throws? then None
    else if href == "#top" then Some(0.0)
    else if target.NotFound? then None
    else if href == "#features" then U.SmoothScrollTarget(phone, innerHeight, 0.0)
    else U.SmoothScrollTarget(Some(target.box), innerHeight, 0.0)
  }

  class Navigation {
    /** The `href` of every `nav a[href^="#"]`, in document order. */
    const hrefs: seq<string>
    /** Whether each of those links carries the `text-primary` highlight. */
    const primary: array<bool>
    /** Whether the page has a `#menuBtn` and a `#mobileMenu` element. */
    const hasButton: bool
    const hasMenu: bool
    /** Whether `#mobileMenu` carries the `hidden` class. */
    var menuHidden: bool

    ghost predicate Valid()
      reads this
    {
      primary.Length == |hrefs|
    }

    constructor (hrefs: seq<string>, hasButton: bool, hasMenu: bool, menuHidden: bool)
      ensures Valid() && fresh(primary)
      ensures this.hrefs == hrefs && this.hasButton == hasButton && this.hasMenu == hasMenu && this.menuHidden == menuHidden
      ensures forall j :: 0 <= j < primary.Length ==> !primary[j]
    {
      this.hrefs, this.hasButton, this.hasMenu, this.menuHidden := hrefs, hasButton, hasMenu, menuHidden;
      primary := new bool[|hrefs|](_ => false);
    }

    /** The scroll listener: exactly the links pointing at the active section end up highlighted. */
    method UpdateActiveNavLink(sections: seq<SectionBox>, pageYOffset: real)
      requires Valid()
      modifies primary
      ensures forall j :: 0 <= j < primary.Length ==> (primary[j] <==> hrefs[j] == "#" + ActiveId(sections, pageYOffset))
    {
      var current := FindCurrent(sections, pageYOffset);
      for j := 0 to primary.Length
        invariant forall i :: 0 <= i < j ==> (primary[i] <==> hrefs[i] == "#" + current)
      {
        primary[j] := false;
        if hrefs[j] == "#" + current {
          primary[j] := true;
        }
      }
    }

    /** The `#menuBtn` click listener, registered only when both elements exist. */
    method ToggleMenu()
      modifies this
      ensures menuHidden == if hasButton && hasMenu then !old(menuHidden) else old(menuHidden)
    {
      if hasButton && hasMenu {
        menuHidden := !menuHidden;
      }
    }

    /** Hides the menu when there is one; a menu already hidden is left as it is. */
    method CloseMobileMenu()
      modifies this
      ensures hasMenu ==> menuHidden
      ensures menuHidden == (hasMenu || old(menuHidden))
    {
      if hasMenu && !menuHidden {
        menuHidden := true;
      }
    }

    /**
     * A click on an in-page link: returns where the page scrolls to, if it does,
     * and closes the menu, unless the lookup of the link's selector threw first.
     */
    method HandleNavigationClick(href: string, target: Lookup, phone: Option<U.Box>, innerHeight: real) returns (scroll: Option<real>)
      modifies this
      ensures scroll == ClickTarget(href, target, phone, innerHeight)
      ensures !target.Throws? ==> menuHidden == (hasMenu || old(menuHidden))
      ensures target.Throws? ==> menuHidden == old(menuHidden)
    {
      if target.Throws? {
        return None;
      }
      if href == "#top" {
        scroll := Some(0.0);
      } else if target.Found? {
        if href == "#features" {
          scroll := U.SmoothScrollTarget(phone, innerHeight, 0.0);
        } else {
          scroll := U.SmoothScrollTarget(Some(target.box), innerHeight, 0.0);
        }
      } else {
        scroll := None;
      }
      CloseMobileMenu();
    }
  }
}
