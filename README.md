# ChiliCare page scripts in Dafny

A model of the three scripts that make up the interactive core of the
ChiliCare landing page, with proofs about it:

- **js/gallery.js**, the phone mock-up gallery. It is a small viewing session
  held in three page globals: the open section, the index of the shown
  screenshot and the section's screenshot numbers. Hover previews, opening a
  section, next/previous buttons, keyboard and swipe navigation, closing, and
  the active-section highlight all act on it.
- **js/main.js**: the initial values of those globals and two pure helpers,
  `Utils.isInViewport` and the target computed by `Utils.smoothScrollTo`.
- **js/navigation.js**: the scroll-spy that highlights the navigation link of
  the section under a reading line 300 px below the top of the window, the
  mobile-menu toggle and close, and the click handler of in-page links.

Modules:

| file | module | what it holds |
|---|---|---|
| wrappers.dfy | Wrappers | `Option`, standing for `null`/`undefined` |
| decimal.dfy | Decimal | how `${n}` renders an integer; its parse-back and injectivity |
| gallery_state.dfy | GalleryState | the session as a value and one function per gallery operation; events, runs, invariants and scenarios |
| gallery.dfy | Gallery | the `Gallery` object as a class. Each method changes the fields exactly as the matching GalleryState function does. The section highlight is an `array<bool>`, one cell per `[data-section]` element. |
| utils.dfy | Utils | `isInViewport` and the `smoothScrollTo` target |
| navigation.dfy | Navigation | the scroll-spy selection, and the `Navigation` object as a class |

`showImage` is asynchronous in the page. It turns on the loading indicator,
starts a preload and returns. The image, index, counter and buttons change
only when the preload's `onload` fires. The model splits it in two steps:

- `ShowImage` records a `Request`: the index to commit and the screenshot to
  fetch.
- `LoadDone(r, ok)` is that request's `onload` (`ok`) or `onerror` callback.

Requests still in flight form a multiset, because nothing cancels them. Two
hazards of the page as written follow from this, and both are proved on
concrete traces:

- A completion can commit after `closeGallery`. The session is then left with
  index 1, no images and the counter `2/0` (`StaleLoadAfterClose`).
- A completion can commit after another section was opened, showing the old
  section's screenshot under the new section's counter (`StaleLoadAfterSwitch`).
  Completions can also arrive out of order (`OutOfOrderCommit`).

The invariant `Consistent` says that the index fits the images and that every
pending request belongs to the current images. Every single event preserves
it as long as no request is left stale (`StepKeepsConsistent`), and so does
every run in which no event leaves a request stale (`RunStaysConsistent`). Only
opening or closing a session can leave a request stale
(`OnlySessionSwitchesMakeStale`). Leaving a request stale is harmless as long
as it never commits: along every run in which no successful completion belongs
to other images, the index stays in range (`RunKeepsIndexInRange`), as for a
close with a load still in flight (`CloseWithLoadInFlight`).

The rendered strings are kept out of the session proofs. The image `src` is
held as the screenshot number that `ImagePath` turns into
`images/app-screenshot/N.png`, and the counter as the pair that `CounterText`
turns into `"position/total"`. Both renderings are proved injective, so
nothing is lost.

## Model

| member | source | states |
|---|---|---|
| Decimal.ParseIntToString | js/gallery.js:125 | reading back the decimal text of any integer gives that integer |
| Decimal.IntToStringInjective | js/gallery.js:125 | two integers render to the same text exactly when they are equal |
| Decimal.IntToStringShape | js/gallery.js:125 | a rendering is non-empty, starts with `-` exactly for negative numbers, otherwise with a digit, and contains no `/` |
| Decimal.NatToStringDigits | js/gallery.js:110 | a natural number renders to a non-empty string of digits |
| Decimal.ParseNatToString | js/gallery.js:110 | reading back the digits of a natural number gives that number |
| Decimal.SplitAtSeparator | js/gallery.js:125 | two `x/y` strings whose parts contain no `/` are equal only when their parts are equal |
| GalleryState.ImageNumbersForSection | js/gallery.js:34-44 | an unknown section key gets no images; each of the five sections gets at least two consecutive screenshot numbers |
| GalleryState.SectionsPartitionScreenshots | js/gallery.js:35-41 | the five sections split screenshots 1..14 into consecutive, non-overlapping runs |
| GalleryState.Initial | js/main.js:7-9 | no section, index 0, no images, gallery hidden, nothing loading or pending |
| GalleryState.InitialIsConsistent | js/main.js:7-9 | the initial session satisfies both session invariants |
| GalleryState.NumberTextInjective | js/gallery.js:110 | different image numbers, or a number and `undefined`, interpolate to different texts |
| GalleryState.ImagePathInjective | js/gallery.js:110 | two screenshot paths are equal exactly when their image numbers are |
| GalleryState.CounterTextInjective | js/gallery.js:125 | the counter text `position/total` determines both numbers |
| GalleryState.SwipeDirection | js/gallery.js:258-271 | forward exactly when the start is more than 50 px right of the end; backward exactly when it is more than 50 px left |
| GalleryState.NextImageBounds | js/gallery.js:145-149 | in a consistent session, `nextImage` starts a load of index+1 only below the last index, and otherwise changes nothing; the committed index does not move yet |
| GalleryState.PreviousImageBounds | js/gallery.js:152-156 | in a consistent session, `previousImage` starts a load of index-1 only above 0, and otherwise changes nothing |
| GalleryState.EmptyNavigationIsNoop | js/gallery.js:145-156 | in a consistent session with no images, next and previous change nothing |
| GalleryState.CommitEffect | js/gallery.js:120-134 | in a consistent session, a successful completion commits its index, shows that index's screenshot, sets the counter to index+1 of the total and the buttons to match, and ends loading |
| GalleryState.FailedLoadKeepsDisplay | js/gallery.js:135-140 | a failed completion only ends loading and drops its request; image, index and counter stay |
| GalleryState.OpenGalleryEffect | js/gallery.js:81-104 | from any state, opening a section sets it and its images, index 0, shows the gallery with controls, disables previous, disables next exactly for a single image, and adds the load of image 0 to the loads still in flight; the session stays consistent when no earlier load becomes stale |
| GalleryState.CloseIdempotent | js/gallery.js:173-184 | closing twice is the same as closing once |
| GalleryState.OpenThenCloseIsIdle | js/gallery.js:178-180 | open then close returns the session globals to their initial values and hides the gallery |
| GalleryState.HoverLeavesSessionAlone | js/gallery.js:47-79 | hover enter and leave never touch section, index, images or pending loads, and do nothing while a section is open |
| GalleryState.HoverThenLeave | js/gallery.js:47-79 | with no section open, hover shows the first screenshot without controls, and leaving hides the gallery and restores the controls |
| GalleryState.SwipeDispatch | js/gallery.js:258-271 | a swipe is `nextImage`, `previousImage` or nothing, by the 50 px rule |
| GalleryState.KeyDispatch | js/gallery.js:218-235 | while the gallery is hidden keys do nothing; otherwise ArrowLeft, ArrowRight and Escape are previous, next and close, and other keys do nothing |
| GalleryState.StepKeepsBrowsing | js/gallery.js:159-170 | every event keeps this invariant: while a section is open, the gallery is shown with controls and the buttons match the index |
| GalleryState.ShowImageKeepsConsistent | js/gallery.js:108-119 | starting the load of an index that fits keeps the session consistent |
| GalleryState.LoadDoneKeepsConsistent | js/gallery.js:120-140 | completing a request of a consistent session keeps it consistent |
| GalleryState.OpenKeepsConsistent | js/gallery.js:81-104 | opening keeps the session consistent when no earlier load becomes stale |
| GalleryState.NextKeepsConsistent | js/gallery.js:145-149 | next keeps the session consistent |
| GalleryState.PreviousKeepsConsistent | js/gallery.js:152-156 | previous keeps the session consistent |
| GalleryState.NavigationKeepsConsistent | js/gallery.js:145-156 | both navigation steps keep the session consistent |
| GalleryState.StepKeepsConsistent | js/gallery.js:108-142 | every event that leaves no stale request keeps the index in range and the pending loads matching the images |
| GalleryState.OnlySessionSwitchesMakeStale | js/gallery.js:173-184 | in a consistent session, an event that keeps the images leaves no stale request |
| GalleryState.RunStaysConsistent | js/gallery.js:108-156 | along every run in which no event leaves a pending request that belongs to other images, the session stays consistent and browsing |
| GalleryState.StepKeepsIndexInRange | js/gallery.js:120-134 | every event except a successful completion of a request for other images keeps the index within the images (or at the reset value 0) |
| GalleryState.RunKeepsIndexInRange | js/gallery.js:108-184 | along every run in which no successful completion belongs to other images than those current when it lands, the index stays in range, even with stale loads still pending |
| GalleryState.CloseWithLoadInFlight | js/gallery.js:173-184 | closing while the next image is loading leaves that load pending and stale, yet no completion committed and the index stays in range |
| GalleryState.AdvanceOnce | js/gallery.js:145-149 | next followed by its successful load moves exactly one image forward, with that screenshot and counter |
| GalleryState.Browse | js/gallery.js:145-149 | k successful steps forward move the index by exactly k, within the same section |
| GalleryState.BrowseToLast | js/gallery.js:164-165 | from any index, stepping forward reaches the last image, where next does nothing |
| GalleryState.PestDetectionScenario | js/gallery.js:81-156 | pest-detection reads 1/2 with previous disabled, then 2/2 with next disabled, after which next does nothing |
| GalleryState.FailedNextScenario | js/gallery.js:135-140 | a failed load of the next image keeps index 0 and its screenshot, and ends loading |
| GalleryState.StaleLoadAfterClose | js/gallery.js:120-134 | a load completing after close leaves index 1 with no images and the counter `2/0` |
| GalleryState.StaleLoadAfterSwitch | js/gallery.js:120-134 | a soil load completing after fertilizer was opened shows soil's screenshot 4 where fertilizer's 2 belongs |
| GalleryState.OutOfOrderCommit | js/gallery.js:120-134 | next then previous, with the next load finishing last, ends on the later image |
| Gallery.FirstIndexOf | js/gallery.js:197 | the first element with the given `data-section`, or none when no element has it |
| Gallery.Gallery.constructor | js/main.js:7-9 | the object starts in the initial session with nothing highlighted |
| Gallery.Gallery.UpdateNavigationButtons | js/gallery.js:159-170 | previous is disabled exactly at index 0, and next exactly at the last index |
| Gallery.Gallery.ShowImage | js/gallery.js:108-119 | the indicator goes on and one request for that index and its screenshot is added |
| Gallery.Gallery.LoadDone | js/gallery.js:120-140 | the fields change exactly as `GalleryState.LoadDone` says |
| Gallery.Gallery.RemoveActiveSectionHighlight | js/gallery.js:207-215 | every `[data-section]` element loses the highlight |
| Gallery.Gallery.HighlightActiveSection | js/gallery.js:192-204 | the first element with that `data-section`, and no other, ends up highlighted; at most one is highlighted |
| Gallery.Gallery.OpenGallery | js/gallery.js:81-104 | the fields change as `GalleryState.OpenGallery` says, and exactly the section's element is highlighted |
| Gallery.Gallery.NextImage | js/gallery.js:145-149 | the fields change as `GalleryState.NextImage` says |
| Gallery.Gallery.PreviousImage | js/gallery.js:152-156 | the fields change as `GalleryState.PreviousImage` says |
| Gallery.Gallery.CloseGallery | js/gallery.js:173-184 | the fields change as `GalleryState.CloseGallery` says, and no element stays highlighted |
| Gallery.Gallery.ShowHoverPreview | js/gallery.js:47-64 | the fields change as `GalleryState.ShowHoverPreview` says |
| Gallery.Gallery.HideHoverPreview | js/gallery.js:67-79 | the fields change as `GalleryState.HideHoverPreview` says |
| Gallery.Gallery.HandleSwipe | js/gallery.js:258-271 | the fields change as `GalleryState.HandleSwipe` says |
| Gallery.Gallery.HandleKey | js/gallery.js:218-235 | the fields change as `GalleryState.HandleKey` says; Escape on a shown gallery clears every highlight, and any other key leaves them as they were |
| Utils.IsInViewport | js/main.js:55-63 | definition of `isInViewport`; its meaning is stated by the three lemmas below |
| Utils.InViewportIffWhollyVisible | js/main.js:55-63 | the edge test holds exactly when every point of the rectangle lies inside the visible area |
| Utils.WindowSizesTakePrecedence | js/main.js:60-61 | with non-zero window sizes, the test compares against those sizes and ignores the root element's |
| Utils.ZeroWindowSizeFallsBack | js/main.js:60-61 | a zero window height falls back to the root element's height, and a zero width to its width, each on its own; with both zero the test compares against the root element's sizes |
| Utils.SmoothScrollTarget | js/main.js:39-52 | a missing element gives no scroll; otherwise the target is never negative and is either 0 or the centring position |
| Utils.ScrollCentresElement | js/main.js:42-49 | unclamped, the target puts the element's middle `offset` below the window's middle; clamped, the page goes to its top and the element's middle is above that point |
| Navigation.ActiveId | js/navigation.js:79-91 | definition of the `current` id; see `ActiveIdIsLastSpanning`, `ActiveIdEmptyWhenNoneSpans` and `FindCurrent` |
| Navigation.LastMatch | js/navigation.js:82-91 | the last section in document order whose half-open span contains the reading line, or none exactly when no section contains it |
| Navigation.ActiveIdIsLastSpanning | js/navigation.js:79-91 | the active id is that of the last section that spans the line at `pageYOffset + 300` |
| Navigation.ActiveIdEmptyWhenNoneSpans | js/navigation.js:79-91 | with no spanning section the active id is the empty string |
| Navigation.FindCurrent | js/navigation.js:79-91 | the loop leaves in `current` exactly the active id |
| Navigation.ClickTarget | js/navigation.js:27-48 | `#top` scrolls to 0; for a found target, `#features` scrolls to the `smoothScrollTo` target of the phone (none when there is no phone) and any other href to that of the section; a missing section, or a selector that throws, gives no scroll; every target is non-negative |
| Navigation.Navigation.constructor | js/navigation.js:55-64 | the page elements as given, with no link highlighted |
| Navigation.Navigation.UpdateActiveNavLink | js/navigation.js:75-99 | a link is highlighted exactly when its href is `#` followed by the active id |
| Navigation.Navigation.ToggleMenu | js/navigation.js:55-64 | the menu button flips the menu, and only when both the button and the menu exist |
| Navigation.Navigation.CloseMobileMenu | js/navigation.js:67-72 | an existing menu ends up hidden; a hidden menu stays as it was, so a second call changes nothing |
| Navigation.Navigation.HandleNavigationClick | js/navigation.js:27-52 | the page scrolls to `ClickTarget` and the menu ends up closed, except when the selector lookup throws, which leaves the menu as it was |

## Left out

- Page elements that the source looks up and null-checks (`prevBtn`/`nextBtn`, the navigation overlay, `window.Loading`) are assumed to be present. So are `#galleryImage`, `#imageCounter`, `#defaultScreen` and `#galleryContainer`, which the source uses without a check; a missing one would throw in the middle of a handler, for example of the `onload` callback (js/gallery.js:54-56, 121-125). The button opacity follows the disabled state and is not modelled separately.
- The initial `src` and counter text come from the page markup, which is not part of this model. They are the constants `InitialPicture` and `InitialCounter`. The gallery starts hidden with the default screen shown, the buttons enabled, the controls shown and the menu as the constructor is told; these too come from the markup.
- GalleryState.ImageNumbersForSection: keys inherited from `Object.prototype` (such as `toString`) make the source's lookup return a function rather than `[]`. The model treats them as unknown keys.
- js/loading.js is not part of this model. Its gallery indicator is the `loading` flag. Its wrapping of `showImage` shows the same indicator again, which changes nothing.
- js/faq.js, `Utils.debounce`, the `init`/`setup…` functions that register listeners, `backToHome` (a plain call of `closeGallery`) and the module exports: wiring and timers, nothing to prove.
- When the image fetch finishes, and whether it succeeds, is outside the page. Each completion is an explicit `LoadDone` step whose request must be pending.
- Console logging, CSS class names, inline styles and the smooth scroll animation are left out. A scroll is its target position.
- Indices, image numbers and counter values are unbounded integers rendered in plain decimal. JavaScript numbers lose precision above 2^53 and print in exponent form from 10^21 on; the gallery's values stay far below both.
- Touch coordinates are integers. Page coordinates are reals, without floating-point rounding.
- `document.querySelector(href)` is an input to the click handler: found, not found, or throws. Which hrefs are invalid selectors is not modelled.
- The scroll-spy highlights a link whose href is exactly `#` when no section spans the reading line, because the source compares against `"#" + ""`. The model keeps this.
