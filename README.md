# Portfolio page: image slider and scroll-spy, modelled in Dafny

This project models the two stateful parts of a single-page portfolio site.

- `slider.dfy`, module `ProjectImageSlider`, models the project image slider
  (`components/ProjectImgeSlider.tsx`). The slider keeps a cursor
  `currentImageIndex` over a fixed, non-empty list of images. Four events move
  the cursor: the "next" and "previous" buttons, a click on a position dot, and
  a recurring timer tick. The pure updaters are functions: `NextIndex`,
  `PrevIndex`, `Ticks` for k ticks, and `Step`/`Run` for any sequence of events.
  The mounted component is the class `Slider`, whose methods overwrite the
  cursor. The renderer (`RenderImages`, `RenderDots`) shows exactly one image
  and highlights exactly one dot, both at the cursor.
- `page.dfy`, module `CreativePortfolio`, models `app/page.tsx`. It covers the
  scroll listener, which picks the active menu section. It also covers the
  mobile-menu flag and the choice between the slider and a single image for a
  project card. The listener is the loop in `Page.HandleScroll`. It is proved
  equal to the specification `ActiveAfterScroll`: the id of the last section in
  menu order whose range `[offsetTop, offsetTop + offsetHeight)` holds
  `scrollY + 100`, or the previous value when no section matches.

Time is abstract: a timer firing is the event `TimerTick` in a run of events,
or a call of the method `Slider.Tick`, not a 3000 ms interval.
The document is a map from element id to the element's `offsetTop` and
`offsetHeight`, in whole pixels. `getElementById` is a lookup in that map.

The source does not check a dot's index (components/ProjectImgeSlider.tsx:100).
Every dot is drawn from the image list, so `Slider.SelectDot` requires
`dotIndex < |images|` and `RenderDots` proves that every dot's target meets it.

## Model

| member | source | states |
|---|---|---|
| `ProjectImageSlider.Slider.constructor` | components/ProjectImgeSlider.tsx:5-13 | mounting keeps the given images and title and starts the cursor at 0 |
| `ProjectImageSlider.NextIndex` | components/ProjectImgeSlider.tsx:25-29 | the "next" step is `(i + 1) % n` and always lands in `[0, n)` |
| `ProjectImageSlider.NextWrapsAround` | components/ProjectImgeSlider.tsx:26-28 | the last index goes to 0; every other index `i` goes to `i + 1` |
| `ProjectImageSlider.PrevIndex` | components/ProjectImgeSlider.tsx:31-35 | the "previous" step is `(i - 1 + n) % n` and always lands in `[0, n)` |
| `ProjectImageSlider.PrevWrapsAround` | components/ProjectImgeSlider.tsx:32-34 | index 0 goes to `n - 1`; every other index `i` goes to `i - 1` |
| `ProjectImageSlider.PrevNextInverse` | components/ProjectImgeSlider.tsx:25-35 | "previous" after "next" gives back the original index, and so does the reverse order |
| `ProjectImageSlider.Ticks` | components/ProjectImgeSlider.tsx:16-20 | k timer ticks from a valid index stay in `[0, n)` |
| `ProjectImageSlider.TicksAdvance` | components/ProjectImgeSlider.tsx:16-20 | k ticks from index i give `(i + k) % n` |
| `ProjectImageSlider.TicksFromStart` | components/ProjectImgeSlider.tsx:13-20 | from the initial index 0, k ticks give `k % n` |
| `ProjectImageSlider.TicksFullCycle` | components/ProjectImgeSlider.tsx:16-20 | n ticks return the cursor to where it started |
| `ProjectImageSlider.TicksShift` | components/ProjectImgeSlider.tsx:16-20 | k ticks after one step equal k + 1 ticks |
| `ProjectImageSlider.SingleImageNeverMoves` | components/ProjectImgeSlider.tsx:16-35 | with one image, next, previous and any number of ticks leave the cursor at 0 |
| `ProjectImageSlider.Step` | components/ProjectImgeSlider.tsx:16-35 | one event of any kind from a valid index lands in `[0, n)` |
| `ProjectImageSlider.Run` | components/ProjectImgeSlider.tsx:16-35 | any sequence of events, with dot clicks on drawn dots, keeps the cursor in `[0, n)` |
| `ProjectImageSlider.RunOfTicks` | components/ProjectImgeSlider.tsx:16-20 | a run of k timer events ends where k ticks do |
| `ProjectImageSlider.ManualAndTimerCompose` | components/ProjectImgeSlider.tsx:16-29 | one "next" then one tick take 0 to 2 of 3 images; three ticks take 0 to 3 of 4 images |
| `ProjectImageSlider.RenderImages` | components/ProjectImgeSlider.tsx:39-50 | one image tag per image, in order, with the visible class exactly on the one at the cursor |
| `ProjectImageSlider.RenderDots` | components/ProjectImgeSlider.tsx:97-108 | one dot per image, each jumping to its own in-range index, highlighted exactly at the cursor |
| `ProjectImageSlider.CountWhereOnlyAt` | components/ProjectImgeSlider.tsx:46-48 | an element that is the only one with a property is counted exactly once |
| `ProjectImageSlider.ExactlyOneActive` | components/ProjectImgeSlider.tsx:46-48 | exactly one image is visible and exactly one dot is highlighted, both at the cursor |
| `ProjectImageSlider.Slider.NextImage` | components/ProjectImgeSlider.tsx:25-29 | the cursor takes the "next" step and stays valid |
| `ProjectImageSlider.Slider.PrevImage` | components/ProjectImgeSlider.tsx:31-35 | the cursor takes the "previous" step and stays valid |
| `ProjectImageSlider.Slider.SelectDot` | components/ProjectImgeSlider.tsx:97-100 | a dot click sets the cursor to that dot's index |
| `ProjectImageSlider.Slider.Tick` | components/ProjectImgeSlider.tsx:16-19 | a timer firing takes exactly the "next" step |
| `ProjectImageSlider.Slider.Render` | components/ProjectImgeSlider.tsx:37-111 | the drawn images and dots number one per image; an image is visible, and a dot highlighted, exactly when its index is the cursor |
| `CreativePortfolio.GetElementById` | app/page.tsx:94 | the lookup finds an element exactly when one is registered under the id, and returns that element |
| `CreativePortfolio.Matches` | app/page.tsx:99-104 | a missing section never matches; a present one matches exactly when the probe lies within its height from `offsetTop`, so an empty section never matches |
| `CreativePortfolio.Sections` | app/page.tsx:93-95 | one lookup per menu id, in order; present exactly when the id is in the document |
| `CreativePortfolio.LastMatch` | app/page.tsx:98-108 | the index found matches, and no later section does; no index means no section matches |
| `CreativePortfolio.LastMatchUnique` | app/page.tsx:98-108 | a matching section with no matching section after it is the one found |
| `CreativePortfolio.ActiveAfterScroll` | app/page.tsx:98-108 | the new active section is the old one or a menu id, and it is the old one when nothing matches |
| `CreativePortfolio.LastSectionWins` | app/page.tsx:98-108 | of several matching sections, the last in menu order becomes active |
| `CreativePortfolio.MissingSectionIgnored` | app/page.tsx:99 | a section missing from the document can be dropped from the menu without changing the outcome |
| `CreativePortfolio.SectionMatchesExactly` | app/page.tsx:96-105 | a present section with no matching section after it, whose id differs from the current one and from earlier ids, becomes active exactly when `scrollY + 100 >= offsetTop` and `scrollY + 100 < offsetTop + offsetHeight` |
| `CreativePortfolio.ProjectMedia` | app/page.tsx:688-701 | slider exactly when there is more than one image; otherwise `image[0]`, or the placeholder when that entry is missing or empty |
| `CreativePortfolio.Page.constructor` | app/page.tsx:31-32 | the menu starts closed and `"inicio"` starts active |
| `CreativePortfolio.Page.HandleScroll` | app/page.tsx:91-109 | the loop leaves exactly the section `ActiveAfterScroll` picks, and the menu flag unchanged |
| `CreativePortfolio.Page.ScrollToSection` | app/page.tsx:115-121 | scrolls exactly when the element exists, and always closes the menu |
| `CreativePortfolio.Page.ToggleMenu` | app/page.tsx:171 | the menu button flips the open flag and nothing else |
| `CreativePortfolio.ToggleTwiceRestores` | app/page.tsx:171 | two presses of the menu button restore the open flag |

## Left out

- The timer's real-time scheduling is not modelled. This covers the 3000 ms `setInterval`, the `clearInterval` cleanup and the re-subscription when `images.length` changes (components/ProjectImgeSlider.tsx:15-23). Ticks are abstract events.
- The timer is started and stopped only by the effect's `setInterval`/`clearInterval` (components/ProjectImgeSlider.tsx:15-23), which is left out above.
- A slider whose image list shrinks while mounted is not modelled. The source never resets the cursor, so it could leave the range. The model fixes the images per instance and requires at least one; the page only mounts a slider for more than one image (`ProjectMedia`).
- ProjectImageSlider.Slider.SelectDot: requires the dot index to be in range instead of rejecting it, as the code does not validate it (see above).
- DOM access is reduced to a map lookup. `scrollIntoView`, the scroll events it causes, `addEventListener`/`removeEventListener` and `router.push("/cv")` are left out.
- The framer-motion transforms over the fractional `scrollYProgress` and all animations are floating-point presentation and are left out.
- Scroll positions and offsets are integers; the browser's fractional `scrollY` is not modelled.
- The image `alt` text of the slider (`${title} - ${imgIndex + 1}`) is not modelled, since it needs number-to-string formatting.
- app/cv/route.ts (the CV file endpoint) is I/O plumbing over the file system and HTTP responses and is not part of this model.
- Static content, styling, the skill-bar levels and the project data tables are not modelled.
