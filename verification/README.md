# Portfolio page: gallery navigator and scroll-spy

A Dafny model of the behaviour inside the single page component of a personal
portfolio site (`app/page.tsx`). Almost all of that component is markup and
fixed content. The part with behaviour is small and sequential:

- **Gallery navigator** (`gallery.dfy`, module `Gallery`). The modal that
  browses a project's images. Its state is the page's two state variables,
  the selected project (`None` when the modal is closed) and the current image
  index. The transitions are the card click (`openGallery(project, 0)`), the
  close button, the two arrows and the pagination dots. The arrows wrap by
  comparing the index with the last index or with 0, not by taking a
  remainder. So the bound `0 <= index < |images|` is an invariant (`Valid`)
  that the model states and proves preserved, not something the code checks.
  The model also describes which controls the modal renders (arrows and dots
  only for projects with more than one image, one dot per image). It proves
  that every click sequence the page offers keeps `Valid`, assuming every
  catalogue project has an image.
- **Scroll-spy** (`section_tracker.dfy`, module `SectionTracker`). On each
  scroll event the page probes `scrollY + 100` and makes active the first of
  the seven scanned ids whose element box `[offsetTop, offsetTop + offsetHeight)`
  contains the probe. Ids with no element are skipped. When nothing matches,
  the previous active id is kept. The model gives a recursive first-match
  reference (`FirstMatch`, `Track`) and the loop-with-break handler
  (`HandleScroll`), and proves the two equal. It also proves these facts: a
  probe inside one box of a non-overlapping layout selects exactly that
  section; the active id never leaves the scanned ids; and at most one
  navigation button is highlighted.
- **Label helpers** (`labels.dfy`, module `Labels`). Navigation labels are
  capitalised with `charAt(0).toUpperCase() + slice(1)`. Metric captions use
  `key.replace("_", " ")`, which replaces only the first underscore.
- **Particle layout** (`particles.dfy`, module `Particles`). The welcome
  screen has 30 decorative particles and the background has 20. Their integer
  positions `(i*7+10) % 90` and `(i*11+15) % 85` and durations `2 + i%3` and
  `3 + i%4` are modelled. Because 7 is invertible modulo 90 and 11 modulo 85,
  no two particles share a column or a row.

`wrappers.dfy` holds the `Option` type. `portfolio.dfy` holds the `Project`
record and the card thumbnail. `arith.dfy` holds remainder facts the solver
needs help with.

Points where the code's behaviour is easy to misremember:
- The scroll handler scans seven ids (`"hero"` through `"contact"`), while
  the navigation bar renders buttons for six of them (no `"hero"`).
- The handler is only registered for scroll events. It is not also run when
  the page mounts, so the active section stays `"hero"` until the first scroll.
- The dot handler sets the index without any check. Validity comes from the
  dots being rendered only at positions `0 .. |images|-1`, which `Enabled`
  states.

## Model

| member | source | states |
|---|---|---|
| Portfolio.Thumbnail | app/page.tsx:1368 | a card shows its first image when it is non-empty, and the placeholder when the first image is missing or is the empty string; the result is never empty |
| Gallery.OpenGallery | app/page.tsx:575-578 | opening selects the project at the given index, and the result is valid exactly when that index addresses one of the project's images |
| Gallery.CloseGallery | app/page.tsx:580-583 | closing yields no selection and index 0, and so a valid state, whatever the prior state |
| Gallery.NextImage | app/page.tsx:585-589 | the right arrow does nothing with no selection, never changes the selection, preserves the index bound, and on a valid state equals the modular successor `(i+1) mod n` |
| Gallery.PrevImage | app/page.tsx:591-595 | the left arrow does nothing with no selection, never changes the selection, preserves the index bound, and on a valid state equals the modular predecessor `(i-1+n) mod n` |
| Gallery.JumpTo | app/page.tsx:1667-1670 | a dot press changes only the index, and the result is valid exactly when the dot's position is below the image count |
| Gallery.DotIndices | app/page.tsx:1664-1666 | one dot per image; the dot positions are exactly the integers 0 to count-1 |
| Gallery.HighlightedDots | app/page.tsx:1671-1673 | in a valid state exactly the dot at the current index is highlighted; with an out-of-range index none is |
| Gallery.DisplayedImage | app/page.tsx:1614 | the modal shows the current image when the state is valid and the image is non-empty, and the placeholder when that image is the empty string or the index is out of range; the result is never empty |
| Gallery.EnabledExactly | app/page.tsx:1360-1670 | `Enabled` offers a card for each catalogue project, the close button exactly while a project is selected, the arrows exactly while the selected project has more than one image, and a dot exactly at each position below that image count |
| Gallery.Step | app/page.tsx:1366-1670 | the close button returns to the initial state; a card click opens that project at image 0; arrows and dots keep the selection; a dot sets the index to its own position; on a valid open state the right arrow moves to `(i+1) mod n` and the left arrow to `(i-1+n) mod n` |
| Gallery.StepKeepsValid | app/page.tsx:1621-1670 | every control the page renders in a valid state leads to a valid state, given that every catalogue project has an image |
| Gallery.RunKeepsValid | app/page.tsx:1366-1670 | any sequence of offered clicks from a valid state ends valid, given the catalogue rule that every project lists an image |
| Gallery.InitialIsValid | app/page.tsx:120-121 | the mount-time state (nothing selected, index 0) is valid |
| Gallery.PrevNextInverse | app/page.tsx:585-595 | on every valid state the left arrow undoes the right arrow, and the right arrow undoes the left |
| Gallery.NextTimesIndex | app/page.tsx:587 | n right-arrow presses move the index to `(i+n) mod count`, keep the selection and keep validity |
| Gallery.PrevTimesIndex | app/page.tsx:593 | n left-arrow presses move the index to `(i-n) mod count`, keep the selection and keep validity |
| Gallery.NextCycle | app/page.tsx:587 | pressing the right arrow once per image returns to the starting state |
| Gallery.PrevCycle | app/page.tsx:593 | pressing the left arrow once per image returns to the starting state |
| Gallery.DotThenNext | app/page.tsx:1669 | a dot press at k then the right arrow gives index `(k+1) mod count` under the same selection |
| Gallery.NextDoesNotRepairOverflow | app/page.tsx:587 | the equality-based wrap does not repair an index already past the end: the right arrow keeps counting up and the state stays invalid |
| Gallery.ThreeImageWalk | app/page.tsx:1366 | opening a three-image project from its card and pressing the right arrow three times visits 1, 2, then returns to the opened state |
| SectionTracker.FirstMatch | app/page.tsx:150-159 | returns the position of the first section in list order whose element box contains the probe, skipping missing elements; returns None exactly when no box contains it |
| SectionTracker.Track | app/page.tsx:148-161 | the new active id is the first covering section's id for probe `scrollY + 100`; the previous id is kept when nothing covers the probe; it is always the previous id or a listed id |
| SectionTracker.HandleScroll | app/page.tsx:148-161 | the handler's loop, which stops at the first match, computes exactly the first-match reference `Track` |
| SectionTracker.PageLayout | app/page.tsx:150-154 | the scanned list is the seven ids in their fixed order, each paired with the box of the element looked up for it, or none |
| SectionTracker.PageTrack | app/page.tsx:148-161 | on the real page, the new active id is the first of the seven ids in scan order whose element contains `scrollY + 100`, the previous id when none does, and always a scanned id when the previous one was |
| SectionTracker.DisjointSelectsContaining | app/page.tsx:153-157 | with non-overlapping boxes, a probe inside section k's box makes k active and lies in no other section's box |
| SectionTracker.ReplayStaysScanned | app/page.tsx:119 | starting from "hero", any series of scroll events over any layouts of the scanned ids leaves a scanned id active; it never becomes undefined |
| SectionTracker.NavHighlight | app/page.tsx:731-733 | button i is highlighted exactly when its id equals the active id, so at most one is, and one is exactly when the active id is among the six navigation ids |
| SectionTracker.HeroHighlightsNothing | app/page.tsx:727 | while the initial "hero" section is active no navigation button is highlighted |
| SectionTracker.StackedPageScenario | app/page.tsx:150-158 | on seven stacked 800-pixel sections, scrolling to 1650 activates "skills", and scrolling below the page keeps it |
| Labels.UpperAscii | app/page.tsx:735 | ASCII lower-case letters map to the matching upper-case letter; every other character is unchanged |
| Labels.Capitalize | app/page.tsx:735 | the label has the id's length, its first character upper-cased and the rest unchanged, so it never starts with a lower-case ASCII letter |
| Labels.CapitalizeIdempotent | app/page.tsx:811 | capitalising a label again changes nothing |
| Labels.NavLabels | app/page.tsx:727-735 | the six navigation ids render as "About", "Skills", "Certifications", "Experience", "Projects" and "Contact" |
| Labels.IndexOf | app/page.tsx:1413 | the first position of the character, or -1 exactly when it does not occur |
| Labels.ReplaceFirst | app/page.tsx:1413 | length is kept, a string without the pattern is unchanged, and only the first occurrence is replaced |
| Labels.ReplaceFirstSplit | app/page.tsx:1413 | the replacement equals the prefix before the first occurrence, then the replacement character, then the untouched rest |
| Labels.ReplaceFirstCounts | app/page.tsx:1656 | exactly one pattern character is traded for the replacement when present; the character multiset is unchanged otherwise |
| Labels.MetricLabel | app/page.tsx:1413 | a caption equals its key when the key has no underscore; otherwise it is the part before the first underscore, a space, then the rest of the key unchanged, so it keeps the key's length and has exactly one underscore fewer |
| Labels.MetricLabels | app/page.tsx:1408-1413 | no captions without metrics; otherwise caption i is metric key i with its first underscore replaced by a space, as long as the key |
| Labels.MetricLabelTwoUnderscores | app/page.tsx:1656 | "a_b_c" becomes "a b_c": only the first underscore is replaced |
| Particles.Left | app/page.tsx:618 | a particle's horizontal position lies in [0, 90) |
| Particles.Top | app/page.tsx:619 | a particle's vertical position lies in [0, 85) |
| Particles.WelcomeParticle | app/page.tsx:617-622 | a welcome particle lies in the [0,90) by [0,85) box and animates for 2 to 4 seconds |
| Particles.BackgroundParticle | app/page.tsx:687-692 | a background particle lies in the [0,90) by [0,85) box and animates for 3 to 6 seconds |
| Particles.WelcomeLayout | app/page.tsx:613 | the welcome screen has 30 particles, all within those bounds |
| Particles.BackgroundLayout | app/page.tsx:683 | the background has 20 particles, all within those bounds |
| Particles.LeftInjective | app/page.tsx:618 | among the first 90 indices, distinct particles get distinct horizontal positions |
| Particles.TopInjective | app/page.tsx:619 | among the first 85 indices, distinct particles get distinct vertical positions |
| Particles.WelcomeSpread | app/page.tsx:613-619 | no two of the 30 welcome particles share a column or a row |
| Particles.BackgroundSharesWelcomePositions | app/page.tsx:688-689 | the 20 background particles sit at the positions of the first 20 welcome particles, so they do not share columns or rows either |
| Particles.DurationsCycle | app/page.tsx:621 | durations repeat every 3 (welcome) or every 4 (background) particles and reach both ends of their ranges |

## Left out

- Rendering, JSX, the UI components, styling and the fixed content arrays (skills, certifications, education, experience, stats, the projects' texts). These are display data with no behaviour. The projects array only enters as the catalogue rule "every project has an image".
- DOM access: `document.getElementById`, `offsetTop`/`offsetHeight`, `scrollIntoView` and listener registration. The tracker takes a list of optional boxes and a scroll offset as parameters instead.
- `scrollY` and element offsets are modelled as integers. Browsers can report fractional scroll offsets, and floating point is not modelled.
- `scrollToSection`, the mobile-menu flag and mouse-position tracking. They are event plumbing with no logic beyond setting a flag or a position.
- The welcome sequence (timers at 3000 ms and 4000 ms). It is host timing.
- The fractional animation delays `(i*0.2)%3` and `(i*0.3)%5`. Floating point is not modelled.
- The CSS `capitalize` class applied to metric captions. It is styling, not string logic.
- Labels.UpperAscii: upper-cases ASCII letters only, whereas `toUpperCase` applies full Unicode case mapping (which can even change the length). Nav ids are ASCII, so the page's own labels are unaffected.
- Labels.Capitalize: covers only what `UpperAscii` covers, for the same reason. The model works on characters, not UTF-16 code units.
- Labels.MetricLabels: `Object.entries` order is taken to be the authoring order, which holds for the page's non-numeric keys.
- Card clicks are allowed in any gallery state, even though the open modal covers the cards. This is a weaker assumption, so `RunKeepsValid` covers strictly more sequences.
- `tailwind.config.js` and `next.config.js`: build and styling configuration with no logic.
