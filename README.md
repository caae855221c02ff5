# Bracket-reference suggestion overlay

A Dafny model of `FilesSuggestionsDisplay`, the editor component that appears
while the user types a bracketed file reference. It has two parts:

- **Candidate filter** (`candidate_filter.dfy`, module `CandidateFilter`). From the
  text typed between the brackets and the pool of candidate file names it keeps
  the candidates whose lower-cased name contains the lower-cased text, in pool
  order. It strips each one's file extension and keeps the first five. An empty
  bracket text gives no suggestions.
- **Overlay positioner** (`overlay_positioner.dfy`, module `OverlayPositioner`).
  The class `SuggestionsOverlay` holds the component's `layout` state
  (`top`, `left`, `display`). It starts off-screen at -9999 and hidden. The
  layout effect runs after a commit in which the anchor position or the
  suggestion list changed; the re-render caused by its own layout update does
  not run it again. It leaves the layout untouched unless there is an anchor
  position, at least one suggestion and a rendered panel to measure. Otherwise it
  places the panel at the anchor, or flips it above the anchor (`top - height`)
  when the measured height would run past the viewport bottom and there is room
  above. The first run that gets past the guard measures a panel still drawn
  with the initial display "none", so its measured height is 0 and it is placed
  at the anchor (`ZeroHeightStaysAtAnchor`); that placement stays until the
  anchor or the list changes.
  `Render` says what the component draws from that state. `Click` says what a
  click on a suggestion passes to `onSelect`.

The extension remover `removeFileExtension` is defined elsewhere. It is passed
into the filter as an arbitrary function `strip`, and nothing is assumed about it.
The measured panel height and `window.innerHeight` are inputs of the effect
method. Pixel values are integers.

Two behaviours of the code that the model keeps:

- The layout is never reset. When the suggestion list becomes empty or the
  anchor goes away, the effect simply returns. An empty list makes the
  component render nothing (`Render` returns `None`). A missing anchor with
  suggestions still present leaves the panel drawn, displayed, at its previous
  layout. Once displayed, the layout stays `block` (`RunLayoutEffect` ensures
  this).
- A zero measured height is not treated specially. The panel is still placed
  and displayed.

## Model

| member | source | states |
|---|---|---|
| CandidateFilter.ToLower | src/components/Editor/FilesSuggestionsDisplay.tsx:32-34 | lower-casing keeps the length and lower-cases every character in place |
| CandidateFilter.ToLowerIdempotent | src/components/Editor/FilesSuggestionsDisplay.tsx:32-34 | lower-casing an already lower-cased text changes nothing |
| CandidateFilter.Includes | src/components/Editor/FilesSuggestionsDisplay.tsx:34 | `includes` is true exactly when the query occurs at some position of the name |
| CandidateFilter.IsMatch | src/components/Editor/FilesSuggestionsDisplay.tsx:32-34 | a candidate matches exactly when the lower-cased query occurs at some position of its lower-cased name; an empty query matches every candidate |
| CandidateFilter.KeepMatching | src/components/Editor/FilesSuggestionsDisplay.tsx:33-34 | the filter keeps only pool members that match, and never more than the pool holds |
| CandidateFilter.StripAll | src/components/Editor/FilesSuggestionsDisplay.tsx:35 | the map keeps the length and puts the stripped form of each name at its own position |
| CandidateFilter.Take | src/components/Editor/FilesSuggestionsDisplay.tsx:36 | `slice(0, n)` is a prefix of length min(n, length) |
| CandidateFilter.Filtered | src/components/Editor/FilesSuggestionsDisplay.tsx:30-37 | an empty bracket text gives no suggestions; there are never more than five, nor more than there are candidates |
| CandidateFilter.MatchIndices | src/components/Editor/FilesSuggestionsDisplay.tsx:33-34 | reference definition: the positions of the matching candidates, strictly increasing, with a position listed exactly when its candidate matches |
| CandidateFilter.KeepMatchingAtIndices | src/components/Editor/FilesSuggestionsDisplay.tsx:33-34 | the filter returns exactly the candidates at the matching positions, in pool order |
| CandidateFilter.FilteredIsFirstMatches | src/components/Editor/FilesSuggestionsDisplay.tsx:31-36 | for a non-empty text the suggestions are exactly the first min(5, #matches) matching candidates, stripped, in pool order |
| CandidateFilter.FilteredSound | src/components/Editor/FilesSuggestionsDisplay.tsx:32-35 | every suggestion is the stripped form of a candidate whose lower-cased name contains the lower-cased text |
| CandidateFilter.FilteredKeepsPoolOrder | src/components/Editor/FilesSuggestionsDisplay.tsx:33-36 | an earlier suggestion comes from an earlier matching candidate; the list is never re-ranked |
| CandidateFilter.FilteredSkipsOnlyAfterFive | src/components/Editor/FilesSuggestionsDisplay.tsx:33-36 | a matching candidate is shown unless five matching candidates before it fill the list |
| CandidateFilter.KeepMatchingAppend | src/components/Editor/FilesSuggestionsDisplay.tsx:33-34 | filtering a concatenated pool is the concatenation of the filtered parts |
| CandidateFilter.FilteredStableUnderAppend | src/components/Editor/FilesSuggestionsDisplay.tsx:33-36 | adding candidates at the end of the pool only extends the suggestions, and changes nothing once five are shown |
| CandidateFilter.FilteredIgnoresQueryCase | src/components/Editor/FilesSuggestionsDisplay.tsx:31-32 | the bracket text and its lower-cased form give the same suggestions |
| OverlayPositioner.ShouldDisplayAbove | src/components/Editor/FilesSuggestionsDisplay.tsx:50 | the panel is flipped exactly when it overflows the viewport bottom and its flipped top would be strictly positive: a flip implies both, and both imply a flip |
| OverlayPositioner.PlacePanel | src/components/Editor/FilesSuggestionsDisplay.tsx:47-61 | the placement is displayed and keeps the anchor's left; when flipped, the panel's bottom edge is on the anchor and its top is strictly positive; otherwise it is at the anchor; a panel that fits below never flips; an anchor inside the viewport whose panel fits below or above gets a panel inside the viewport |
| OverlayPositioner.Click | src/components/Editor/FilesSuggestionsDisplay.tsx:78-84 | a click calls `onSelect` exactly once with the clicked item's displayed text, or not at all when there is no `onSelect` |
| OverlayPositioner.SuggestionsOverlay.constructor | src/components/Editor/FilesSuggestionsDisplay.tsx:24-28 | the layout starts at (-9999, -9999) with display "none" |
| OverlayPositioner.SuggestionsOverlay.RunLayoutEffect | src/components/Editor/FilesSuggestionsDisplay.tsx:39-62 | without an anchor, with no suggestions or without a panel node the layout is unchanged; otherwise it is the placement of the new inputs, whatever the old layout was; a displayed layout is never hidden again; the object invariant is kept |
| OverlayPositioner.SuggestionsOverlay.Render | src/components/Editor/FilesSuggestionsDisplay.tsx:64-75 | nothing is rendered exactly when there are no suggestions; otherwise the list is drawn at the layout's top and display, with left 0 outside an editor |
| OverlayPositioner.HiddenIffNeverPlaced | src/components/Editor/FilesSuggestionsDisplay.tsx:24-61 | the layout is hidden exactly until the first placement, and a hidden layout is still off-screen |
| OverlayPositioner.VisibleOnlyWhenPlaced | src/components/Editor/FilesSuggestionsDisplay.tsx:39-75 | a visible panel has suggestions and has been placed; with no suggestions nothing is visible, whatever the layout |
| OverlayPositioner.ClickSelectsStrippedMatch | src/components/Editor/FilesSuggestionsDisplay.tsx:30-84 | clicking a suggestion passes `onSelect` one string: the stripped name of a matching candidate, not the candidate itself |
| OverlayPositioner.ZeroHeightStaysAtAnchor | src/components/Editor/FilesSuggestionsDisplay.tsx:48-61 | a panel measured with height 0, as a panel still drawn with display "none" is, is placed exactly at the anchor, displayed |
| OverlayPositioner.FlipAboveExample | src/components/Editor/FilesSuggestionsDisplay.tsx:50-61 | anchor (500, 100), height 80, viewport 550 gives top 420, left 100, displayed |
| OverlayPositioner.StayBelowExample | src/components/Editor/FilesSuggestionsDisplay.tsx:50-61 | anchor (50, 20), height 200, viewport 800 gives top 50, left 20, displayed |

## Left out

- `src/components/Sidebars/MainSidebar.tsx`: it only chooses which child component to show. It also calls the Electron store and analytics, which are foreign asynchronous calls.
- `removeFileExtension` (from `src/functions/strings`) is not part of this model. It is the parameter `strip`, and nothing is stated about it, not even idempotence.
- CandidateFilter.StripAll: `.map` also passes the index and the whole array to `removeFileExtension`; typing `strip` as `string -> string` assumes its result depends on the name alone.
- OverlayPositioner.SuggestionsOverlay.RunLayoutEffect: `panelHeight` is a free input, so the model does not show that the first measurement after mounting is of a panel drawn with display "none" (height 0); `ZeroHeightStaysAtAnchor` states what such a measurement gives.
- OverlayPositioner.SuggestionsOverlay.Render: the default value `true` of `isInEditor` is not modelled; the caller passes the flag explicitly.
- CandidateFilter.ToLower: lower-cases only the letters A-Z. Unicode case mapping, including mappings that change a string's length, is not modelled.
- Pixel coordinates are integers; JavaScript numbers may be fractional. The measured height is a natural number, as a rendered box's height is never negative.
- DOM measurement (`getBoundingClientRect`) and `window.innerHeight` are inputs of `RunLayoutEffect`. A missing panel node is `None`.
- React plumbing is not modelled: `useMemo` caching, `useRef`, when effects are scheduled and in which order, and the effect's dependency list. `RunLayoutEffect` may be called after any commit, and the caller decides when.
- The `console.log` debug output, the class names, `maxWidth`, the list `key`, and the `px` string formatting of the style values are not modelled.
- What the host's `onSelect` does is outside the component. The model records only the arguments it is called with.
- Horizontal overflow is not corrected, as in the code. Only the vertical flip is computed.
