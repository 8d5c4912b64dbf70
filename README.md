# LiveBarn Player Plus: the control-injection core in Dafny

The LiveBarn Player Plus content script (`content.js`) adds two controls to the LiveBarn
video player's control bar. One is a playback-speed control with a dropdown of seven speeds.
The other is a button that skips ten seconds forward. The script does four things:

- It polls every 500 ms for the `<video>` element and the control bar, and gives up after 30 s.
- It inserts the speed control directly in front of the first play-like child of the bar.
- It inserts the forward button in front of the audio/volume control. When there is none, it
  inserts it directly after the "next" button.
- It registers a mutation observer that puts back either control when its marker class
  (`livebarn-speed-control`, `livebarn-forward-btn`) has gone from the document.

This project models that logic. The DOM becomes an ordered list of the control bar's
children (`seq<Elem>`) plus the rest of the document. A host child is described by the
selectors it satisfies, so each CSS selector becomes a predicate, and "the first element
matching" becomes "the least index satisfying it".

Modules, one per component:

- `Dom` (`dom.dfy`): elements, selectors, the first match, counting, `insertBefore`.
- `Insertion` (`insertion.dfy`): pure specifications of `addSpeedControl`,
  `addForwardButton`, `initializeControls` and the observer callback. Also the lemmas on
  placement, the at-most-one invariant and idempotence.
- `Media` (`media.dfy`): the video element as a class, and the forward button's clamp.
- `SpeedMenu` (`speed_menu.dfy`): the fixed speed list and the dropdown. The dropdown is a
  class whose array of `active` flags is cleared and set in place.
- `Extension` (`page.dfy`): the script's module variables as fields of a `Page` class, the
  polling loop, and the methods that change the page. Each method is proved against the
  `Insertion` functions.
- `Options` (`options.dfy`): `Option`, standing for a query result that may be `null`.

## Model

| member | source | states |
|---|---|---|
| `Dom.Matches` | content.js:32-122 | the selectors of content.js:32, 35, 45, 112 and 114 as one predicate per selector: a created control matches its own marker and no other marker, the speed control also matches the play selector (its span class `livebarn-speed-display`, content.js:58, contains "play"), the forward button (classes at content.js:122) matches no anchor selector, and no host element carries a marker |
| `Dom.First` | content.js:45-47 | `querySelector` over a list: the result is the least index whose element matches the selector, and `None` exactly when no element matches |
| `Dom.InsertAt` | content.js:107 | `insertBefore`: the new element sits at the anchor's old index; everything before it keeps its index, everything after moves up one place; removing it gives back the original list |
| `Insertion.AddSpeed` | content.js:43-108 | with no play-like child, or a speed control already in the document, the bar is unchanged; otherwise exactly one element is added, a speed control directly before the first play-like child, and all other children keep their order |
| `Insertion.AddSpeedExactlyOne` | content.js:45-107 | after an insertion the document holds exactly one speed control; the forward-button count never changes; the at-most-one invariant is kept |
| `Insertion.ForwardTarget` | content.js:112-116 | the forward button's anchor in priority order: the first audio/volume control if there is one; otherwise the element after the first next button, and no anchor when the next button is missing or is the last child |
| `Insertion.AddForward` | content.js:110-147 | with no target, or a forward button already in the document, the bar is unchanged; otherwise exactly one forward button is added, directly before the first audio control or, when there is none, directly after the first next button (and before its old successor); no other child moves |
| `Insertion.AddForwardExactlyOne` | content.js:118-146 | after an insertion the document holds exactly one forward button; the speed-control count never changes; the at-most-one invariant is kept |
| `Insertion.ForwardTargetSurvivesSpeed` | content.js:26-28 | inserting the speed control first never changes whether `addForwardButton` finds a target |
| `Insertion.Initialize` | content.js:27-28 | `addSpeedControl` then `addForwardButton`: the speed-control count grows by one exactly when the speed control applies, the forward-button count grows by one exactly when the forward button applies to the bar after the speed step, and the at-most-one invariant is kept |
| `Insertion.Reassert` | content.js:31-38 | the observer callback: its own marker checks repeat the ones inside the add functions, so one run has exactly the effect of `addSpeedControl` followed by `addForwardButton` |
| `Insertion.ReassertKeepsAtMostOne` | content.js:31-38 | a callback run on a document with at most one copy of each control leaves at most one copy of each |
| `Insertion.ReassertRestores` | content.js:31-38 | a missing control is re-added (exactly one copy) whenever its anchor exists; a control whose marker is present keeps its count; with both markers present the bar is unchanged |
| `Insertion.ReassertIdempotent` | content.js:31-38 | running the callback twice in a row gives the same bar as running it once |
| `Insertion.ReassertTimesIsOnce` | content.js:31-40 | any number of consecutive callback runs, one or more, has the effect of exactly one run |
| `Insertion.ReassertTimesKeepsAtMostOne` | content.js:31-40 | however many times the callback runs, the document never holds two speed controls or two forward buttons |
| `Media.SkipTarget` | content.js:137 | `Math.min(currentTime + 10, duration)`: never past `duration`, never more than ten seconds ahead, equal to one of the two, and never behind `currentTime` when `currentTime <= duration` |
| `SpeedMenu.OnlyActiveIsExactlyOne` | content.js:72-83 | when one option is the active one and no other is, exactly one option carries `active` |
| `SpeedMenu.Dropdown.constructor` | content.js:56-72 | a new control has exactly one active option (the count of `active` flags is 1), the one whose speed is `1`; its label is "1x" and its list is hidden |
| `SpeedMenu.Dropdown.Choose` | content.js:77-85 | after an option click, that option is the only active one (the count of `active` flags is 1), the label is that option's `speed + "x"`, and the list is hidden |
| `SpeedMenu.Dropdown.Toggle` | content.js:95-99 | a click on the speed control flips the list between shown and hidden and changes nothing else |
| `SpeedMenu.Dropdown.Close` | content.js:102-104 | a click anywhere else leaves the list hidden and changes nothing else |
| `Extension.ReadyTick` | content.js:11-24 | the tick at which polling stops early: the first tick before the deadline that finds both the video and the control bar, or none |
| `Extension.Page.constructor` | content.js:5-8 | the four module variables start out null, and no observer is registered |
| `Extension.Page.WaitForPlayer` | content.js:11-24 | polling runs between 1 and 60 ticks; it stops at the first tick that finds both the video and the bar, and otherwise at the deadline; `initializeControls` runs exactly once if such a tick exists and never otherwise; the globals hold what the last tick found; when it initialises, `speedControl` is a fresh control in its initial state exactly when a speed control was inserted (otherwise unchanged) and `forwardButton` is set exactly when a forward button was inserted |
| `Extension.Page.InitializeControls` | content.js:26-41 | the bar becomes `AddForward(AddSpeed(bar))`, the observer is registered, `speedControl` is a fresh control in its initial state exactly when a speed control was inserted (otherwise unchanged), `forwardButton` is set exactly when a forward button was inserted, and the at-most-one invariant is kept |
| `Extension.Page.AddSpeedControl` | content.js:43-108 | the bar becomes `AddSpeed` of the old bar; on insertion `speedControl` is a fresh control in its initial state, otherwise unchanged; the invariant is kept |
| `Extension.Page.AddForwardButton` | content.js:110-147 | the bar becomes `AddForward` of the old bar, `forwardButton` is set exactly when a button is inserted, and the invariant is kept |
| `Extension.Page.ObserverCallback` | content.js:31-38 | the bar becomes `Reassert` of the old bar; a re-added speed control is a fresh control reading "1x" with option `1` active, while the video's `playbackRate` keeps whatever was chosen before; otherwise `speedControl` is unchanged; `forwardButton` is set exactly when a forward button was re-added; `initializations` is unchanged and the at-most-one invariant is kept |
| `Extension.Page.SetPlaybackSpeed` | content.js:149-153 | with a video, its `playbackRate` becomes the speed and nothing else of it changes; with none, nothing changes |
| `Extension.Page.SelectSpeed` | content.js:74-86 | an option click sets the video's rate to that option's speed (if there is a video), makes the option the only active one, sets the label and hides the list |
| `Extension.Page.ForwardClick` | content.js:135-139 | with a video, `currentTime` becomes `SkipTarget(currentTime, duration)` and nothing else of it changes; with none, nothing changes |

## Left out

- Discovery strategies beyond the script's own. The speed control has one fixed selector.
  The forward button has two: the audio/volume selector first, then the next-button selector
  as its only fallback (modelled by `Insertion.ForwardTarget`). Neither control is added
  when its queries find nothing. There is no further search, no geometric heuristic and no
  overlay placement, and the two controls are anchored and inserted independently.
- A speed button that cycles through the speeds: the script has a dropdown, which is what
  is modelled.
- A lower clamp at 0 for the skip: the script only applies
  `Math.min(currentTime + 10, duration)`.
- DOM construction: `createElement`, attributes, class names, styles, the emoji icon and
  `innerHTML`. Only element kinds and list positions are modelled.
- The CSS selector engine. Each host child carries three flags saying whether it matches the
  play, audio/volume and next selectors. The speed control counts as play-like, because its
  label span's class `livebarn-speed-display` contains "play". This never matters, because
  the marker check stops `addSpeedControl` first.
- Nesting. Every element a selector finds is a direct child of the bar. So `insertBefore`
  on an anchor that is not a child, which throws in a browser, is not modelled. For the same
  reason `nextSibling` and `nextElementSibling` are the same element here.
- Which element the `controlsBar` query picks out of the page. Each polling tick takes the
  found bar's children as an input.
- Real timers. Polling is a loop over tick numbers, with `MaxTicks = 30000 / 500 = 60`.
  A tick that falls due at the same moment as the 30 s timeout is counted as running. A
  browser may run either timer first.
- When the mutation observer fires, and its registration on the element. The callback is a
  method that can be called at any time after `initializeControls`. The model does not
  capture that an observer attached to a control bar the host later replaces never fires.
- Event dispatch and `stopPropagation`. Each handler is its own method. Every speed control
  ever created keeps its own document click listener. The model closes only the dropdown it
  is given.
- The startup path (`DOMContentLoaded` / `readyState`, content.js:156-160). `WaitForPlayer`
  is the entry point.
- The `popstate` re-entry (content.js:163-165), and the duplicate observers and listeners it
  leads to.
- IEEE-754 arithmetic, `NaN` durations before metadata loads, and the media element's own
  clamping of `currentTime`. Times are `real`.
- Calls on a null `controlsBar`, which throw a `TypeError` in the script, are excluded by a
  `requires` on the methods that use it.
