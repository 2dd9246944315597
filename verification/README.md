# Luciano's Suite front-end features, modelled in Dafny

This project models three browser-side features of a ComfyUI extension suite as
immutable state records with pure transition functions, and proves properties
of them.

- **Run timer** (`RunTimer`, `run_timer.dfy`): a display next to the Run button.
  - While a workflow runs, it counts up as `⏱ MM:SS`.
  - On success, completion, error or interruption it shows `✅`, `❌` or `🚫`
    followed by the duration.
  - Each finished run is added to a five-entry history, newest first.
  - A click on the display shows or hides the history.
  - The model covers mounting and unmounting, including the anonymous stop
    listeners that unmounting leaves registered with the host and the interval
    that unmounting in the middle of a run leaves set.
- **Path display** (`ViewerPath`, `ContextMenuPath`, `PathDisplay`):
  - Full-screen viewer: each viewer mask gets one overlay, `output/<file> (<w> x <h>)`.
    The overlay is refreshed as `output/<file> (<w>x<h>)` while the viewer navigates.
  - Context menu: a right-click on a queue item remembers the item's output file
    name. The next context menu that opens gets a leading "Show Path" entry, once
    per menu. Hovering that entry shows `Path: output/<file>`. When a menu
    closes, the remembered name and the tooltip are cleared.
  - The controller sets up or cleans up both features when the
    "Enable Path Display" setting changes.
  - Viewer masks and context menus are created by the host and may leave the
    document while keeping their contents; document queries find only those still
    in it.
- **Batch confirmation** (`BatchConfirm`, `batch_confirm.dfy`): the host's
  `queuePrompt` is replaced by a wrapper.
  - For a batch count above one, the wrapper asks `⚠️ You are about to run a batch of N images. Continue?`.
  - It calls the saved original only after "Yes, Run".
  - An exception from the original is caught and the original is called once
    more. An exception while building the dialog is caught too, and the batch then
    runs without confirmation.
  - `setup` and `cleanup` install the wrapper and put the original back.

Shared pieces:

- `Optional`: `Option`, plus JavaScript truthiness for an optional string.
- `Strings`:
  - decimal formatting and parsing;
  - `padStart`;
  - splitting on a character.
- `Urls`: the image `src` reading that both path features share, which is
  `split('?')[1]` followed by the first `filename` parameter.

Timestamps, the host's events, the dialog's answer and whether the host's
function fails are all parameters. The DOM is reduced to the records each
handler reads.

## Model

| member | source | states |
|---|---|---|
| Strings.NatToString | js/run_timer.js:65 | Number-to-decimal for naturals: at least one digit, digits only, no leading zero unless the number is 0 |
| Strings.IntToStringRoundTrip | js/run_timer.js:65 | the decimal text of any integer, with a leading `-` for negatives, reads back as that integer |
| Strings.LeadingZeroIgnored | js/run_timer.js:65 | a zero put in front by padding does not change the value the digits denote |
| Strings.PadStart | js/run_timer.js:65 | `padStart`: the result is as long as the string or the width, whichever is larger; it ends with the string and is filled before it |
| Strings.Split | js/image_viewer_path.js:69 | `split` on one character: at least one piece, exactly one piece iff the separator does not occur, no piece contains the separator |
| Strings.JoinSplit | js/image_viewer_path.js:69 | the pieces of a split, joined with the separator, give back the original string |
| Strings.SplitJoin | js/image_viewer_path.js:69 | splitting separator-free pieces after joining them gives back the pieces |
| Urls.QuerySegment | js/image_viewer_path.js:69-70 | the query of a source is absent iff it has no `?`, and never contains `?` |
| Urls.QuerySegmentOf | js/image_viewer_path.js:69 | for `path?query?more` the query is exactly the text between the first two `?`; anything after a second `?` is dropped |
| Urls.Lookup | js/image_viewer_path.js:72-73 | a parameter is absent iff no pair names it; a present value comes from a pair that names it (first match) |
| Urls.FilenameFromSrc | js/image_viewer_path.js:66-73 | a file name is found iff the source is non-empty, has a non-empty query and a non-empty `filename` parameter; the name never contains `?` or `&` |
| Urls.FilenameOfUrl | js/image_viewer_path.js:66-73 | the source `<path>?filename=<f>&...` yields exactly `f` |
| RunTimer.JsRemainder | js/run_timer.js:65 | JavaScript `%` with a positive divisor: the result differs from the dividend by a multiple of the divisor, is smaller than the divisor in magnitude, and is never of the opposite sign to the dividend |
| RunTimer.FormatTimeRoundTrip | js/run_timer.js:65 | the `MM:SS` text of any non-negative number of seconds reads back as minutes times 60 plus seconds, giving that number |
| RunTimer.FormatTimeLength | js/run_timer.js:65 | under 100 minutes the text is exactly five characters; beyond that the minutes widen |
| RunTimer.FormatTimeInjective | js/run_timer.js:65 | different durations never show the same text |
| RunTimer.ElapsedSeconds | js/run_timer.js:95 | `Math.floor((now - start) / 1000)`: the largest whole number of seconds not exceeding the elapsed milliseconds |
| RunTimer.Record | js/run_timer.js:76-77 | the new entry goes first; below capacity it is prepended, at capacity the oldest entry is dropped |
| RunTimer.RecordAllKeepsNewest | js/run_timer.js:72-80 | after any sequence of finished runs the history is the newest ones, newest first, at most five |
| RunTimer.SixCompletions | js/run_timer.js:76-77 | after six runs the history holds runs six down to two |
| RunTimer.Start | js/run_timer.js:82-91 | ignored while running; otherwise shows `⏱ 00:00` with only the running class, records the start time, starts ticking, keeps the history |
| RunTimer.Tick | js/run_timer.js:88-90 | while ticking, the display shows `⏱` and the whole seconds since the start |
| RunTimer.Stop | js/run_timer.js:92-101 | ignored unless running; otherwise stops ticking and shows `✅`/`❌` and the duration, swaps the running class for done or error, and records the run in the history |
| RunTimer.Interrupt | js/run_timer.js:102-111 | ignored unless running; otherwise shows `🚫` and the duration, marks the display as error and records a failed run |
| RunTimer.ToggleHistory | js/run_timer.js:112 | flips the history's visibility and nothing else |
| RunTimer.ToggleTwice | js/run_timer.js:112 | two clicks restore the display exactly |
| RunTimer.StopOnce | js/run_timer.js:93 | a second stop, of any kind and at any time, changes nothing |
| RunTimer.StartThenStop | js/run_timer.js:82-101 | a run from idle ends showing its outcome and floor-seconds duration, with only the outcome class, and heads the history above the previous four |
| RunTimer.SixtyFiveSeconds | js/run_timer.js:75-99 | a run of 65 s succeeds with `✅ 01:05`, and its history entry reads `<time> — ✅ 01:05` |
| RunTimer.StepKeepsValid | js/run_timer.js:81-113 | every listener keeps "at most five history entries, ticking exactly while running, a running display has a start time and only the running class" |
| RunTimer.ReplayKeepsValid | js/run_timer.js:114-118 | any sequence of host events keeps that invariant |
| RunTimer.Setup | js/run_timer.js:8-27 | ignored when initialized; when the action bar is found, mounts a fresh display and one more set of stop wrappers, and owns the style iff it already did or had to inject it; otherwise ends cleaned up |
| RunTimer.CleanupAsWritten | js/run_timer.js:29-35 | unmounts, removes the style only if this feature added it, leaves the stop wrappers registered, and, when unmounted mid-run, leaves that run's interval set with its start time |
| RunTimer.Cleanup | js/run_timer.js:29-35 | as written, except that the interval goes with the listeners, so no interval outlives its display (corrected, see Findings) |
| RunTimer.CleanupsAgreeWhenIdle | js/run_timer.js:29-35 | the two cleanups coincide iff no run is being timed |
| RunTimer.LeakedTick | js/run_timer.js:88-90 | a leaked interval rewrites only the text of whichever display is mounted now, with `⏱` and the time since its own start; with none mounted nothing changes |
| RunTimer.LeakedIntervalOverwrites | js/run_timer.js:29-35 | mount, start a run, switch off and on: the old interval is still set, and 65 s after the old start the idle new display reads `⏱ 01:05`; the corrected cleanup leaves no interval |
| RunTimer.CorrectedLifecycleNoLeak | js/run_timer.js:8-35 | with the corrected cleanup, no sequence of setups, cleanups and host events leaves an interval behind |
| RunTimer.StopTimesOnce | js/run_timer.js:115-117 | a stop delivered by any number of accumulated wrapper sets has the effect of one |
| RunTimer.DispatchIsStep | js/run_timer.js:114-130 | despite leaked wrappers, each host event acts on a mounted timer exactly as its listener does |
| RunTimer.LifecycleKeepsValid | js/run_timer.js:8-35 | setup and both cleanups keep the feature's invariant |
| RunTimer.SetupThenCleanup | js/run_timer.js:8-35 | enabling then disabling, with either cleanup, restores the page, except for one leaked wrapper set per successful mount |
| RunTimer.CleanupTwice | js/run_timer.js:29-35 | both cleanups are idempotent |
| RunTimer.InterruptRecordsFailure | js/run_timer.js:72-111 | an interruption shows `🚫` and the duration, with only the error class, but its history entry is a failure: class `history-entry fail` and text `<time> — ❌ <duration>` |
| ViewerPath.MaskClassNames | js/image_viewer_path.js:46 | the selector-list test accepts a node iff its classes include `p-component-overlay`, `p-galleria-mask` or `p-dialog-mask` |
| ViewerPath.MaskOf | js/image_viewer_path.js:44-52 | a non-element yields no mask; a mask-class element is itself the mask; otherwise its first mask descendant |
| ViewerPath.ExtractImageData | js/image_viewer_path.js:63-81 | data is found iff there is an image, its source gives a file name, and both natural dimensions are non-zero; the data carries them |
| ViewerPath.ExtractFromUrl | js/image_viewer_path.js:63-81 | a loaded image served as `<path>?filename=<f>&...` gives `f` and its dimensions |
| ViewerPath.ActiveSlide | js/image_viewer_path.js:85-86 | the first active slide, else the first slide not hidden; none iff no slide is active and every slide is hidden |
| ViewerPath.ExtractFromActiveSlide | js/image_viewer_path.js:84-96 | reads the chosen slide's image, or the mask's first image when no slide qualifies |
| ViewerPath.LabelsDiffer | js/image_viewer_path.js:104-136 | the creation label (`w x h`) and the refresh label (`wxh`) share their prefix but always differ by two spaces |
| ViewerPath.Setup | js/image_viewer_path.js:13-18 | ignored when enabled; otherwise enables and starts observing, leaving masks alone |
| ViewerPath.UpdatePathDisplay | js/image_viewer_path.js:98-106 | when enabled, with readable data and an overlay present, the first overlay shows the refresh label; otherwise nothing changes |
| ViewerPath.HandleModalInjection | js/image_viewer_path.js:124-159 | a marked mask is only refreshed; an unmarked mask is marked and, given data and a content area, gets the creation label and is watched for navigation |
| ViewerPath.InjectedAtMostOnce | js/image_viewer_path.js:126-130 | over any sequence of observer deliveries, no mask ever gains more than one overlay |
| ViewerPath.FailedMaskNeverInjected | js/image_viewer_path.js:130-133 | a mask whose data could not be read at first sight is marked anyway and never gets an overlay |
| ViewerPath.HandleKeepsValid | js/image_viewer_path.js:108-122 | observer callbacks keep "observing exactly while enabled, navigation watches an existing mask" |
| ViewerPath.Cleanup | js/image_viewer_path.js:20-35 | when enabled: disables, disconnects both observers, forgets navigation, and strips every overlay and marker from the masks in the document; masks outside it are untouched (corrected, see Findings) |
| ViewerPath.CleanupAsWritten | js/image_viewer_path.js:20-35 | when enabled: disables, disconnects both observers, forgets navigation; removes the first overlay in document order, if any; unmarks every mask in the document; nothing else changes |
| ViewerPath.CleanupsAgreeOnOneOverlay | js/image_viewer_path.js:30-31 | with at most one overlay in the document the two cleanups coincide |
| ViewerPath.ReopenedViewerCleaned | js/image_viewer_path.js:30-31 | a viewer closed with its overlay inside, then a second opened and given one: the cleanup as written removes the open viewer's overlay, none is left in the document, and the closed mask is untouched |
| ViewerPath.CleanupLeavesOverlay | js/image_viewer_path.js:30-31 | two fresh masks whose image is served as `<path>?filename=<f>` each get an overlay; the cleanup as written leaves one of them, the corrected one leaves none |
| ViewerPath.CycleLeavesNoResidue | js/image_viewer_path.js:13-35 | with the corrected cleanup, for masks that stay in the document: enable, any observer traffic, disable, enable again returns to the state right after the first enable |
| ViewerPath.CycleAsWrittenLeavesNoResidue | js/image_viewer_path.js:13-35 | with the cleanup as written, the same cycle returns to the state right after the first enable whenever the traffic leaves at most one overlay in the document |
| ViewerPath.ReplayKeepsEnabled | js/image_viewer_path.js:40-56 | observer deliveries never switch the feature on or off |
| ContextMenuPath.ClickedFilename | js/image_viewer_path.js:219-229 | a name is remembered iff the click is inside a task item whose output image source yields a file name |
| ContextMenuPath.Setup | js/image_viewer_path.js:172-180 | ignored when enabled; otherwise enables and attaches the right-click hook and the menu observer |
| ContextMenuPath.HandleRightClick | js/image_viewer_path.js:216-234 | when enabled, the previous name is dropped and the clicked item's name, if any, is remembered |
| ContextMenuPath.RightClickRemembers | js/image_viewer_path.js:218-229 | after a right-click a name is remembered iff the click is inside a task item whose output image has a source yielding a file name, and then it is exactly that file name; a click outside a task item forgets the previous one |
| ContextMenuPath.OnMenuAdded | js/image_viewer_path.js:248-268 | with a remembered name, an unmarked menu is marked and its root list, if any, gets the entry first; other menus are untouched |
| ContextMenuPath.MenuAddedOnce | js/image_viewer_path.js:250-251 | a menu delivered twice gets the entry once |
| ContextMenuPath.NoStaleEntry | js/image_viewer_path.js:250-274 | after a menu closes, a menu that opens gets no entry until the next right-click |
| ContextMenuPath.OnMenuRemoved | js/image_viewer_path.js:270-274 | a menu closing clears the remembered name and the tooltip, nothing else |
| ContextMenuPath.HoverShowPath | js/image_viewer_path.js:259-265 | hovering the entry shows `Path: output/<name>` for the remembered name, and does nothing without one |
| ContextMenuPath.LeaveShowPath | js/image_viewer_path.js:266 | leaving the entry removes the tooltip and nothing else |
| ContextMenuPath.OnRemovedNodes | js/image_viewer_path.js:270-274 | removed nodes clear the name and tooltip iff one of them is a context menu |
| ContextMenuPath.Observe | js/image_viewer_path.js:244-245 | records delivered to a detached or disabled feature change nothing |
| ContextMenuPath.RemovalClears | js/image_viewer_path.js:270-274 | a batch of records that removes any menu leaves no name and no tooltip |
| ContextMenuPath.DuplicateDeliveryHarmless | js/image_viewer_path.js:241-280 | handling the same mutation records a second time changes nothing |
| ContextMenuPath.ShowPathScenario | js/image_viewer_path.js:216-274 | right-click an item served as `...?filename=<f>`, open a menu, hover: the entry leads the menu and the tooltip is `Path: output/<f>`; after the menu closes the next menu gets no entry |
| ContextMenuPath.TransitionsKeepValid | js/image_viewer_path.js:172-234 | every transition, including the host opening or closing a menu, keeps "hooks attached exactly while enabled, a remembered name is never empty" |
| ContextMenuPath.HostEventsAreObserved | js/image_viewer_path.js:241-274 | a menu opening or closing has exactly the effect of the observer receiving one record that adds or removes it |
| ContextMenuPath.CleanupAsWritten | js/image_viewer_path.js:182-195 | when enabled: disables, detaches, removes the tooltip, and removes the first entry in document order from the first open menu holding one; closed menus are untouched; the remembered name stays |
| ContextMenuPath.Cleanup | js/image_viewer_path.js:182-195 | as written, except that every entry in the document is removed; closed menus are untouched (corrected, see Findings) |
| ContextMenuPath.CleanupLeavesEntry | js/image_viewer_path.js:193-194 | two open menus with the entry: the cleanup as written leaves one entry, the corrected one leaves none |
| ContextMenuPath.NoEntriesUnchanged | js/image_viewer_path.js:193-194 | on menus without entries in the document the corrected cleanup changes no menu |
| ContextMenuPath.CleanupsAgreeOnOneEntry | js/image_viewer_path.js:193-194 | with at most one entry in the document the two cleanups coincide |
| ContextMenuPath.ReopenedMenuCleaned | js/image_viewer_path.js:193-194 | right-click, a menu opens with the entry and closes, right-click, a second menu opens with it: the cleanup as written removes the open menu's entry, none is left in the document, and the closed menu is untouched |
| PathDisplay.Setup | js/image_viewer_path.js:287-290 | both features end up enabled; menus and masks untouched |
| PathDisplay.CleanupAsWritten | js/image_viewer_path.js:291-294 | both features end up disabled; an enabled feature loses one entry or overlay from the document, if it has one, and drops its tooltip or unmarks the masks in the document |
| PathDisplay.Cleanup | js/image_viewer_path.js:291-294 | both features end up disabled; an enabled feature leaves no entry, tooltip or overlay in the document and no marker on a mask in it (composes the corrected cleanups) |
| PathDisplay.CleanupsAgreeOnOneItem | js/image_viewer_path.js:291-294 | with at most one entry and one overlay in the document the two controller cleanups coincide |
| PathDisplay.OnSettingChange | js/image_viewer_path.js:309-315 | both features' enabled flags follow the new setting value; switching on leaves menus and masks alone; switching off runs the cleanup as written, so each enabled feature loses one entry or overlay from the document, if it has one |
| PathDisplay.PageLoad | js/image_viewer_path.js:303-321 | on load, `getSettingValue` decides: a stored true, or no stored value, for which the host's settings store answers with the declared `defaultValue: true`, sets both features up exactly as `setup` does; a stored false changes nothing |
| PathDisplay.SettingChangeIdempotent | js/image_viewer_path.js:309-315 | delivering the same value twice equals delivering it once |
| PathDisplay.SettingChangeKeepsValid | js/image_viewer_path.js:286-315 | setting changes keep both features valid, with hooks and observers following the value |
| PathDisplay.OnThenOffRestores | js/image_viewer_path.js:286-315 | on a clean page, switching the setting on and then off gives back exactly the same state |
| BatchConfirm.BatchCount | js/run_batch_confirm.js:46 | a count other than 1 comes from a numeric second argument; a numeric second argument is the count |
| BatchConfirm.DialogMessage | js/run_batch_confirm.js:71 | the question starts with `⚠️ You are about to run a batch of ` and ends with ` images. Continue?` |
| BatchConfirm.MessageCountRoundTrip | js/run_batch_confirm.js:71 | the batch size can be read back exactly from the question |
| BatchConfirm.MessageInjective | js/run_batch_confirm.js:71 | two questions are equal iff their batch sizes are |
| BatchConfirm.Click | js/run_batch_confirm.js:80-81 | while the overlay is attached, a click detaches it and resolves true for "Yes, Run", false for "Cancel"; a resolved dialog stays as it is |
| BatchConfirm.FirstClickDecides | js/run_batch_confirm.js:80-81 | for any click sequence the dialog resolves once, with the first click's answer, and the overlay is gone |
| BatchConfirm.Invoke | js/run_batch_confirm.js:44-61 | question shown iff the count exceeds 1 and the dialog builds; pending iff unanswered; skipped iff cancelled; at most two calls, all to the saved original with the same arguments; rejected iff no original or both attempts fail |
| BatchConfirm.SmallBatchPassesThrough | js/run_batch_confirm.js:46-56 | a count of at most 1: no question, one call with the same arguments |
| BatchConfirm.LargeBatchNeedsYes | js/run_batch_confirm.js:48-56 | a larger batch runs iff the first click is "Yes, Run", and then exactly once |
| BatchConfirm.DialogFailureSkipsConfirmation | js/run_batch_confirm.js:57-59 | an exception while building the dialog runs the batch without confirmation |
| BatchConfirm.FailingOriginalRunsTwice | js/run_batch_confirm.js:55-59 | for any batch, an original that fails, reached directly or after "Yes, Run", is called a second time with the same arguments; the wrapper rejects iff that call fails too |
| BatchConfirm.StaleWrapperRejects | js/run_batch_confirm.js:44-61 | a wrapper called after cleanup that gets as far as the original (a count of at most 1, "Yes, Run", or a dialog that fails to build) has no original: it rejects without any call |
| BatchConfirm.Setup | js/run_batch_confirm.js:7-19 | ignored when initialized; otherwise saves the current function and installs a newly bound wrapper |
| BatchConfirm.Cleanup | js/run_batch_confirm.js:21-31 | ignored unless initialized; otherwise restores the saved function and forgets it |
| BatchConfirm.SetupThenCleanup | js/run_batch_confirm.js:7-31 | setup followed by cleanup leaves the original function in place and nothing saved |
| BatchConfirm.ReplayKeepsValid | js/run_batch_confirm.js:7-31 | switching the setting in any order keeps "while initialized the latest wrapper is installed over a saved host function" |
| BatchConfirm.ReplayKeepsDelegates | js/run_batch_confirm.js:7-31 | any switching, and any assignment of a new function by the host even while the wrapper is installed, keeps "while initialized a host function is saved, otherwise nothing is saved and a host function is installed" |
| BatchConfirm.CallsReachHost | js/run_batch_confirm.js:13-16 | from any such state, after any switches and host assignments, every call made through the installed function reaches a host function with the caller's arguments, never a wrapper |

## Left out

- DOM and CSS are reduced to records:
  - element creation and inline styles;
  - the injected style sheet's text;
  - `getBoundingClientRect` and tooltip coordinates;
  - console logging.
- MutationObserver delivery and the `setTimeout` settle delays (100 ms, 500 ms) are not modelled. Each callback is a transition invoked directly.
  - So a context-menu `cleanup` that runs inside the 500 ms setup delay, with hooks attached afterwards anyway, is not modelled.
- The polling loops `waitForRunButton` and `waitForQueuePrompt` are replaced by a ready input.
  - The run button is assumed to have appeared; the action bar's presence is a parameter of `RunTimer.Setup`. A setup that waits forever for a button that never appears, leaving the feature marked initialized, is not modelled.
  - Queue readiness is taken as given by `BatchConfirm.Setup`.
- The `isPatchedByLuciano` check in `waitForQueuePrompt` is not modelled as a guard. The flag sits on the unbound method, while the installed function is a bound copy without it.
- Async interleavings are not modelled, for example:
  - a second `setup` call while the first is still awaiting the host (timer or batch wrapper);
  - a `cleanup` that runs in the middle of a pending `setup`.
- `Date.now()` becomes an integer parameter.
- `toLocaleTimeString()` becomes an opaque `clock` string carried in each history entry.
- `URLSearchParams` is modelled as splitting on `&`, with the name running to the first `=` and the first match winning. Percent- and `+`-decoding are not modelled.
- Extension and setting registration (`registerExtension`, `addSetting`) are not modelled. For the path display only the `onChange` dispatch and the initial page-load decision are modelled; for the batch wrapper, `setup` and `cleanup` are modelled as the switches.
- BatchConfirm.BatchCount: numbers are integers only. Fractional counts such as `1.5` (which would ask about "1.5 images"), `NaN` and infinities are not modelled.
- Number formatting is modelled for integers only. JavaScript's exponent notation, which appears from 1e21 on, is not modelled.
- The run-timer DOM removals after an unmount are modelled only as "nothing changes" for events that reach stale wrappers. A stale wrapper calls a listener that no longer exists, and the error raised inside the host's event dispatch is not modelled.
- The context-menu `cleanup` keeps the remembered file name, and the `data-luciano-processed` markers on menus still in the document are not removed. The model keeps both as the code does.
- PathDisplay.Cleanup: composes the corrected cleanups of both features, while the controller's `cleanup` calls the ones as written; that is `PathDisplay.CleanupAsWritten`, which `PathDisplay.OnSettingChange` uses. The menus' `data-luciano-processed` markers stay under either.
- Menus and viewer masks are kept in one sequence each, taken to be in document order. A menu or mask the host reopens keeps its place in the sequence, whereas the host appends it at the end of the body. This only matters for which item the cleanup as written picks when two or more items in the document hold one.
- Menus and masks leaving the document are host events (`ContextMenuPath.MenuOpens`, `ContextMenuPath.MenuCloses`, `HostAttaches`, `HostDetaches`); what the host's DOM does to a detached element's children is not modelled beyond keeping them.

## Findings

| source | as written | input that shows it | evidently intended | confidence | as-written member | corrected member |
|---|---|---|---|---|---|---|
| js/image_viewer_path.js:30-31 | `document.querySelector('#luciano-viewer-path')` removes only the first overlay in the document | two viewer masks in the document at once, each given an overlay; after cleanup one overlay remains | every overlay the feature added is removed when it is switched off | low (two masks at once is rare); not executed | ViewerPath.CleanupAsWritten | ViewerPath.Cleanup |
| js/image_viewer_path.js:193-194 | `document.querySelector('#luciano-show-path-item')` removes only the first "Show Path" entry | two context menus open at once, both given the entry; after cleanup one entry remains | every entry the feature added is removed when it is switched off | low (menus usually close, taking their entry with them); not executed | ContextMenuPath.CleanupAsWritten | ContextMenuPath.Cleanup |
| js/run_timer.js:29-35 | `cleanup` removes the listeners but never calls `clearInterval` on the interval held in their closure | start a run, switch the feature off and on again: every second the old interval writes `⏱` and the time since the old start into the new display, over its idle or final label | switching the timer off stops its interval | medium (needs the setting switched during a run); not executed | RunTimer.CleanupAsWritten | RunTimer.Cleanup |

`ViewerPath.CleanupLeavesOverlay`, `ContextMenuPath.CleanupLeavesEntry` and `RunTimer.LeakedIntervalOverwrites` prove the counterexamples. `PathDisplay.OnSettingChange` uses the cleanups as written. `RunTimer.Setup` uses the corrected cleanup; on a valid, uninitialized timer nothing is mounted, so the two coincide there (`RunTimer.CleanupsAgreeWhenIdle`).
