# DNSRedoWiki page script, modelled in Dafny

This project models the behaviour of the documentation site's page script, `script.js`. It covers:

- **Section navigation.** Clicking a sidebar nav item activates that item and the content section its `data-section` names. At load, a URL fragment such as `#faq` does the same for the nav item that targets it.
- **The debounce helper.** Search runs only once typing in the search box has paused for 200 ms.
- **The emoji sanitizer.** At load it removes pictographic characters from icon elements and from every text node outside `script`/`style`.
- **The in-page search.** It normalises the query, highlights the nav items of every section whose text contains it, and activates the first match.

The page is a `Navigation.Page` value holding four things:

- the content sections (`id`, text);
- the nav items (`data-section`);
- three flag sequences: section `active`, nav `active`, and nav search highlight.

A nav item is known by its position, which stands for the element identity the script compares with `===`.

Every operation is a pure function on such values. The DOM, the timer and the URL are inputs:

- the emoji class is a parameter `isPict: char -> bool`;
- the URL fragment is a string;
- the clock is a sequence of timestamped calls.

Modules:

- `Wrappers`: `Option`.
- `Text`: the ECMAScript `trim`, `toLowerCase` and `includes` the script relies on.
- `Sanitizer`: `removeEmojisFromDOM`.
- `Navigation`: `activateSection`, the click handler and the fragment bootstrap of `initNavigation`.
- `Search`: `clearHighlights` and `doSearch`.
- `Debounce`: `debounce` as a timer state machine, with a reference "one run per burst" definition it is proved equal to.
- `Site`: the loaded page as a sequence of events (clicks, searches fired by the debounced input handler, the clear after blur). It proves the activation invariant across a whole session.
- `SanitizerExamples`, `NavigationExamples`, `SearchExamples`: the behaviour on concrete pages and strings.

Activating an id that no section has is meant to do nothing. The code (script.js:46-47) still marks the nav item active and leaves every section inactive. The model follows the code, and `Navigation.ActivateUnknownId` states exactly that.

## Model

| member | source | states |
|---|---|---|
| Text.Trim | script.js:125 | The result is the infix of the input that remains after removing ECMAScript whitespace at both ends: everything cut off is whitespace, and the result neither starts nor ends with whitespace |
| Text.TrimIdempotent | script.js:125 | Trimming an already trimmed string changes nothing |
| Text.ToLower | script.js:125 | Lower-casing keeps the length and maps each character on its own (ASCII letters only, see Left out) |
| Text.Includes | script.js:131 | `includes` is true exactly when some window of the text equals the term |
| Search.Term | script.js:125 | The search term is never longer than the query, and it is empty (so the search stops at line 127) exactly when the query is all whitespace |
| Text.TrimEmptyIff | script.js:125-127 | Trimming leaves nothing exactly when the string is all whitespace |
| Search.SectionMatches | script.js:131 | No contract; defined as `Includes(ToLower(text), term)`, the section's lower-cased text containing the term |
| Search.TermFixed | script.js:125 | A query without surrounding whitespace or upper-case letters is its own search term |
| Sanitizer.Strip | script.js:107 | Removing emoji leaves no pictographic character and never makes the text longer |
| Sanitizer.StripCounts | script.js:107 | Every non-pictographic character keeps its number of occurrences and every pictographic one is gone, so the removal is exactly the filtering of emoji |
| Sanitizer.StripConcat | script.js:107 | Emoji removal works character by character and keeps order: it distributes over concatenation |
| Sanitizer.StripUnchangedIff | script.js:107-108 | The replacement changes a string if and only if the string holds a pictographic character |
| Sanitizer.StripIdempotent | script.js:107 | Removing emoji a second time changes nothing |
| Sanitizer.IconText | script.js:94 | An icon's new text holds no emoji, has no surrounding whitespace, and is the emoji-free text with only whitespace cut from its ends |
| Sanitizer.IconTextIdempotent | script.js:94 | Cleaning an icon's text twice is cleaning it once |
| Sanitizer.CleanSelected | script.js:92-95 | No contract; defined as one selector round: every element the selector matches gets `IconText` of its text, every other element is kept |
| Sanitizer.IconPass | script.js:89-96 | After the four selector rounds, an element matched by any of `#themeIcon`, `.search-icon`, `.icon`, `.badge` holds its cleaned text (once, even when several selectors match it); every other element is unchanged; ids and classes never change |
| Sanitizer.Exempt | script.js:104-106 | No contract; defined as: the node has no parent, or its parent is an element whose lower-cased tag name is `script` or `style` (a non-element parent has no tag name and is not exempt) |
| Sanitizer.VisitNode | script.js:102-108 | Nodes that are detached or sit under `script`/`style` (tag compared lower-cased) are skipped. Any other node gets its emoji removed. `nodeValue` is written exactly when the node held an emoji, which is exactly when the value changes |
| Sanitizer.TextPass | script.js:99-109 | The text pass visits the collected nodes in order and treats each one independently |
| Sanitizer.TextPassIdempotent | script.js:102-109 | Running the text pass on its own output writes no node and changes nothing |
| SanitizerExamples.HelloWorld | script.js:107 | "Hello 🎉 World" becomes "Hello  World", keeping both spaces |
| Navigation.FindNav | script.js:64 | The lookup returns the first nav item, in document order, whose `data-section` equals the id, and none exactly when no item has it |
| Navigation.FindNavIff | script.js:64 | The lookup picks item `k` if and only if `k` carries the id and no earlier item does |
| Navigation.Activate | script.js:45-50 | Afterwards exactly the given nav item is active and exactly the sections whose id equals the given id are active; the lists and highlights are untouched |
| Navigation.ActivateForgetsHistory | script.js:46-47 | The outcome of `activateSection` depends only on its arguments, never on which flags were set before |
| Navigation.ActivateIdempotent | script.js:45-50 | Activating the same section twice is activating it once |
| Navigation.ActivateUnknownId | script.js:46-47 | With an id no section has, the nav item is still marked active and every section becomes inactive |
| Navigation.ActivateConsistent | script.js:45-47 | With unique section ids, activating a nav item's own section leaves at most one active section and one active nav item, and they name the same section |
| Navigation.Click | script.js:52-59 | A click on an item with an empty `data-section`, or on a page without sections, changes nothing. Otherwise exactly the clicked item and the sections with its target id become active |
| Navigation.ClickConsistent | script.js:52-59 | With unique section ids, a click keeps the activation state consistent |
| Navigation.RemoveFirst | script.js:63 | `replace('#', '')` removes the first `#` wherever it is, and leaves a string without `#` unchanged |
| Navigation.RemoveFirstLeading | script.js:63 | For a fragment that starts with `#`, the leading `#` is the one removed |
| Navigation.HashTarget | script.js:63 | The id named by a fragment that starts with `#` is the rest of the fragment; a fragment without `#` is its own id |
| Navigation.Bootstrap | script.js:62-66 | With an empty fragment, no nav items, no sections, or no nav item targeting the fragment's id, nothing changes. Otherwise the sections with that id and the first nav item targeting it become active |
| Navigation.BootstrapFragment | script.js:62-66 | Loading with `#x` activates section `x` exactly when some nav item targets `x`, and changes nothing otherwise |
| Navigation.BootstrapConsistent | script.js:62-66 | With unique section ids, the fragment bootstrap keeps the activation state consistent |
| NavigationExamples.FaqFragment | script.js:62-66 | On a three-section page, loading with `#faq` activates the second section and the second nav item only |
| NavigationExamples.FragmentFirstNav | script.js:62-66 | Loading with `#x` activates the sections with id `x` and, among the nav items, exactly the first one that targets `x` |
| NavigationExamples.MissingFragment | script.js:62-66 | Loading with a fragment no nav item targets leaves the page as it was |
| Debounce.Schedule | script.js:73-74 | A call drops whatever was pending and leaves exactly one job, due `wait` later, carrying the call's arguments |
| Debounce.Advance | script.js:74 | When the clock reaches a pending job's deadline the job runs with its stored arguments and the timer becomes idle; before that nothing runs |
| Debounce.CallCancelsPending | script.js:73-74 | After a call nothing runs before its deadline, and at the deadline the call's own arguments run |
| Debounce.Simulate | script.js:72-75 | The debounced closure driven by a sequence of calls, with the clock reaching each call's time before it, then running on. `fn` runs at most once per call, plus once for a job already pending at the start; the exact runs are stated by `Debounce.DebounceMatchesReference` |
| Debounce.SimulateFromPending | script.js:72-75 | From the job of call `i`, the timer produces exactly the reference runs: one per call that ends a burst |
| Debounce.DebounceMatchesReference | script.js:70-76 | Started idle, `fn` runs exactly once for each call that no later call follows within `wait`. Each run comes `wait` after that call, with that call's arguments, in order |
| Debounce.BurstRunsOnce | script.js:70-76 | A burst of calls whose gaps are all shorter than `wait` runs `fn` once, `wait` after the last call, with the last call's arguments |
| Debounce.LastCallRuns | script.js:72-75 | In the one-run-per-burst reference, from any call on, the last run is the last call's, `wait` after it |
| Debounce.TimerLastCallRuns | script.js:70-76 | Whatever came before, the timer's last run of `fn` is the last call's, `wait` after it, with its arguments |
| Search.Matches | script.js:129-137 | The matches are exactly the sections whose lower-cased text contains the term, in document order, without repetition |
| Search.FirstMatch | script.js:140-141 | The first match is the earliest matching section, and there is none exactly when no section matches |
| Search.MatchesHead | script.js:140-141 | The match list is non-empty exactly when there is a first match, and its head is that first match |
| Search.MarkMatches | script.js:130-135 | The highlight loop lights, on top of the starting flags, exactly the nav items the lookup returns for the listed matches |
| Search.ClearHighlights | script.js:118-122 | `clearHighlights` removes every nav item's highlight and changes nothing else |
| Search.Highlights | script.js:129-137 | After the highlight loop, nav item `k` is highlighted exactly when it already was or the lookup returns `k` for some matching section |
| Search.ActivateMatch | script.js:143-146 | The inline activation leaves exactly the first match's section active, by position, and exactly the nav item found for its id (none if there is none) |
| Search.SearchFor | script.js:129-149 | Matching nav items are highlighted, on top of any highlight already present. With no match the active flags stay as they were. With a first match that has an id, only that section and the nav item for its id are active. A first match without an id leaves the active flags alone |
| Search.DoSearch | script.js:124-150 | The highlights are always cleared first. An empty or all-whitespace query stops there and leaves the active flags alone. Any other query highlights and activates as stated for `SearchFor`, with the trimmed, lower-cased term |
| Search.HighlightedIff | script.js:131-134 | After a non-empty search, nav item `k` is highlighted exactly when it is the first item carrying its `data-section` and some matching section has that id |
| Search.ActivateMatchConsistent | script.js:143-146 | The inline activation of a match always leaves a consistent state: one active section, and at most the nav item that targets its id |
| Search.SearchConsistent | script.js:140-148 | A search keeps the activation state consistent, with no assumption about section ids |
| Search.SearchIdempotent | script.js:124-150 | Running the same search twice leaves the page as running it once |
| SearchExamples.SearchFirstAndLast | script.js:129-146 | On a page whose first and last sections match but whose middle one does not, the first and last nav items are highlighted and only the first section and nav item are active |
| SearchExamples.ZigSearch | script.js:124-150 | Searching "zig" on the three-section documentation page highlights `intro` and `about` and activates `intro` |
| Site.Step | script.js:116 | One event: a nav click (script.js:52-59), a debounced search (script.js:124-150) or the clear after blur (script.js:153). Without sections the search box handlers are not wired, so searches and the blur clear change nothing. A click changes no highlight. The blur clear removes every highlight and touches no active flag |
| Site.Replay | script.js:52-153 | The page driven by a sequence of events, applied in order; no event changes the list of sections or nav items |
| Site.ReplayConsistent | script.js:124-153 | With unique section ids, a consistent page stays consistent through any sequence of clicks, searches and blur clears |
| Site.SessionConsistent | script.js:39-66 | With unique section ids, a consistent page stays consistent when it is bootstrapped from any fragment and then driven by any events |
| Site.Typing | script.js:152 | The page after a sequence of input events, each calling `debounce(doSearch, 200)`, with every search the timer fires applied in order. Typing nothing changes nothing, and the section and nav lists never change |
| Site.BurstFiresOneSearch | script.js:152 | A burst of input events less than 200 ms apart fires exactly one search, for the last value, 200 ms after the last keystroke |
| Site.TypingBurstSearchesOnce | script.js:152 | Typing such a burst leaves the page exactly as one search for the final input value would |
| Site.TypingExample | script.js:152 | Typing "a", "ab", "abc" 50 ms apart runs one search, for "abc", at 300 ms |

## Left out

- Text.ToLower: folds ASCII letters only. `toLowerCase` applies full Unicode case mapping, including mappings that change length. Every example here is ASCII.
- Sanitizer.Strip: the Extended_Pictographic property is the parameter `isPict`, not a table. The model works on code points. JavaScript strings are UTF-16, and a lone surrogate is not a Dafny `char`.
- Sanitizer.IconPass: assumes that no matched icon element contains another, and that the pass leaves the rest of the document's elements alone. Assigning `textContent` (script.js:94) replaces all of an element's children. So when one matched element sits inside another, the source behaves differently: the inner one is cleaned first and the outer one is then cleaned from the changed text, which can differ in whitespace (`<span class="badge"> <span class="icon">x 🎉</span> y</span>` gives "x y", where the model gives "x  y"). An inner element cleaned by an outer round leaves the document, and an unmatched ancestor's text changes. The model keeps elements as a flat list of records because icon spans hold text only.
- The two passes of `removeEmojisFromDOM` (script.js:89-109) are modelled separately, on elements and on text nodes, and are not composed into one function. So the order "icons first, then text nodes" is not stated. The passes meet only where an icon's new text node is visited again by the text pass. That node's text is already emoji-free, and by `Sanitizer.StripUnchangedIff` the text pass then writes nothing.
- The fallback regular expression (script.js:84-87) is not modelled. A regular expression literal with an unsupported `\p{...}` escape is an early syntax error that stops the whole script from parsing, so the `catch` branch never runs.
- The `try`/`catch` around the sanitizer at load (script.js:203-209) is not modelled. Under the parameterised emoji class nothing in the model throws.
- `scrollIntoView` (script.js:48-49, 147) is not modelled: scrolling affects only the viewport, not the page state.
- `preventDefault` (script.js:54) is not modelled, and neither is the initial active state the HTML ships with. The invariant lemmas take any consistent starting page.
- CSS selector escaping (script.js:64, 133) is not modelled. The id is spliced into a selector string. An id holding `"` or `\` makes `querySelector` throw or match something else. The model assumes the lookup compares `data-section` with the id exactly.
- Percent-encoding of the fragment is taken as given. The script compares the raw `location.hash` text, and so does the model.
- The sections and nav items are fixed while the page runs: no modelled handler adds or removes them, and their ids, classes and `data-section` values never change. The icon pass is the exception, covered by the `Sanitizer.IconPass` line above.
- The search input: a run of `doSearch` reads `input.value` when it fires. The model passes it the value of the input event that scheduled it. The two agree because every edit of the box raises an input event, so no later edit happens before a pending run fires.
- The clock is an integer timeline in which a timeout runs exactly at its deadline. When a new call arrives at the very instant a pending job is due, the job runs first. Real timers may fire later, and under load they may run in a different order.
- The 100 ms delay of the blur clear (script.js:153) is not modelled. The clear is a page event of its own.
- The debounced function's `this` and extra arguments (script.js:72-74) are not modelled: `doSearch` uses neither.
- The theme toggle and saved theme (script.js:8-36), the sidebar and mobile menu toggles and buttons (script.js:157-197), and the `DOMContentLoaded` wiring (script.js:200-225) are outside this model. They touch `localStorage`, CSS classes of the body and created buttons, none of which the modelled features read.
