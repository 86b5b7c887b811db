# KHJ Transcriptions page script, modelled in Dafny

`assets/js/main.js` is the interaction script of a marketing site. Once the
DOM is loaded it wires up:

- a navbar whose shadow follows the scroll offset;
- smooth scrolling for same-page `#` anchors;
- reveal-on-scroll for `.reveal` elements;
- lazy `loaded` marking for background panels;
- an `active` class on the menu link of the current page;
- click ripples on `.btn` buttons;
- a guard that stops a form from being submitted while a required field is blank.

This project takes the decisions and the bookkeeping under that DOM plumbing
and proves what they guarantee. The DOM becomes plain data: sequences of
links, fields, entries and child nodes, integers for offsets, and a real
number for the scroll offset. Browser events, observer callbacks and timer
firings become method calls whose arguments (is intersecting, offsetTop,
target exists) are inputs.

One module per component, one file each:

| file | module | component |
|---|---|---|
| wrappers.dfy | Wrappers | `Option`, for queries that may find nothing |
| jstext.dfy | JsText | `String.prototype.trim` over the full ECMAScript white-space set |
| observer.dfy | Observer | intersection entries shared by the two observers |
| navbar.dfy | Navbar | scroll feedback (class `ScrollFeedback`) |
| anchors.dfy | Anchors | anchor interception and scroll target (pure) |
| reveal.dfy | Reveal | reveal latch (class `RevealObserver`) |
| lazyload.dfy | LazyLoad | lazy-background latch (class `LazyBackgrounds`) |
| menu.dfy | ActiveMenu | current page and active-menu marking (functions plus class `Menu`) |
| ripple.dfy | Ripple | ripple bookkeeping per button (class `Button`) |
| formguard.dfy | FormGuard | submit validation, border marks and toasts (class `Page`) |

## Behaviour of the code worth noting

- The reveal observer never calls `unobserve`. An element stays observed and
  is shown again on every intersecting entry. The latch comes only from the
  non-intersecting branch doing nothing; that is what `Reveal.Revealed` states.
- Toasts are not deduplicated. Every blocked submit appends one more toast,
  and `FormGuard.TwoBlockedSubmits` shows two of them side by side.
- A page without `.navbar` is not tolerated. Every scroll event then throws a
  TypeError at `navbar.style`, before `lastScroll` is written. That is the
  `threw` result of `Navbar.ScrollFeedback.OnScroll`.
- An anchor click calls `preventDefault` only when the target element exists,
  not before it looks the target up.

## Model

| member | source | states |
|---|---|---|
| `JsText.TrimStart` | assets/js/main.js:174 | the result is a suffix of the input that does not start with white space, and everything dropped is white space |
| `JsText.TrimEnd` | assets/js/main.js:174 | the result is a prefix of the input that does not end with white space, and everything dropped is white space |
| `JsText.Trim` | assets/js/main.js:174 | the trimmed value is no longer than the input and neither starts nor ends with white space |
| `JsText.TrimEmptyIffBlank` | assets/js/main.js:174 | `value.trim()` is empty exactly when every character of the value is ECMAScript white space |
| `JsText.TrimIsInfix` | assets/js/main.js:174 | trim keeps one contiguous infix of the value and drops only white space on either side of it |
| `Observer.IntersectingTargets` | assets/js/main.js:153-158 | an element is named by a batch exactly when some entry of the batch targets it with isIntersecting set |
| `Navbar.ShadowFor` | assets/js/main.js:16-20 | the `currentScroll > 50` test: the raised shadow exactly above 50 px, the resting shadow at or below it |
| `Navbar.ShadowThreshold` | assets/js/main.js:16-20 | at 50 px the resting shadow is used; at 50.5 and 51 px the raised one; the two differ; raising is monotone in the offset |
| `Navbar.ScrollFeedback.constructor` | assets/js/main.js:9-10 | the navbar keeps its markup shadow and lastScroll starts at 0 |
| `Navbar.ScrollFeedback.OnScroll` | assets/js/main.js:12-23 | with a navbar, the shadow is a function of the current offset alone and lastScroll records it; without one the handler throws and changes nothing |
| `Anchors.FindById` | assets/js/main.js:34 | the query gives the first element in document order with that id, and nothing exactly when no element has it |
| `Anchors.AnchorClick` | assets/js/main.js:28-44 | a click is intercepted iff the href is longer than "#" and an element carries the fragment as id; the scroll top is then that first element's offsetTop minus 80; otherwise nothing happens, not even preventDefault |
| `Anchors.BareHashIsIgnored` | assets/js/main.js:33-38 | "#" alone is never intercepted; "#section-2" with that section at 640 px scrolls to 560 |
| `Reveal.Revealed` | assets/js/main.js:54-60 | after a batch, an element is shown iff some intersecting entry targeted it, and otherwise keeps its look |
| `Reveal.RevealedIsLatch` | assets/js/main.js:55-59 | a shown element stays shown through any batch, and a batch with no intersecting entry changes nothing |
| `Reveal.RevealObserver.constructor` | assets/js/main.js:52-64 | the observer starts with the group's markup looks and observes nothing |
| `Reveal.RevealObserver.Setup` | assets/js/main.js:66-71 | every .reveal element is hidden (opacity 0, shifted 30 px) and observed before any callback |
| `Reveal.RevealObserver.OnEntries` | assets/js/main.js:54-60 | a callback applies `Revealed` to the looks and leaves the observed set unchanged |
| `LazyLoad.LazyBackgrounds.constructor` | assets/js/main.js:150-159 | loaded is what the markup gives and nothing is observed yet |
| `LazyLoad.LazyBackgrounds.Setup` | assets/js/main.js:161 | every element of the group becomes observed and loaded is unchanged |
| `LazyLoad.LazyBackgrounds.OnEntries` | assets/js/main.js:152-158 | loaded grows by exactly the intersecting targets and the observed set loses exactly them |
| `ActiveMenu.LastSegment` | assets/js/main.js:102 | `split('/').pop()` is the suffix of the path after its last '/', or the whole path when there is none |
| `ActiveMenu.CurrentPage` | assets/js/main.js:102 | the page is never empty and holds no '/'; a path ending in '/' (or empty) gives "index.html", any other gives its last segment |
| `ActiveMenu.DefaultPageIsAFileName` | assets/js/main.js:102 | "index.html" is non-empty and holds no '/' |
| `ActiveMenu.PageAfterLastSlash` | assets/js/main.js:102 | for every directory and file name, the page of dir + "/" + name is name, or "index.html" when name is empty |
| `ActiveMenu.MatchesPage` | assets/js/main.js:108-109 | the per-link test as written: the href equals the current page, or the page is empty and the href is "index.html" |
| `ActiveMenu.MatchesOnlyByHref` | assets/js/main.js:108-109 | with the derived page, the `currentPage === ''` disjunct is dead: a link matches iff its href equals the page |
| `ActiveMenu.Mark` | assets/js/main.js:106-113 | after marking, the link has "active" iff it matches; its href and every other class are untouched |
| `ActiveMenu.MarkForgetsPriorState` | assets/js/main.js:108-113 | the marked link does not depend on whether it had "active" before, so no stale "active" survives; marking twice is marking once |
| `ActiveMenu.MarkByHref` | assets/js/main.js:102-113 | for the page of a path, a marked link is active iff its href is that page, with href and other classes untouched |
| `ActiveMenu.MarkedLinks` | assets/js/main.js:105-114 | a menu where each link is marked has each link active iff its href is the current page, and nothing else changed |
| `ActiveMenu.Menu.constructor` | assets/js/main.js:103 | the menu holds the `.menu a` links as the markup gives them |
| `ActiveMenu.Menu.MarkLinks` | assets/js/main.js:105-114 | the loop marks every link for the given page, in place |
| `ActiveMenu.Menu.MarkActive` | assets/js/main.js:102-114 | afterwards every link is active iff its href is the page of the path, and keeps its href and other classes |
| `Ripple.RippleCount` | assets/js/main.js:133-141 | the number of children carrying the class "ripple", at most the number of children |
| `Ripple.Others` | assets/js/main.js:136-141 | the children that are not ripples, in order; with the ripples they make up all the children |
| `Ripple.RemoveFirstRipple` | assets/js/main.js:136-139 | with no ripple the children are unchanged; otherwise exactly one ripple goes; the non-ripple children stay, in order |
| `Ripple.RemoveFirstRippleAt` | assets/js/main.js:136-139 | the ripple removed is the first one in document order, and what precedes and follows it is kept |
| `Ripple.CountsOfAppend` | assets/js/main.js:141 | appending a child adds its share to the ripple count and to the other children |
| `Ripple.RemoveNode` | assets/js/main.js:143 | removal drops exactly that node and is a no-op when the node is no longer a child |
| `Ripple.RemoveNodeAt` | assets/js/main.js:143 | on a button whose children are distinct nodes, removing a child takes out exactly that one and keeps the others in order |
| `Ripple.RemoveRippleNode` | assets/js/main.js:143 | removing a ripple that is a child removes one ripple and keeps every other child |
| `Ripple.Button.constructor` | assets/js/main.js:119-121 | a .btn starts with its markup children, distinct nodes below the next identity |
| `Ripple.Button.Click` | assets/js/main.js:122-143 | the first ripple goes and one fresh ripple is appended; a button with at most one ripple has exactly one afterwards; other children unchanged |
| `Ripple.Button.Expire` | assets/js/main.js:143 | the timer removes exactly its own ripple and keeps the other children in order; if a later click already evicted it, nothing changes |
| `Ripple.RapidDoubleClick` | assets/js/main.js:136-143 | two quick clicks leave one ripple; the first timer is then a no-op and the second leaves none |
| `FormGuard.Checked` | assets/js/main.js:170 | the selector `input[required], textarea[required]`: a required input or textarea |
| `FormGuard.Fails` | assets/js/main.js:173-174 | a checked field whose value is nothing but white space |
| `FormGuard.Blocks` | assets/js/main.js:171-184 | the loop ends with isValid false: some checked field fails |
| `FormGuard.MarkOne` | assets/js/main.js:173-176 | one field after the loop: only its border colour may change, to `#dc2626`, exactly when it fails |
| `FormGuard.Marked` | assets/js/main.js:173-182 | after validation, each field is itself with the error border when it fails, and untouched otherwise |
| `FormGuard.UnblockedLeavesFieldsAlone` | assets/js/main.js:173-184 | when no checked field fails, validation marks nothing |
| `FormGuard.FailsIsTrimTest` | assets/js/main.js:170-174 | a field fails iff it is a required input or textarea whose trimmed value is empty, the handler's `!input.value.trim()`; a required select never fails |
| `FormGuard.Validate` | assets/js/main.js:170-182 | the loop's isValid is true iff no checked field fails, and the fields come out as `Marked` |
| `FormGuard.Page.constructor` | assets/js/main.js:166 | the page holds its forms as the markup gives them and no toast |
| `FormGuard.Page.Submit` | assets/js/main.js:169-209 | blocked iff some checked field fails; exactly the failing fields turn red; a blocked submit appends exactly one toast; an unblocked one changes nothing |
| `FormGuard.Page.ShowToast` | assets/js/main.js:188-202 | one new toast with the message is appended after the existing ones |
| `FormGuard.Page.ClearMark` | assets/js/main.js:178-180 | the 2000 ms timer clears that field's inline border colour and nothing else, toasts staying distinct nodes |
| `FormGuard.WithFaded` | assets/js/main.js:204-206 | only the toast with that identity starts fading; the others are unchanged |
| `FormGuard.Page.FadeToast` | assets/js/main.js:204-206 | the 3000 ms timer sets that toast fading, as `WithFaded` says |
| `FormGuard.WithoutToast` | assets/js/main.js:207 | exactly the toast with that identity leaves the body; nothing changes if it is already gone |
| `FormGuard.WithoutToastAt` | assets/js/main.js:207 | among distinct toasts, removing one on the page takes out exactly that one and keeps the others in order |
| `FormGuard.DistinctAfterWithout` | assets/js/main.js:207 | removing a toast keeps the remaining toasts distinct nodes |
| `FormGuard.Page.RemoveToast` | assets/js/main.js:207 | the 300 ms timer removes that toast, as `WithoutToast` says, the others staying in order and distinct |
| `FormGuard.TwoBlockedSubmits` | assets/js/main.js:184-202 | two blocked submits of one form leave two toasts: there is no deduplication |

## Left out

- Event registration, `DOMContentLoaded` and the browser's dispatch order. Each handler is a method, and the caller chooses the order of events.
- IntersectionObserver geometry (threshold 0.1, the root margin) and when callbacks are delivered. A batch of entries with an isIntersecting flag is an input.
- The smooth-scroll animation of `window.scrollTo`, and the browser's default jump when a click is not intercepted. The model gives only the target top or "default".
- CSS selector parsing in `document.querySelector(href)`. The fragment is looked up as a plain id. A fragment that is not a valid selector would make the source throw a SyntaxError; that is not modelled.
- `this.querySelector('.ripple')` searches every descendant of the button. The model searches only the button's direct children.
- Ripple size and position (lines 123-132). These are floating-point geometry from `getBoundingClientRect`.
- Timer durations and their ordering (600, 2000, 3000 and 300 ms). A timer firing is an explicit method call with no clock.
- Inline style text other than the box-shadow strings and the error border colour: transitions, the toast's `cssText`, the ripple's width/height/left/top.
- The card hover transition (lines 76-82), the email-link press effect (lines 87-97), the console branding (lines 216-217) and the global ripple stylesheet (lines 224-251). These are presentation only.
- The native form submission that follows an unblocked submit, and anything that receives its data.
- The white space that trim removes: the Unicode "Zs" separators are a fixed list taken from current Unicode. A later Unicode version that adds separators is not followed.
