# 317 Squadron newsletter: booklet viewer and issue registry

This project models the two parts of the newsletter site that hold logic.

- **Issue registry** (`lib/newsletters.ts`). This is a newest-first list of issue records. It has three lookups: the current issue (the head), the archive (everything after the head) and an issue by id (the first record with that id).
- **Booklet viewer** (`components/PdfBooklet.tsx`). This is the page-flip PDF viewer. Its pagination is pure arithmetic. Spread 0 is the cover, showing page 1 alone. Spread n >= 1 shows pages 2n and 2n+1 when the document has them. The label under the spread reads "Cover", "Pages l – r" or "Page l". Around this sits a state machine, modelled as the class `BookletViewer`. It loads one PDF at a time, with a generation number standing in for the effect's `cancelled` flag. It turns one spread at a time through a single flip animation, and it tracks a fullscreen flag driven by keys, a button and the browser.

Files:
- `optional.dfy` holds `Option`.
- `newsletters.dfy` is the registry, written as pure functions over any list. `Issues` is the list the site ships.
- `pagination.dfy` holds the spread count, spread contents, coverage, numerals and labels.
- `booklet.dfy` holds the viewer class and the navigation guards.

The viewer has two invariants:
- `Valid()` is structural. It ties loading, error and document together, and ties `flipping` to `flipProgress`. Every event keeps it.
- `Navigable()` is the range and single-flight invariant. The spread lies in [0, max(0, totalSpreads − 1)], and a running flip has a spread to land on. Every event other than the as-written load keeps it (`ensures old(Navigable()) ==> Navigable()`), and the mount and the corrected load establish it.

## Model

| member | source | states |
|---|---|---|
| `Pagination.CeilHalf` | 317_newsletter/components/PdfBooklet.tsx:24 | `Math.ceil(n / 2)` on integers: the least q with 2q >= n |
| `Pagination.TotalSpreads` | 317_newsletter/components/PdfBooklet.tsx:24 | there are no spreads exactly when there are no pages; otherwise the count r is the one whose last spread (index r−1, pages 2r−2 and 2r−1) holds the last page |
| `Pagination.SpreadPages` | 317_newsletter/components/PdfBooklet.tsx:26-36 | spread 0 is (none, 1) whatever the page count; spread n ≠ 0 has left page 2n exactly when 2n <= totalPages and right page 2n+1 exactly when 2n+1 <= totalPages |
| `Pagination.PagesUpToExact` | 317_newsletter/components/PdfBooklet.tsx:24-36 | spreads 0..n−1 of a non-empty document show exactly the pages 1..min(2n−1, totalPages) |
| `Pagination.AllPagesShown` | 317_newsletter/components/PdfBooklet.tsx:24-36 | coverage: together, the spreads 0..totalSpreads−1 show every page 1..totalPages and no other number |
| `Pagination.SpreadPagesInRange` | 317_newsletter/components/PdfBooklet.tsx:26-33 | no spread of a non-empty document shows a page below 1 or above totalPages |
| `Pagination.PageOnExactlyOneSpread` | 317_newsletter/components/PdfBooklet.tsx:24-33 | each page p lies on spread p/2, which is one of the document's spreads, and on no other spread |
| `Pagination.FirstPages` | 317_newsletter/components/PdfBooklet.tsx:24-36 | a helper, not code at these lines: the set of pages 1..k, characterised by membership, that the coverage lemmas for these lines range over |
| `Pagination.NatToString` | 317_newsletter/components/PdfBooklet.tsx:189-191 | the numeral a template literal writes for a page number: non-empty, all decimal digits, no leading zero |
| `Pagination.NatToStringRoundTrip` | 317_newsletter/components/PdfBooklet.tsx:189-191 | reading the numeral back as decimal gives the number |
| `Pagination.NatToStringInjective` | 317_newsletter/components/PdfBooklet.tsx:189-191 | distinct page numbers have distinct numerals |
| `Pagination.IntToStringInjective` | 317_newsletter/components/PdfBooklet.tsx:189-191 | the numeral a template literal writes for any page number, sign included, determines the number: distinct integers get distinct text |
| `Pagination.PageLabel` | 317_newsletter/components/PdfBooklet.tsx:185-193 | the label is "Cover" exactly at spread 0, and it is empty exactly when the spread shows no page |
| `Pagination.LabelOfListedSpread` | 317_newsletter/components/PdfBooklet.tsx:185-193 | on a non-cover spread of the document the label is "Pages 2n – 2n+1", or "Page 2n" on a final half-empty spread; the right-page-only form and "" never show |
| `Pagination.LabelsDistinguishSpreads` | 317_newsletter/components/PdfBooklet.tsx:185-193 | two different spreads of the same document never carry the same label |
| `Pagination.LabelFormMarker` | 317_newsletter/components/PdfBooklet.tsx:189-191 | character 4 of a non-cover label is 's' for the two-page form and ' ' for the one-page form |
| `Pagination.SpreadCountExamples` | 317_newsletter/components/PdfBooklet.tsx:24 | 5 pages and 4 pages both give 3 spreads; 1 page gives 1 and 0 pages give 0 |
| `Pagination.SpreadContentExamples` | 317_newsletter/components/PdfBooklet.tsx:26-36 | a 5-page document's spreads are (−, 1), (2, 3), (4, 5); a 4-page one ends on (4, −) |
| `Newsletters.ArchiveNewsletters` | 317_newsletter/lib/newsletters.ts:36-39 | the archive has max(0, n−1) entries, and entry i is registry entry i+1 (order kept, the head dropped, empty for an empty list) |
| `Newsletters.CurrentNewsletter` | 317_newsletter/lib/newsletters.ts:32-34 | the head of a non-empty registry: the current issue followed by the archive is the whole registry, in order |
| `Newsletters.NewsletterById` | 317_newsletter/lib/newsletters.ts:41-44 | the result is none exactly when no entry has the id; otherwise it is an entry with that id, and no earlier entry has it (the first match) |
| `Newsletters.LookupListed` | 317_newsletter/lib/newsletters.ts:42-44 | with unique ids (they are the archive grid's list keys), looking up any listed issue's id returns that issue |
| `Newsletters.ShippedRegistry` | 317_newsletter/lib/newsletters.ts:18-29 | the shipped list is non-empty with unique ids; its current issue is "issue-1" and its archive is empty |
| `Booklet.PrevButtonMatchesGuard` | 317_newsletter/components/PdfBooklet.tsx:466 | for every spread >= 0, the Previous button's `=== 0` disabled test agrees with `goPrev`'s `<= 0` guard (the Next button at line 472 repeats `goNext`'s guard) |
| `Booklet.LoadErrorMessage` | 317_newsletter/components/PdfBooklet.tsx:64 | the shown error is "Failed to load PDF: " followed by the message, or by "unknown error" when there is none |
| `Booklet.BookletViewer.constructor` | 317_newsletter/components/PdfBooklet.tsx:13-20 | mounting starts at the cover with no pages, loading, no error, no flip, not fullscreen, with load generation 0 under way; both invariants hold |
| `Booklet.BookletViewer.StartLoad` | 317_newsletter/components/PdfBooklet.tsx:38-45 | a new load gets the next generation and resets loading = true, error = none, document = none, totalPages = 0, currentSpread = 0; it also drops a running flip (the correction below), so `Navigable()` holds afterwards |
| `Booklet.BookletViewer.StartLoadAsWritten` | 317_newsletter/components/PdfBooklet.tsx:38-45 | the same reset, leaving a running flip in place; `Navigable()` holds afterwards exactly when no flip was running |
| `Booklet.BookletViewer.LoadSucceeded` | 317_newsletter/components/PdfBooklet.tsx:57-60 | for the latest load of a mounted viewer: document held, totalPages = numPages, loading = false; a superseded or cancelled load changes nothing; each load settles once |
| `Booklet.BookletViewer.LoadFailed` | 317_newsletter/components/PdfBooklet.tsx:61-66 | for the latest load of a mounted viewer: the error message is set, loading = false and the document stays none; a superseded or cancelled load changes nothing |
| `Booklet.BookletViewer.Unmount` | 317_newsletter/components/PdfBooklet.tsx:70 | unmounting cancels the current load; afterwards no completion changes the state, and no key, frame or fullscreen event is delivered |
| `Booklet.BookletViewer.GoNext` | 317_newsletter/components/PdfBooklet.tsx:128-131 | a no-op at or past the last spread (including when there are no pages) or while a flip runs; otherwise it starts a flip to the right; nothing else changes |
| `Booklet.BookletViewer.GoPrev` | 317_newsletter/components/PdfBooklet.tsx:133-136 | a no-op at or before the cover or while a flip runs; otherwise it starts a flip to the left; nothing else changes |
| `Booklet.BookletViewer.FlipFrame` | 317_newsletter/components/PdfBooklet.tsx:109-115 | an intermediate frame changes only the flip's progress |
| `Booklet.BookletViewer.CompleteFlip` | 317_newsletter/components/PdfBooklet.tsx:116-120 | the last frame resets progress to 0, ends the flip, and moves the spread by exactly +1 for a right flip or −1 for a left one; the range invariant is kept |
| `Booklet.BookletViewer.ToggleFullscreen` | 317_newsletter/components/PdfBooklet.tsx:331 | the fullscreen button flips the flag and changes nothing else |
| `Booklet.BookletViewer.KeyDown` | 317_newsletter/components/PdfBooklet.tsx:139-144 | ArrowRight acts as `goNext` and ArrowLeft as `goPrev`; "f" toggles fullscreen; Escape leaves fullscreen; any other key changes nothing |
| `Booklet.BookletViewer.FullscreenChange` | 317_newsletter/components/PdfBooklet.tsx:161-163 | when the browser reports no fullscreen element the flag is cleared; otherwise it is kept; nothing else changes |
| `Booklet.BookletViewer.Label` | 317_newsletter/components/PdfBooklet.tsx:185-193 | the current spread's label reads "Cover" exactly on the cover |
| `Booklet.ReloadDuringBackwardFlip` | 317_newsletter/components/PdfBooklet.tsx:38-45 | as written: with 4 pages, go forward, start back, the PDF path changes, the flip completes, the new 4-page document loads: the viewer is on spread −1, its label reads "Pages -2 – -1", its Previous button is enabled and `goPrev` does nothing |
| `Booklet.ReloadDuringBackwardFlipCorrected` | 317_newsletter/components/PdfBooklet.tsx:38-45 | with the corrected load, the same events leave the viewer on the new document's cover with no flip running |

## Findings

| source | as written | input that shows it | evidently intended | confidence | as-written member | corrected member |
|---|---|---|---|---|---|---|
| 317_newsletter/components/PdfBooklet.tsx:38-45 | A change of PDF path restarts the load and resets `currentSpread` to 0 and `totalPages` to 0. It does not cancel a running flip animation. When that flip's last frame arrives (lines 116-120), its completion applies `s + 1` or `s - 1` (lines 130, 135) to the reset spread. | A 4-page document. Press ArrowRight and let the flip finish. Press ArrowLeft. Within the 500 ms flip, the `newsletter` prop changes without a remount, and the new document loads. `currentSpread` ends at −1, so the label reads "Pages -2 – -1" and the renderer asks for page −2. A forward flip instead ends on spread 1 of a document with no spreads. | A new document opens at its cover: the reset also drops the running flip, as unmounting does (line 169). | low: not executed; it needs the prop to change while the viewer stays mounted, mid-flip | `Booklet.BookletViewer.StartLoadAsWritten` (exhibited by `Booklet.ReloadDuringBackwardFlip`) | `Booklet.BookletViewer.StartLoad` (exhibited by `Booklet.ReloadDuringBackwardFlipCorrected`) |

## Left out

- Page rasterisation and canvas drawing (`renderPageToCanvas` and the render effect, lines 73-101) are left out. They are asynchronous calls into pdfjs and the canvas API.
- Importing pdfjs, setting the worker URL and `getDocument` (lines 48-55) are left out. They are a foreign library and network I/O. A load is modelled as start, success and failure events carrying a generation number. The page count arrives as a parameter. The document handle is a flag.
- Logging the load error to the console (line 62) is left out. It is I/O.
- The `catch` path also handles a failed `import("pdfjs-dist")`. The model does not tell the two failures apart: both are `LoadFailed` with an optional message.
- Booklet.BookletViewer.FlipFrame takes the eased progress as a parameter. The clock, the 500 ms duration, the cubic easing (line 111) and `requestAnimationFrame` scheduling (lines 109-123, 168-170) are floating-point timing and are not modelled. Only the flipping/not-flipping state, the progress value and the completion step are kept.
- The rotation angle and shading (`flipDeg`, `shadeOpacity`, lines 177-183) are left out. They are floating-point presentation.
- The browser fullscreen API calls (lines 150-158) are left out. They are platform I/O. Only the flag transitions are modelled.
- The model assumes the browser delivers no key, animation-frame or fullscreen event after unmount. The source removes those listeners and cancels the frame then (lines 146, 165, 169). Each event method requires `mounted`.
- A JavaScript promise settles once. The model states this as a precondition on the load completions (a ghost set of settled generations).
- React applies the setters of one event together, and the model treats each event as one atomic step. So the completion step's ordering (progress, then flipping, then spread) is not observable. The stale-closure window between a state update and the re-subscription of the key handler is not modelled.
- All JSX, styling and layout are left out (PdfBooklet.tsx:195-484, the archive, home and issue pages, the navigation bar, the layout, the Tailwind config). They are UI. The click zones at lines 443-449 call `goPrev`/`goNext` unguarded, which is what the model's methods do.
- The viewer has no single-page mode: `goNext`/`goPrev` always move one spread (PdfBooklet.tsx:128-136), so none is modelled.
- The separator in the page label is stored in the source as a garbled byte sequence. It is modelled as the constant " – " (an en dash, U+2013, between spaces).
- The registry functions take the list as a parameter. The site passes its one constant array, modelled as `Newsletters.Issues`. `getCurrentNewsletter` is `CurrentNewsletter` and requires a non-empty list: indexing an empty list is a configuration error.
