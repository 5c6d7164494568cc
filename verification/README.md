# Web gallery: store and view-model

A Dafny model of the logic behind a small browser image gallery. The gallery
keeps two persisted collections, images and comments. It shows one image at
a time, with that image's comments newest first, ten to a page.

The model has two layers:

- the **store** (`js/api.mjs`): adding an image, deleting an image together
  with its comments, adding a comment, and deleting a comment, each as a
  pure function from the old collections to the new ones;
- the **view-model** (`js/controller.js`): the cursor state
  (`currentImageIndex`, `currentCommentPage`, the cached `images`) as a
  `Gallery` value. Each event handler is a function from gallery to
  gallery. A handler that would `alert` returns the reason alongside the
  gallery it leaves. What the page draws is computed from the gallery by
  `ImageView` and `CommentsView`.

Modules, one per file:

| file | module | contents |
|---|---|---|
| seqs.dfy | `Seqs` | `Array.prototype.filter` as `Filter`, with an independent specification: a subsequence keeping exactly the counts of the accepted elements, which `FilterUnique` shows no other sequence meets |
| text.dfy | `Text` | `String.prototype.trim` over the ECMAScript white-space and line-terminator code points; the decimal numerals template literals write, with a read-back round trip |
| store.dfy | `Store` | records, the two collections, the four store operations, the data-model invariant `Consistent` |
| comment_order.dfy | `CommentOrder` | the stable newest-first sort of `getCommentsForImage`. It is an insertion sort, specified independently as "newest first, and equal timestamps keep their stored order", and that specification is proved to have exactly one solution |
| paging.dfy | `Paging` | ten-comment pages, `Math.ceil` page count, the counter and its text, the two button states |
| controller.dfy | `Controller` | the `Gallery` state, every handler, the two views, the event set |
| controller_facts.dfy | `ControllerFacts` | what the handlers preserve and how they move the cursors and change the screen |

The invariant `Valid` combines three facts:

- the image index is in range, or 0 when there are no images;
- the cached images are the stored ones;
- the store is `Consistent`: ids are unique and every comment's image exists.

`EveryEventKeepsValid` proves that every user event keeps `Valid`, as long as the ids drawn for new records are fresh.

## Model

| member | source | states |
|---|---|---|
| Seqs.Filter | js/api.mjs:37-39 | the filtered sequence is no longer than the original and everything in it passes the test |
| Seqs.FilterMembers | js/api.mjs:37-39 | an element is in the filtered sequence exactly when it is in the original and passes the test |
| Seqs.FilterIsSubsequence | js/api.mjs:37-39 | filtering keeps the surviving elements in their original relative order |
| Seqs.FilterCounts | js/api.mjs:37-39 | every accepted value occurs as often as in the original, and every rejected value does not occur |
| Seqs.FilterUnique | js/api.mjs:37-39 | any subsequence with those counts is the filter's result, so order and counts determine it |
| Seqs.FilterConcat | js/api.mjs:37-39 | filtering distributes over concatenation |
| Seqs.FilterIdempotent | js/api.mjs:37-39 | filtering twice with one test is filtering once |
| Seqs.FilterRemovesOne | js/api.mjs:37-39 | when only the element at k fails the test, filtering deletes it and closes the gap |
| Seqs.FilterDistinct | js/api.mjs:37-39 | filtering a sequence with unique keys leaves unique keys |
| Text.Trim | js/controller.js:66-68 | the result is no longer than the input and has no trimmable first or last character. It is empty exactly when every character of the input is trimmable, which is when the `!title`-style guards fire |
| Text.TrimStart | js/controller.js:66-68 | drops exactly the longest run of trimmable characters from the start |
| Text.TrimEnd | js/controller.js:66-68 | drops exactly the longest run of trimmable characters from the end |
| Text.TrimIdempotent | js/controller.js:66-68 | trimming a trimmed string changes nothing |
| Text.TrimKeepsMiddle | js/controller.js:66-68 | the trimmed string is one contiguous slice of the input, and every character before it and after it is trimmable. With `Trim`'s contract this pins the result: the input less exactly its leading and trailing trimmable runs |
| Text.Decimal | js/controller.js:109 | the numeral is non-empty, all digits, and has no leading zero except for 0 itself |
| Text.DecimalRoundTrip | js/controller.js:109 | reading the written numeral back gives the number |
| Text.DecimalInjective | js/controller.js:109 | distinct numbers are written differently |
| Store.AddImage | js/api.mjs:19-31 | appends exactly one image at the end with the given fields, id and time; earlier images and all comments are unchanged; the returned image is the appended one |
| Store.DeleteImage | js/api.mjs:34-46 | the remaining images are exactly the stored ones with a different id, in stored order and with the same counts; the comments on that id are removed the same way (cascade) |
| Store.AddComment | js/api.mjs:49-61 | appends exactly one comment with the given image id, author, content, id and time, whether or not that image exists; images are unchanged |
| Store.DeleteComment | js/api.mjs:64-71 | the remaining comments are exactly the stored ones with a different id, in stored order; images are unchanged |
| Store.DeleteImageCharacterized | js/api.mjs:37-43 | `DeleteImage`'s contract has only one solution: any order-keeping collections with those counts are its result |
| Store.DeleteCommentCharacterized | js/api.mjs:66-68 | the same for `DeleteComment` |
| Store.DeleteImageIdempotent | js/api.mjs:37-44 | deleting an image twice is deleting it once |
| Store.DeleteCommentIdempotent | js/api.mjs:65-70 | deleting a comment twice is deleting it once |
| Store.DeleteAbsentImage | js/api.mjs:37-44 | deleting an id no image has changes nothing, provided no comment refers to it, which holds in a consistent store |
| Store.DeleteAbsentComment | js/api.mjs:65-70 | deleting an id no comment has changes nothing |
| Store.DeleteImageAt | js/api.mjs:37-39 | with unique ids, deleting the image at position k removes exactly that position |
| Store.AddImageThenDelete | js/api.mjs:19-46 | adding an image under a fresh id and then deleting it restores a consistent store exactly |
| Store.AddCommentThenDelete | js/api.mjs:49-71 | adding a comment under a fresh id and then deleting it restores the store exactly |
| Store.AddImageKeepsConsistent | js/api.mjs:19-31 | a fresh image id keeps ids unique and every comment's image present |
| Store.AddCommentKeepsConsistent | js/api.mjs:49-61 | a fresh comment id on a stored image keeps the store consistent |
| Store.DeleteImageKeepsConsistent | js/api.mjs:34-46 | the cascading delete keeps the store consistent |
| Store.DeleteImageKeepsOwners | js/api.mjs:41-43 | after the cascade, every remaining comment still has its image |
| Store.DeleteCommentKeepsConsistent | js/api.mjs:64-71 | deleting a comment keeps the store consistent |
| CommentOrder.Insert | js/controller.js:273 | one insertion step of the sort adds exactly the inserted comment |
| CommentOrder.InsertNewestFirst | js/controller.js:273 | insertion keeps a newest-first list newest first |
| CommentOrder.InsertSameTies | js/controller.js:273 | the inserted comment goes ahead of the comments of its own timestamp, exactly as if it had been put in front of the list, so the order among equal timestamps is kept |
| CommentOrder.Sort | js/controller.js:273 | the result is a permutation of the input and newest first |
| CommentOrder.SortSameTies | js/controller.js:273 | the sort is stable: comments with the same timestamp keep their input order |
| CommentOrder.NewestFirstUnique | js/controller.js:273 | two newest-first lists that agree on the order within every timestamp are equal |
| CommentOrder.SortIsStableSort | js/controller.js:273 | any newest-first list with the input's order within each timestamp is the sort's result |
| CommentOrder.SortAppendNewest | js/controller.js:273 | a comment newer than all others sorts to the front |
| Paging.Slice | js/controller.js:255 | `slice` with clamped bounds: its elements are the input's from `start` on, at most `end - start` of them, and all of them when the range lies inside. It is empty when `end` is not past `start` |
| Paging.PageOf | js/controller.js:253-255 | a page holds at most ten comments, the ones starting at `page * 10` |
| Paging.PageCount | js/controller.js:332 | `Math.ceil(total / 10)` is the fewest pages of ten that hold `total` |
| Paging.PageCounter | js/controller.js:276-283 | the counter is empty exactly when there are no comments |
| Paging.CounterText | js/controller.js:276-283 | "No comments" for an empty counter; otherwise the text starts with a digit |
| Paging.CounterTextNoComments | js/controller.js:278-282 | the text reads "No comments" exactly when the counter is empty |
| Paging.CounterReadsNoComments | js/controller.js:276-283 | the counter reads "No comments" if and only if the total is 0 |
| Paging.CounterTextInjective | js/controller.js:281 | distinct counters give distinct texts, so "first-last of total" can be read back |
| Paging.NextDisabledIff | js/controller.js:332-333 | "next" is disabled exactly when no comment lies beyond the current page, and always when there are none |
| Paging.PageNonEmptyIff | js/controller.js:253-255 | a page shows something exactly when its index is below the page count |
| Paging.LastPageSize | js/controller.js:253-255 | the last page holds the remainder left by the full pages |
| Paging.PagesFromCover | js/controller.js:253-255 | the pages from `page` on, read in order, are exactly the comments from that page's start |
| Paging.PagesCover | js/controller.js:253-255 | all pages together show every comment exactly once, in order |
| Paging.CounterDescribesPage | js/controller.js:253-283 | on an existing page the counter gives the 1-based positions of the page's first and last comment, and the total |
| Paging.CounterPastEnd | js/controller.js:276-283 | past the last page nothing is shown and the counter's first position exceeds its last |
| Paging.TwelveComments | js/controller.js:276-334 | twelve comments: "1-10 of 12" with "next" enabled, then "11-12 of 12" with "next" disabled |
| Controller.CommentsForImage | js/controller.js:270-274 | exactly the stored comments on the image, each as often as it is stored |
| Controller.CommentsForImageOrder | js/controller.js:270-274 | that list is newest first with ties in stored order, and it is the only such arrangement |
| Controller.LoadImages | js/controller.js:19-21 | the cached images become the stored ones, and the store, the image index and the comment page are untouched |
| Controller.LoadImagesSynced | js/controller.js:19-21 | loading changes the gallery exactly when the cache is out of step with the store, and loading twice is loading once |
| Controller.ShowImage | js/controller.js:97-113 | the index becomes `i` and the comment page 0; nothing else changes |
| Controller.UpdateImageDisplay | js/controller.js:164-173 | with images, an index past the end goes back to 0 (not to the last image) and any other index is kept; the page is reset. With none, nothing changes |
| Controller.Init | js/controller.js:12-16 | starting up shows the first image, page 0, with the cache synced |
| Controller.ShowPreviousImage | js/controller.js:128-132 | one image back and page 0, or nothing at the first image. The index it leaves is in range; from one past the end it is the last image |
| Controller.ShowNextImage | js/controller.js:135-139 | one image on and page 0, or nothing at the last image (no wrap) |
| Controller.DeleteCurrentImage | js/controller.js:142-161 | nothing with no images. Otherwise the current image is deleted with its comments and the cache reloaded. If images remain, the index is the old one clamped to the last and the page is 0; if none remain, both cursors stay |
| Controller.AddImageSubmit | js/controller.js:64-87 | alerts and changes nothing exactly when a trimmed field is empty or the URL is rejected. An empty field gives the missing-field alert; otherwise a rejected URL gives the invalid-URL alert. When it does not alert, it stores the trimmed fields and shows the new image, last in the list, from page 0 |
| Controller.HandleCommentSubmit | js/controller.js:183-204 | alerts when a trimmed field is empty, or else when there are no images. Otherwise stores the comment against the current image and moves neither cursor |
| Controller.ShowPreviousComments | js/controller.js:207-225 | alerts with no images or no comments, and succeeds exactly when the current image has comments. On success it moves one page back, or stays at page 0; only the page can change |
| Controller.ShowNextComments | js/controller.js:228-245 | with no images, alerts and starts afresh; with no comments, alerts; otherwise always one page on, without clamping |
| Controller.DeleteCommentHandler | js/controller.js:319-325 | deletes the comment and reloads the images; the cursors stay |
| Controller.ImageView | js/controller.js:97-113 | the empty-gallery placeholder exactly when there are no images; otherwise the current image with its "i of n" counter |
| Controller.CommentsView | js/controller.js:248-267 | at most ten comments, the current page of the current image's list. The counter is empty exactly when that list is. "Previous" is disabled exactly on page 0 and "next" exactly when no comment lies beyond the page. With no image: nothing shown, "No comments", "next" disabled |
| Controller.CommentsCounterDescribesPage | js/controller.js:248-283 | on any of the image's pages the counter is the 1-based position of the first comment shown, that of the last comment shown, and the number of the image's comments |
| Controller.ShownBelongToImage | js/controller.js:248-255 | every comment on show is a stored comment on the current image |
| ControllerFacts.InitValid | js/controller.js:12-16 | starting from a consistent store gives a valid gallery |
| ControllerFacts.NavigationKeepsValid | js/controller.js:128-173 | image navigation and refresh keep the gallery valid |
| ControllerFacts.NextThenPrevious | js/controller.js:128-139 | "next image" is undone by "previous image", apart from the page reset |
| ControllerFacts.PreviousThenNext | js/controller.js:128-139 | "previous image" is undone by "next image", apart from the page reset |
| ControllerFacts.DeleteCurrentImageKeepsValid | js/controller.js:142-161 | deleting the current image keeps the gallery valid |
| ControllerFacts.DeleteCurrentImageShifts | js/controller.js:142-161 | the images close the gap; the next image takes the current position, or the previous one when the last image was deleted; the deleted image's comments are gone |
| ControllerFacts.DeleteOnlyImage | js/controller.js:142-161 | deleting the only image empties the store and shows the empty gallery with "No comments" and "next" disabled; "previous" keeps its old state |
| ControllerFacts.AddImageSubmitKeepsValid | js/controller.js:64-87 | submitting an image under a fresh id keeps the gallery valid |
| ControllerFacts.AddImageSubmitShowsNewImage | js/controller.js:80-84 | the new image is shown at once, with "No comments" and both page buttons disabled |
| ControllerFacts.AddImageThenDeleteCurrent | js/controller.js:64-161 | deleting the image just submitted restores the store |
| ControllerFacts.HandleCommentSubmitKeepsValid | js/controller.js:183-204 | submitting a comment under a fresh id keeps the gallery valid |
| ControllerFacts.FilterOnImageAppend | js/controller.js:272 | a comment appended to the store is appended to its image's filtered comments |
| ControllerFacts.CommentsForImageAppend | js/controller.js:270-274 | appending a comment adds exactly it to its image's list |
| ControllerFacts.CommentsForImageAppendNewest | js/controller.js:270-274 | a comment newer than the others on its image goes to the head of the list |
| ControllerFacts.HandleCommentSubmitListsComment | js/controller.js:198-203 | the submitted comment joins the current image's comments, and nothing else does |
| ControllerFacts.NewestCommentFirst | js/controller.js:198-274 | a comment newer than the image's others heads its list |
| ControllerFacts.FirstPageShowsHead | js/controller.js:253-257 | the first page starts with the head of the list |
| ControllerFacts.CommentPagingKeepsValid | js/controller.js:207-245 | turning comment pages keeps the gallery valid |
| ControllerFacts.PreviousThenNextComments | js/controller.js:207-245 | "previous page" is undone by "next page" |
| ControllerFacts.NextCommentsWhenEnabled | js/controller.js:228-245 | while "next" is enabled, following it reaches a page that shows comments |
| ControllerFacts.NextCommentsPastLastPage | js/controller.js:228-283 | "next page" past the last page still moves on, to an empty page whose counter starts after it ends |
| ControllerFacts.DeleteCommentHandlerKeepsValid | js/controller.js:319-325 | deleting a comment keeps the gallery valid |
| ControllerFacts.DeleteCommentHandlerRemoves | js/controller.js:319-325 | deleting a comment takes it off the current image's list and leaves the rest unchanged |
| ControllerFacts.EveryEventKeepsValid | js/controller.js:33-44 | every wired-up user event keeps the gallery valid, given fresh ids |
| ControllerFacts.EmptyAndBrowsing | js/controller.js:80-151 | only submitting an image leaves the empty gallery, and only deleting the one remaining image returns to it |

## Left out

- DOM reading and writing are left out: form fields, `classList`, `innerHTML`, button `disabled` properties, `reset()`. The model keeps what is drawn (`ImageView`, `CommentsView`), not how it is drawn.
- `toggleAddForm`, `hideAddForm`, `showGallery` and `showEmptyGallery` are left out. They only show and hide page elements and change no state.
- `createCommentElement` and `toLocaleDateString` are left out. They are presentation only, and the per-comment "Delete" button is the `DeleteCommentClicked` event.
- `localStorage`, `JSON.parse` and `JSON.stringify` are left out. The two collections are values. A missing collection reads as empty (`EmptyDb`). Dates are integer milliseconds, the precision a `Date` keeps through JSON.
- Id generation (`Date.now()` plus `Math.random()`) and the clock are parameters (`id`, `now`). The source never checks uniqueness, so the operations accept any id. Freshness of the new id is a premise only of lemmas, never of an operation. The lemmas that assume it are the round trips (`AddImageThenDelete`, `AddCommentThenDelete`, `AddImageThenDeleteCurrent`), `AddImageSubmitShowsNewImage`, the consistency and validity lemmas (`AddImageKeepsConsistent`, `AddCommentKeepsConsistent`, `AddImageSubmitKeepsValid`, `HandleCommentSubmitKeepsValid`, `EveryEventKeepsValid`), and `DeleteAbsentImage` and `DeleteAbsentComment`, which are about an absent id.
- `isValidUrl` depends on the browser's URL parser, so it is the parameter `validUrl`.
- `alert` becomes a `Reason` returned with the gallery. The `location.reload()` in `showNextComments` becomes `Init` of the stored collections, which is what the reloaded page starts with. What the rebuilt document draws before its script runs (the initial markup of the comment half) is not modelled.
- Controller.DeleteCurrentImage, Controller.HandleCommentSubmit, Controller.ShowPreviousComments, Controller.ShowNextComments, Controller.ImageView and Controller.CommentsView require `IndexReadable`: when there are images, the index is below their number. The source reads `images[currentImageIndex]` only when there are images (js/controller.js:143, 198-199, 213, 235, 250), and then an index past the end reads `undefined` and the next property access throws. With no images all of these take their no-images branch, whatever the index.
- Controller.ShowPreviousImage requires `index <= |images|`. Above that bound `showImage(currentImageIndex - 1)` reads past the end and throws at `image.url` (js/controller.js:103); at the bound it shows the last image. Controller.Apply requires each condition for the events that need it.
- These requires exclude no state a user can reach: `Valid` implies both conditions, it holds after `Init` (`InitValid`), and `EveryEventKeepsValid` shows every event preserves it.
- Paging.PageCount computes `Math.ceil(total / 10)` as an integer ceiling. Floating point is not modelled, and for the non-negative integer totals it receives the two agree.
- Text.Decimal writes numerals as JavaScript does for integers below 10^21. Larger numbers, which JavaScript writes in exponent form, are not modelled.

Three behaviours of the code that the model keeps as written:

- `showNextComments` increments `currentCommentPage` (js/controller.js:243) and never clamps it. Only the disabled state of the "next" button, set at js/controller.js:333, keeps a user from moving past the last page. `NextCommentsPastLastPage` shows what a call past that point leaves.
- Deleting the only image leaves `currentCommentPage` unchanged (js/controller.js:150-151 take the empty branch without resetting it). So "previous" stays enabled when the page was above 0 (`DeleteOnlyImage`).
- `showImage` stores the index it is given without clamping it (js/controller.js:99). Its callers pass indices that are in range.
