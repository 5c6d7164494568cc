/** The view-model of js/controller.js. The module-level variables
    `currentImageIndex`, `currentCommentPage` and `images` become the fields
    of a `Gallery` value, and each event handler becomes a function from the
    old gallery to the new one. What a handler draws is not part of the
    state: `ImageView` and `CommentsView` compute the two halves of the
    screen from a gallery. Every handler that redraws the comments draws
    `CommentsView` of the gallery it leaves; the one exception is the
    reload reached from `ShowNextComments` with no images: it rebuilds
    the whole document, so the comment half shows the page's initial
    markup, which is not modelled; the model gives only the gallery the
    reloaded page starts from (`Init`). A handler that stops at an `alert`
    returns the reason with the gallery it leaves. */
module Controller {
  import opened Seqs
  import opened Text
  import opened Store
  import opened CommentOrder
  import opened Paging

  /** Why a handler stopped at an `alert`. */
  datatype Reason = MissingField | InvalidUrl | NoImages | NoComments

  /** The stored collections, the cached `images`, `currentImageIndex` and
      `currentCommentPage`. */
  datatype Gallery = Gallery(db: Db, images: seq<Image>, index: nat, page: nat)

  /** What a handler that may alert leaves behind. */
  datatype Step = Done(gallery: Gallery) | Alerted(gallery: Gallery, reason: Reason)

  /** `images[currentImageIndex]` is an image whenever there are images.
      The handlers read the current image only when there are images, so
      this is all that most of them need. */
  predicate IndexReadable(g: Gallery)
  {
    |g.images| > 0 ==> g.index < |g.images|
  }

  /** `IndexReadable`, and with no images the index is still 0: what holds
      in every state the handlers reach. */
  predicate CursorInRange(g: Gallery)
  {
    g.index == 0 || g.index < |g.images|
  }

  /** The cached images are the stored ones: every handler reloads them
      after a change. */
  predicate Synced(g: Gallery)
  {
    g.images == g.db.images
  }

  /** What holds in every state the handlers reach from a consistent store. */
  ghost predicate Valid(g: Gallery)
  {
    CursorInRange(g) && Synced(g) && Consistent(g.db)
  }

  function OnImage(id: Id): Comment -> bool
  {
    (c: Comment) => c.imageId == id
  }

  /** `getCommentsForImage`: every stored comment on the image, each as
      often as it is stored (the order is `CommentsForImageOrder`). */
  function CommentsForImage(comments: seq<Comment>, id: Id): (r: seq<Comment>)
    ensures forall c :: multiset(r)[c] == if c.imageId == id then multiset(comments)[c] else 0
  {
    var mine := Filter(comments, OnImage(id));
    FilterCounts(comments, OnImage(id));
    Sort(mine)
  }

  /** `getCommentsForImage` lists the image's comments newest first, and
      comments of equal timestamp in stored order; no other arrangement of
      them does both. */
  lemma CommentsForImageOrder(comments: seq<Comment>, id: Id)
    ensures NewestFirst(CommentsForImage(comments, id))
    ensures SameTies(CommentsForImage(comments, id), Filter(comments, OnImage(id)))
    ensures forall r :: NewestFirst(r) && SameTies(r, Filter(comments, OnImage(id))) ==> r == CommentsForImage(comments, id)
  {
    var mine := Filter(comments, OnImage(id));
    SortSameTies(mine);
    forall r | NewestFirst(r) && SameTies(r, mine) ensures r == Sort(mine) {
      SortIsStableSort(mine, r);
    }
  }

  /** The comments of the current image, newest first. */
  function CurrentComments(g: Gallery): seq<Comment>
    requires g.index < |g.images|
  {
    CommentsForImage(g.db.comments, g.images[g.index].imageId)
  }

  /** `loadImages`. */
  function LoadImages(g: Gallery): (r: Gallery)
    ensures Synced(r)
    ensures r.images == g.db.images && r.db == g.db && r.index == g.index && r.page == g.page
  {
    g.(images := g.db.images)
  }

  /** Loading is all a synced gallery needs: loading it again changes
      nothing. */
  lemma LoadImagesSynced(g: Gallery)
    ensures Synced(g) <==> LoadImages(g) == g
    ensures LoadImages(LoadImages(g)) == LoadImages(g)
  {
  }

  /** The state part of `showImage(i)`: the image becomes current and its
      comments are shown from the first page. */
  function ShowImage(g: Gallery, i: nat): (r: Gallery)
    requires i < |g.images|
    ensures r.index == i && r.page == 0
    ensures r.db == g.db && r.images == g.images
  {
    g.(index := i, page := 0)
  }

  /** `updateImageDisplay`: an index past the end goes back to the first
      image (not to the last); any other index is kept; the comments start
      again from their first page. */
  function UpdateImageDisplay(g: Gallery): (r: Gallery)
    ensures r.db == g.db && r.images == g.images
    ensures |g.images| == 0 ==> r == g
    ensures |g.images| > 0 ==> r.index < |r.images| && r.page == 0
    ensures |g.images| > 0 ==> (r.index == g.index <==> g.index < |g.images|)
    ensures g.index >= |g.images| > 0 ==> r.index == 0
  {
    if |g.images| == 0 then g
    else if g.index >= |g.images| then ShowImage(g, 0)
    else ShowImage(g, g.index)
  }

  /** `initializeApp`, also what `location.reload()` leads to: the images
      are loaded and shown from the first one. */
  function Init(db: Db): (r: Gallery)
    ensures r.db == db && Synced(r) && CursorInRange(r)
    ensures r.index == 0 && r.page == 0
  {
    UpdateImageDisplay(LoadImages(Gallery(db, [], 0, 0)))
  }

  /** `showPreviousImage`: one image back, and nothing at the first. */
  function ShowPreviousImage(g: Gallery): (r: Gallery)
    requires g.index <= |g.images|
    ensures CursorInRange(r) && r.db == g.db && r.images == g.images
    ensures g.index > 0 ==> r.index == g.index - 1 && r.page == 0
    ensures g.index == 0 ==> r == g
  {
    if g.index > 0 then ShowImage(g, g.index - 1) else g
  }

  /** `showNextImage`: one image on, and nothing at the last (no wrap). */
  function ShowNextImage(g: Gallery): (r: Gallery)
    ensures CursorInRange(g) ==> CursorInRange(r)
    ensures r.db == g.db && r.images == g.images
    ensures g.index + 1 < |g.images| ==> r.index == g.index + 1 && r.page == 0
    ensures g.index + 1 >= |g.images| ==> r == g
  {
    if g.index < |g.images| - 1 then ShowImage(g, g.index + 1) else g
  }

  /** `deleteCurrentImage`: the current image goes, with its comments; the
      images are reloaded; if any remain, the same position is shown again
      (the last one if the position is now past the end) from the first
      comment page; if none remain both cursors are left as they were. */
  function DeleteCurrentImage(g: Gallery): (r: Gallery)
    requires IndexReadable(g)
    ensures |g.images| == 0 ==> r == g
    ensures |g.images| > 0 ==> r.db == DeleteImage(g.db, g.images[g.index].imageId) && Synced(r)
    ensures |r.images| > 0 ==> r.index < |r.images|
    ensures |g.images| > 0 && |r.images| > 0 ==> r.page == 0 && r.index == Min(g.index, |r.images| - 1)
    ensures |g.images| > 0 && |r.images| == 0 ==> r.index == g.index && r.page == g.page
  {
    if |g.images| == 0 then g
    else
      var db := DeleteImage(g.db, g.images[g.index].imageId);
      var loaded := Gallery(db, db.images, g.index, g.page);
      if |loaded.images| == 0 then loaded
      else if g.index >= |loaded.images| then ShowImage(loaded, |loaded.images| - 1)
      else ShowImage(loaded, g.index)
  }

  /** `addImageSubmit`: with every trimmed field filled in and a URL the
      browser accepts (`validUrl` stands for `isValidUrl`), the image is
      stored, the images are reloaded and the new one, last in the list,
      becomes current. Otherwise nothing changes. */
  function AddImageSubmit(g: Gallery, title: string, author: string, url: string,
                          validUrl: string -> bool, id: Id, now: Timestamp): (r: Step)
    ensures Trim(title) == [] || Trim(author) == [] || Trim(url) == [] ==> r == Alerted(g, MissingField)
    ensures Trim(title) != [] && Trim(author) != [] && Trim(url) != [] && !validUrl(Trim(url)) ==> r == Alerted(g, InvalidUrl)
    ensures r.Alerted? <==> Trim(title) == [] || Trim(author) == [] || Trim(url) == [] || !validUrl(Trim(url))
    ensures r.Alerted? ==> r.gallery == g
    ensures r.Done? ==> r.gallery.db == AddImage(g.db, Trim(title), Trim(author), Trim(url), id, now).db
    ensures r.Done? ==> Synced(r.gallery) && r.gallery.index == |r.gallery.images| - 1 && r.gallery.page == 0
    ensures r.Done? ==> r.gallery.images[r.gallery.index] == Image(id, Trim(title), Trim(author), Trim(url), now)
  {
    var title, author, url := Trim(title), Trim(author), Trim(url);
    if title == [] || author == [] || url == [] then Alerted(g, MissingField)
    else if !validUrl(url) then Alerted(g, InvalidUrl)
    else
      var loaded := LoadImages(g.(db := AddImage(g.db, title, author, url, id, now).db));
      Done(ShowImage(loaded, |loaded.images| - 1))
  }

  /** `handleCommentSubmit`: with both trimmed fields filled in and an
      image on show, the comment is stored against the current image; the
      cursors and the cached images do not move. */
  function HandleCommentSubmit(g: Gallery, author: string, content: string, id: Id, now: Timestamp): (r: Step)
    requires IndexReadable(g)
    ensures Trim(author) == [] || Trim(content) == [] ==> r == Alerted(g, MissingField)
    ensures Trim(author) != [] && Trim(content) != [] && |g.images| == 0 ==> r == Alerted(g, NoImages)
    ensures r.Done? <==> Trim(author) != [] && Trim(content) != [] && |g.images| > 0
    ensures r.Done? ==> r.gallery.images == g.images && r.gallery.index == g.index && r.gallery.page == g.page
    ensures r.Done? ==> r.gallery.db == AddComment(g.db, g.images[g.index].imageId, Trim(author), Trim(content), id, now).db
  {
    var author, content := Trim(author), Trim(content);
    if author == [] || content == [] then Alerted(g, MissingField)
    else if |g.images| == 0 then Alerted(g, NoImages)
    else Done(g.(db := AddComment(g.db, g.images[g.index].imageId, author, content, id, now).db))
  }

  /** `showPreviousComments`: one page back when there is a page before;
      an alert when there is no image or the image has no comments. */
  function ShowPreviousComments(g: Gallery): (r: Step)
    requires IndexReadable(g)
    ensures |g.images| == 0 ==> r == Alerted(g, NoImages)
    ensures |g.images| > 0 && |CurrentComments(g)| == 0 ==> r == Alerted(g, NoComments)
    ensures r.Done? <==> |g.images| > 0 && |CurrentComments(g)| > 0
    ensures r.Done? ==> r.gallery.page == (if g.page > 0 then g.page - 1 else 0)
    ensures r.gallery == g.(page := r.gallery.page)
  {
    if |g.images| == 0 then Alerted(g, NoImages)
    else if |CurrentComments(g)| == 0 then Alerted(g, NoComments)
    else if g.page > 0 then Done(g.(page := g.page - 1))
    else Done(g)
  }

  /** `showNextComments`: one page on whenever the image has comments,
      whether or not that page holds any (only the disabled button keeps
      the user from going past the last page). With no image it alerts and
      reloads the page, which starts the controller afresh. */
  function ShowNextComments(g: Gallery): (r: Step)
    requires IndexReadable(g)
    ensures |g.images| == 0 ==> r == Alerted(Init(g.db), NoImages)
    ensures |g.images| > 0 && |CurrentComments(g)| == 0 ==> r == Alerted(g, NoComments)
    ensures r.Done? <==> |g.images| > 0 && |CurrentComments(g)| > 0
    ensures r.Done? ==> r.gallery == g.(page := g.page + 1)
  {
    if |g.images| == 0 then Alerted(Init(g.db), NoImages)
    else if |CurrentComments(g)| == 0 then Alerted(g, NoComments)
    else Done(g.(page := g.page + 1))
  }

  /** `deleteCommentHandler`: the comment goes and the images are reloaded;
      the cursors stay where they were. */
  function DeleteCommentHandler(g: Gallery, id: Id): (r: Gallery)
    ensures r.db == DeleteComment(g.db, id) && Synced(r)
    ensures r.index == g.index && r.page == g.page
  {
    LoadImages(g.(db := DeleteComment(g.db, id)))
  }

  /** The image half of the screen. */
  datatype ImagePanel = EmptyGallery | Showing(image: Image, counter: string)

  /** What `showImage` and `showEmptyGallery` draw: the current image with
      an "i of n" counter, or the empty-gallery placeholder. */
  function ImageView(g: Gallery): (v: ImagePanel)
    requires IndexReadable(g)
    ensures v.EmptyGallery? <==> |g.images| == 0
    ensures v.Showing? ==> v.image == g.images[g.index]
    ensures v.Showing? ==> v.counter == Decimal(g.index + 1) + " of " + Decimal(|g.images|)
  {
    if |g.images| == 0 then EmptyGallery
    else Showing(g.images[g.index], Decimal(g.index + 1) + " of " + Decimal(|g.images|))
  }

  /** The comment half of the screen. */
  datatype CommentsPanel = CommentsPanel(shown: seq<Comment>, counter: Counter, prevDisabled: bool, nextDisabled: bool)

  /** What `updateCommentsDisplay` draws: the current page of the current
      image's comments, the counter and the two button states. */
  function CommentsView(g: Gallery): (v: CommentsPanel)
    requires IndexReadable(g)
    ensures |v.shown| <= PageSize
    ensures v.prevDisabled <==> g.page == 0
    ensures |g.images| == 0 ==> v.shown == [] && v.counter == NothingToCount && v.nextDisabled
    ensures |g.images| > 0 ==> v.shown == PageOf(CurrentComments(g), g.page)
    ensures |g.images| > 0 ==> (v.counter == NothingToCount <==> |CurrentComments(g)| == 0)
    ensures |g.images| > 0 ==> (v.nextDisabled <==> |CurrentComments(g)| <= PageStart(g.page) + PageSize)
  {
    if |g.images| > 0 then
      var comments := CurrentComments(g);
      var start := PageStart(g.page);
      var end := start + PageSize;
      NextDisabledIff(g.page, |comments|);
      var v := CommentsPanel(Slice(comments, start, end), PageCounter(|comments|, start, end),
                             PrevDisabled(g.page), NextDisabled(g.page, |comments|));
      v
    else
      CommentsPanel([], PageCounter(0, 0, 0), PrevDisabled(g.page), NextDisabled(g.page, 0))
  }

  /** On one of the image's pages the counter gives the 1-based positions,
      in the whole list, of the first and last comment shown, and the
      number of comments. */
  lemma CommentsCounterDescribesPage(g: Gallery)
    requires IndexReadable(g) && |g.images| > 0
    requires g.page < PageCount(|CurrentComments(g)|)
    ensures CommentsView(g).counter
         == Range(PageStart(g.page) + 1, PageStart(g.page) + |CommentsView(g).shown|, |CurrentComments(g)|)
  {
    var comments := CurrentComments(g);
    var start := PageStart(g.page);
    CounterDescribesPage(comments, g.page);
    assert CommentsView(g).counter == PageCounter(|comments|, start, start + PageSize);
  }

  /** Every comment on show is a stored comment on the current image. */
  lemma ShownBelongToImage(g: Gallery)
    requires IndexReadable(g)
    ensures forall c :: c in CommentsView(g).shown ==> c in g.db.comments && c.imageId == g.images[g.index].imageId
  {
    if |g.images| > 0 {
      var comments := CurrentComments(g);
      forall c | c in CommentsView(g).shown
        ensures c in g.db.comments && c.imageId == g.images[g.index].imageId
      {
        var k :| 0 <= k < |CommentsView(g).shown| && CommentsView(g).shown[k] == c;
        assert c in multiset(comments);
      }
    }
  }

  /** The user actions `setupEventListeners` wires up, with the identifier
      and time the store would draw for a new record. */
  datatype Event =
    | SubmitImage(title: string, author: string, url: string, imageId: Id, now: Timestamp)
    | PreviousImage
    | NextImage
    | DeleteImageClicked
    | SubmitComment(author: string, content: string, commentId: Id, now: Timestamp)
    | PreviousComments
    | NextComments
    | DeleteCommentClicked(commentId: Id)

  /** The identifier drawn for a new record is not already stored. */
  predicate FreshFor(g: Gallery, e: Event)
  {
    match e
    case SubmitImage(_, _, _, id, _) => !HasImage(g.db.images, id)
    case SubmitComment(_, _, id, _) => !HasComment(g.db.comments, id)
    case _ => true
  }

  /** The gallery an event leaves, whether or not its handler alerted. */
  function Apply(g: Gallery, e: Event, validUrl: string -> bool): Gallery
    requires IndexReadable(g) && (e.PreviousImage? ==> g.index <= |g.images|)
  {
    match e
    case SubmitImage(title, author, url, id, now) => AddImageSubmit(g, title, author, url, validUrl, id, now).gallery
    case PreviousImage => ShowPreviousImage(g)
    case NextImage => ShowNextImage(g)
    case DeleteImageClicked => DeleteCurrentImage(g)
    case SubmitComment(author, content, id, now) => HandleCommentSubmit(g, author, content, id, now).gallery
    case PreviousComments => ShowPreviousComments(g).gallery
    case NextComments => ShowNextComments(g).gallery
    case DeleteCommentClicked(id) => DeleteCommentHandler(g, id)
  }
}
