/** Properties of the controller's handlers: the invariant every handler
    keeps, how the cursors move, and what the screen shows afterwards. */
module ControllerFacts {
  import opened Seqs
  import opened Text
  import opened Store
  import opened CommentOrder
  import opened Paging
  import opened Controller

  /** Starting from a consistent store gives a valid gallery. */
  lemma InitValid(db: Db)
    requires Consistent(db)
    ensures Valid(Init(db))
  {
  }

  /** Moving between images keeps the gallery valid. */
  lemma NavigationKeepsValid(g: Gallery)
    requires Valid(g)
    ensures Valid(ShowPreviousImage(g)) && Valid(ShowNextImage(g)) && Valid(UpdateImageDisplay(g))
  {
  }

  /** "Next image" is undone by "previous image", apart from the comment
      page, which both reset. */
  lemma NextThenPrevious(g: Gallery)
    requires g.index + 1 < |g.images|
    ensures ShowPreviousImage(ShowNextImage(g)) == g.(page := 0)
  {
  }

  /** "Previous image" is undone by "next image", apart from the comment
      page. */
  lemma PreviousThenNext(g: Gallery)
    requires 0 < g.index < |g.images|
    ensures ShowNextImage(ShowPreviousImage(g)) == g.(page := 0)
  {
  }

  /** Deleting the current image keeps the gallery valid. */
  lemma DeleteCurrentImageKeepsValid(g: Gallery)
    requires Valid(g)
    ensures Valid(DeleteCurrentImage(g))
  {
    if |g.images| > 0 {
      DeleteImageKeepsConsistent(g.db, g.images[g.index].imageId);
      DeleteImageAt(g.db, g.index);
    }
  }

  /** Deleting the current image closes the gap: the image after it moves
      into its position and becomes current, or, when the last image was
      deleted, the one before it becomes current. Its comments are gone. */
  lemma DeleteCurrentImageShifts(g: Gallery)
    requires Valid(g) && |g.images| > 0
    ensures var r := DeleteCurrentImage(g);
      && r.images == g.images[..g.index] + g.images[g.index + 1..]
      && (g.index + 1 < |g.images| ==> r.index == g.index && r.images[r.index] == g.images[g.index + 1])
      && (g.index + 1 == |g.images| && g.index > 0 ==> r.index == g.index - 1)
      && (|g.images| > 1 ==> r.page == 0)
      && forall c :: c in r.db.comments ==> c.imageId != g.images[g.index].imageId
  {
    DeleteImageAt(g.db, g.index);
  }

  /** Deleting the only image empties the store, comments included, and
      shows the empty gallery with "No comments" and "next" disabled.
      The comment page is not reset, so "previous" stays enabled when the
      deleted image was on a later page. */
  lemma DeleteOnlyImage(g: Gallery)
    requires Valid(g) && |g.images| == 1
    ensures var r := DeleteCurrentImage(g);
      && r.db == EmptyDb
      && ImageView(r) == EmptyGallery
      && CommentsView(r).shown == [] && CommentsView(r).counter == NothingToCount
      && CommentsView(r).nextDisabled
      && (CommentsView(r).prevDisabled <==> g.page == 0)
  {
    DeleteImageAt(g.db, 0);
  }

  /** Submitting an image under a fresh id keeps the gallery valid. */
  lemma AddImageSubmitKeepsValid(g: Gallery, title: string, author: string, url: string,
                                 validUrl: string -> bool, id: Id, now: Timestamp)
    requires Valid(g) && !HasImage(g.db.images, id)
    ensures Valid(AddImageSubmit(g, title, author, url, validUrl, id, now).gallery)
  {
    var r := AddImageSubmit(g, title, author, url, validUrl, id, now);
    if r.Done? {
      AddImageKeepsConsistent(g.db, Trim(title), Trim(author), Trim(url), id, now);
    }
  }

  /** A newly submitted image is shown at once, and, its id being fresh,
      without comments: "No comments" with both page buttons disabled. */
  lemma AddImageSubmitShowsNewImage(g: Gallery, title: string, author: string, url: string,
                                    validUrl: string -> bool, id: Id, now: Timestamp)
    requires Valid(g) && !HasImage(g.db.images, id)
    requires Trim(title) != [] && Trim(author) != [] && Trim(url) != [] && validUrl(Trim(url))
    ensures var r := AddImageSubmit(g, title, author, url, validUrl, id, now).gallery;
      && ImageView(r).Showing?
      && ImageView(r).image == Image(id, Trim(title), Trim(author), Trim(url), now)
      && CommentsView(r) == CommentsPanel([], NothingToCount, true, true)
  {
  }

  /** Deleting the image just submitted restores the store. */
  lemma AddImageThenDeleteCurrent(g: Gallery, title: string, author: string, url: string,
                                  validUrl: string -> bool, id: Id, now: Timestamp)
    requires Valid(g) && !HasImage(g.db.images, id)
    requires Trim(title) != [] && Trim(author) != [] && Trim(url) != [] && validUrl(Trim(url))
    ensures DeleteCurrentImage(AddImageSubmit(g, title, author, url, validUrl, id, now).gallery).db == g.db
  {
    AddImageThenDelete(g.db, Trim(title), Trim(author), Trim(url), id, now);
  }

  /** Submitting a comment under a fresh id keeps the gallery valid: the
      comment belongs to the current, stored, image. */
  lemma HandleCommentSubmitKeepsValid(g: Gallery, author: string, content: string, id: Id, now: Timestamp)
    requires Valid(g) && !HasComment(g.db.comments, id)
    ensures Valid(HandleCommentSubmit(g, author, content, id, now).gallery)
  {
    var r := HandleCommentSubmit(g, author, content, id, now);
    if r.Done? {
      assert g.db.images[g.index].imageId == g.images[g.index].imageId;
      AddCommentKeepsConsistent(g.db, g.images[g.index].imageId, Trim(author), Trim(content), id, now);
    }
  }

  /** Storing a comment on an image appends it to that image's filtered
      comments. */
  lemma FilterOnImageAppend(comments: seq<Comment>, c: Comment)
    ensures Filter(comments + [c], OnImage(c.imageId)) == Filter(comments, OnImage(c.imageId)) + [c]
  {
    FilterConcat(comments, [c], OnImage(c.imageId));
    FilterCons(c, [], OnImage(c.imageId));
  }

  /** Appending a comment on an image adds it to that image's list. */
  lemma CommentsForImageAppend(comments: seq<Comment>, c: Comment)
    ensures multiset(CommentsForImage(comments + [c], c.imageId))
         == multiset(CommentsForImage(comments, c.imageId)) + multiset{c}
  {
    var f := Filter(comments, OnImage(c.imageId));
    FilterOnImageAppend(comments, c);
    assert CommentsForImage(comments + [c], c.imageId) == Sort(f + [c]);
    assert CommentsForImage(comments, c.imageId) == Sort(f);
  }

  /** Appending a comment newer than every comment already on its image
      puts it at the head of that image's list. */
  lemma CommentsForImageAppendNewest(comments: seq<Comment>, c: Comment)
    requires forall x :: x in CommentsForImage(comments, c.imageId) ==> x.date < c.date
    ensures CommentsForImage(comments + [c], c.imageId) == [c] + CommentsForImage(comments, c.imageId)
  {
    var f := Filter(comments, OnImage(c.imageId));
    FilterOnImageAppend(comments, c);
    assert CommentsForImage(comments + [c], c.imageId) == Sort(f + [c]);
    assert CommentsForImage(comments, c.imageId) == Sort(f);
    forall x | x in f ensures x.date < c.date {
      assert x in multiset(f);
      assert x in multiset(Sort(f));
    }
    SortAppendNewest(f, c);
  }

  /** A submitted comment joins the current image's comments, and nothing
      else does. */
  lemma HandleCommentSubmitListsComment(g: Gallery, author: string, content: string, id: Id, now: Timestamp)
    requires CursorInRange(g)
    requires Trim(author) != [] && Trim(content) != [] && |g.images| > 0
    ensures var r := HandleCommentSubmit(g, author, content, id, now).gallery;
      multiset(CurrentComments(r))
        == multiset(CurrentComments(g)) + multiset{Comment(id, g.images[g.index].imageId, Trim(author), Trim(content), now)}
  {
    var r := HandleCommentSubmit(g, author, content, id, now).gallery;
    var c := Comment(id, g.images[g.index].imageId, Trim(author), Trim(content), now);
    assert r.db.comments == g.db.comments + [c];
    assert r.images[r.index].imageId == c.imageId;
    CommentsForImageAppend(g.db.comments, c);
  }

  /** A comment newer than every other comment on its image heads the
      list, ahead of the comments that were there. */
  lemma NewestCommentFirst(g: Gallery, author: string, content: string, id: Id, now: Timestamp)
    requires CursorInRange(g)
    requires Trim(author) != [] && Trim(content) != [] && |g.images| > 0
    requires forall x :: x in CurrentComments(g) ==> x.date < now
    ensures var r := HandleCommentSubmit(g, author, content, id, now).gallery;
      CurrentComments(r) == [Comment(id, g.images[g.index].imageId, Trim(author), Trim(content), now)] + CurrentComments(g)
  {
    var r := HandleCommentSubmit(g, author, content, id, now).gallery;
    var c := Comment(id, g.images[g.index].imageId, Trim(author), Trim(content), now);
    assert r.db.comments == g.db.comments + [c];
    assert r.images[r.index].imageId == c.imageId;
    CommentsForImageAppendNewest(g.db.comments, c);
  }

  /** The first page starts with the head of the list, so after
      `NewestCommentFirst` the new comment is the first one shown. */
  lemma FirstPageShowsHead(g: Gallery)
    requires CursorInRange(g) && |g.images| > 0 && g.page == 0
    requires |CurrentComments(g)| > 0
    ensures |CommentsView(g).shown| > 0 && CommentsView(g).shown[0] == CurrentComments(g)[0]
  {
  }

  /** Turning comment pages keeps the gallery valid. */
  lemma CommentPagingKeepsValid(g: Gallery)
    requires Valid(g)
    ensures Valid(ShowPreviousComments(g).gallery) && Valid(ShowNextComments(g).gallery)
  {
  }

  /** "Previous page" is undone by "next page". */
  lemma PreviousThenNextComments(g: Gallery)
    requires CursorInRange(g) && |g.images| > 0
    requires |CurrentComments(g)| > 0 && g.page > 0
    ensures ShowPreviousComments(g).Done?
    ensures ShowNextComments(ShowPreviousComments(g).gallery) == Done(g)
  {
  }

  /** While "next" is enabled, following it lands on a page that shows
      comments. */
  lemma NextCommentsWhenEnabled(g: Gallery)
    requires CursorInRange(g) && |g.images| > 0
    requires !CommentsView(g).nextDisabled
    ensures ShowNextComments(g).Done?
    ensures var r := ShowNextComments(g).gallery;
      r.page < PageCount(|CurrentComments(g)|) && |CommentsView(r).shown| > 0
  {
    var r := ShowNextComments(g).gallery;
    PageNonEmptyIff(CurrentComments(g), r.page);
  }

  /** `showNextComments` does not clamp: past the last page it still moves
      on, to a page that shows nothing and whose counter starts after it
      ends. */
  lemma NextCommentsPastLastPage(g: Gallery)
    requires CursorInRange(g) && |g.images| > 0
    requires |CurrentComments(g)| > 0 && CommentsView(g).nextDisabled
    ensures ShowNextComments(g) == Done(g.(page := g.page + 1))
    ensures var r := ShowNextComments(g).gallery;
      var total := |CurrentComments(g)|;
      && CommentsView(r).shown == []
      && CommentsView(r).counter == Range(PageStart(r.page) + 1, total, total)
      && PageStart(r.page) + 1 > total
  {
    var r := g.(page := g.page + 1);
    var cs := CurrentComments(g);
    assert CurrentComments(r) == cs;
    assert PageStart(r.page) == PageStart(g.page) + PageSize;
    CounterPastEnd(cs, r.page);
  }

  /** Deleting a comment keeps the gallery valid. */
  lemma DeleteCommentHandlerKeepsValid(g: Gallery, id: Id)
    requires Valid(g)
    ensures Valid(DeleteCommentHandler(g, id))
  {
    DeleteCommentKeepsConsistent(g.db, id);
  }

  /** Deleting a comment takes it off the current image's list and leaves
      the rest of the list as it was. */
  lemma DeleteCommentHandlerRemoves(g: Gallery, id: Id)
    requires Valid(g) && |g.images| > 0
    ensures var r := DeleteCommentHandler(g, id);
      && CursorInRange(r)
      && forall c :: multiset(CurrentComments(r))[c] == if c.commentId != id then multiset(CurrentComments(g))[c] else 0
  {
  }

  /** Every event keeps the gallery valid, provided the identifiers drawn
      for new records are fresh. */
  lemma EveryEventKeepsValid(g: Gallery, e: Event, validUrl: string -> bool)
    requires Valid(g) && FreshFor(g, e)
    ensures Valid(Apply(g, e, validUrl))
  {
    match e
    case SubmitImage(title, author, url, id, now) =>
      AddImageSubmitKeepsValid(g, title, author, url, validUrl, id, now);
    case PreviousImage =>
    case NextImage =>
    case DeleteImageClicked =>
      DeleteCurrentImageKeepsValid(g);
    case SubmitComment(author, content, id, now) =>
      HandleCommentSubmitKeepsValid(g, author, content, id, now);
    case PreviousComments =>
    case NextComments =>
    case DeleteCommentClicked(id) =>
      DeleteCommentHandlerKeepsValid(g, id);
  }

  /** The gallery's two display states: only a submitted image leaves the
      empty gallery, and only deleting the one remaining image returns to
      it. */
  lemma EmptyAndBrowsing(g: Gallery, e: Event, validUrl: string -> bool)
    requires Valid(g)
    ensures var r := Apply(g, e, validUrl);
      && (|g.images| == 0 && |r.images| > 0 ==> e.SubmitImage?)
      && (|g.images| > 0 && |r.images| == 0 ==> e == DeleteImageClicked && |g.images| == 1)
  {
    match e
    case DeleteImageClicked =>
      if |g.images| > 0 {
        DeleteImageAt(g.db, g.index);
      }
    case SubmitImage(title, author, url, id, now) =>
    case SubmitComment(author, content, id, now) =>
    case DeleteCommentClicked(id) =>
    case _ =>
  }
}
