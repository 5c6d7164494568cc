/** The gallery's persisted collections and the four operations that change
    them (js/api.mjs). Each operation reads the collections it touches
    (only `deleteImage` touches both), changes them in memory and writes
    them back; here that is a function from the old collections to the new
    ones. Identifiers and creation times, which the
    source draws from the clock and a random generator, are parameters. */
module Store {
  import opened Seqs

  /** Image and comment identifiers. */
  type Id = string

  /** A creation time in milliseconds, the precision a `Date` keeps when it
      is written out as JSON and read back. */
  type Timestamp = int

  datatype Image = Image(imageId: Id, title: string, author: string, url: string, date: Timestamp)

  datatype Comment = Comment(commentId: Id, imageId: Id, author: string, content: string, date: Timestamp)

  /** The `galleryImages` and `galleryComments` collections, in stored order.
      A collection that was never written reads as empty. */
  datatype Db = Db(images: seq<Image>, comments: seq<Comment>)

  const EmptyDb := Db([], [])

  /** What an add operation returns: the record it created, together with
      the collections it wrote. */
  datatype Created<T> = Created(db: Db, record: T)

  function ImageIdOf(img: Image): Id { img.imageId }

  function CommentIdOf(c: Comment): Id { c.commentId }

  /** The test `deleteImage` keeps images by. */
  function OtherImage(id: Id): Image -> bool
  {
    (img: Image) => img.imageId != id
  }

  /** The test `deleteImage` keeps comments by. */
  function NotOnImage(id: Id): Comment -> bool
  {
    (c: Comment) => c.imageId != id
  }

  /** The test `deleteComment` keeps comments by. */
  function OtherComment(id: Id): Comment -> bool
  {
    (c: Comment) => c.commentId != id
  }

  predicate HasImage(images: seq<Image>, id: Id)
  {
    exists i :: 0 <= i < |images| && images[i].imageId == id
  }

  predicate HasComment(comments: seq<Comment>, id: Id)
  {
    exists i :: 0 <= i < |comments| && comments[i].commentId == id
  }

  /** The data-model invariants: identifiers are unique within their
      collection, and every comment belongs to a stored image. */
  ghost predicate Consistent(db: Db)
  {
    && DistinctKeys(db.images, ImageIdOf)
    && DistinctKeys(db.comments, CommentIdOf)
    && forall c :: c in db.comments ==> HasImage(db.images, c.imageId)
  }

  /** `addImage`: the new image is appended after every stored one, nothing
      stored changes, and the image returned is the one appended. */
  function AddImage(db: Db, title: string, author: string, url: string, id: Id, now: Timestamp): (r: Created<Image>)
    ensures r.record.imageId == id && r.record.date == now
    ensures r.record.title == title && r.record.author == author && r.record.url == url
    ensures |r.db.images| == |db.images| + 1
    ensures r.db.images[..|db.images|] == db.images && r.db.images[|db.images|] == r.record
    ensures r.db.comments == db.comments
  {
    var image := Image(id, title, author, url, now);
    Created(Db(db.images + [image], db.comments), image)
  }

  /** `deleteImage`: the remaining images are the stored ones in stored
      order with every image of that id deleted, and the comments on that
      id are deleted with them. An absent id is not an error. */
  function DeleteImage(db: Db, id: Id): (r: Db)
    ensures forall img :: img in r.images <==> img in db.images && img.imageId != id
    ensures forall c :: c in r.comments <==> c in db.comments && c.imageId != id
    ensures IsSubsequence(r.images, db.images)
    ensures forall img :: multiset(r.images)[img] == if img.imageId != id then multiset(db.images)[img] else 0
    ensures IsSubsequence(r.comments, db.comments)
    ensures forall c :: multiset(r.comments)[c] == if c.imageId != id then multiset(db.comments)[c] else 0
  {
    FilterMembers(db.images, OtherImage(id));
    FilterMembers(db.comments, NotOnImage(id));
    FilterIsSubsequence(db.images, OtherImage(id));
    FilterCounts(db.images, OtherImage(id));
    FilterIsSubsequence(db.comments, NotOnImage(id));
    FilterCounts(db.comments, NotOnImage(id));
    Db(Filter(db.images, OtherImage(id)), Filter(db.comments, NotOnImage(id)))
  }

  /** `addComment`: appends the comment whatever `imageId` is (the id is not
      checked against the images) and leaves the images alone. */
  function AddComment(db: Db, imageId: Id, author: string, content: string, id: Id, now: Timestamp): (r: Created<Comment>)
    ensures r.record.commentId == id && r.record.imageId == imageId && r.record.date == now
    ensures r.record.author == author && r.record.content == content
    ensures |r.db.comments| == |db.comments| + 1
    ensures r.db.comments[..|db.comments|] == db.comments && r.db.comments[|db.comments|] == r.record
    ensures r.db.images == db.images
  {
    var comment := Comment(id, imageId, author, content, now);
    Created(Db(db.images, db.comments + [comment]), comment)
  }

  /** `deleteComment`: the remaining comments are the stored ones in stored
      order with every comment of that id deleted; images are untouched. */
  function DeleteComment(db: Db, id: Id): (r: Db)
    ensures r.images == db.images
    ensures forall c :: c in r.comments <==> c in db.comments && c.commentId != id
    ensures IsSubsequence(r.comments, db.comments)
    ensures forall c :: multiset(r.comments)[c] == if c.commentId != id then multiset(db.comments)[c] else 0
  {
    FilterMembers(db.comments, OtherComment(id));
    FilterIsSubsequence(db.comments, OtherComment(id));
    FilterCounts(db.comments, OtherComment(id));
    Db(db.images, Filter(db.comments, OtherComment(id)))
  }

  /** The contract of `DeleteImage` leaves no freedom: any collections that
      are subsequences keeping exactly the records it keeps are its result. */
  lemma DeleteImageCharacterized(db: Db, id: Id, images: seq<Image>, comments: seq<Comment>)
    requires IsSubsequence(images, db.images)
    requires forall img :: multiset(images)[img] == if img.imageId != id then multiset(db.images)[img] else 0
    requires IsSubsequence(comments, db.comments)
    requires forall c :: multiset(comments)[c] == if c.imageId != id then multiset(db.comments)[c] else 0
    ensures DeleteImage(db, id) == Db(images, comments)
  {
    FilterUnique(images, db.images, OtherImage(id));
    FilterUnique(comments, db.comments, NotOnImage(id));
  }

  /** The contract of `DeleteComment` leaves no freedom either. */
  lemma DeleteCommentCharacterized(db: Db, id: Id, comments: seq<Comment>)
    requires IsSubsequence(comments, db.comments)
    requires forall c :: multiset(comments)[c] == if c.commentId != id then multiset(db.comments)[c] else 0
    ensures DeleteComment(db, id) == Db(db.images, comments)
  {
    FilterUnique(comments, db.comments, OtherComment(id));
  }

  /** Deleting an image twice is deleting it once. */
  lemma DeleteImageIdempotent(db: Db, id: Id)
    ensures DeleteImage(DeleteImage(db, id), id) == DeleteImage(db, id)
  {
    FilterIdempotent(db.images, OtherImage(id));
    FilterIdempotent(db.comments, NotOnImage(id));
  }

  /** Deleting a comment twice is deleting it once. */
  lemma DeleteCommentIdempotent(db: Db, id: Id)
    ensures DeleteComment(DeleteComment(db, id), id) == DeleteComment(db, id)
  {
    FilterIdempotent(db.comments, OtherComment(id));
  }

  /** Deleting an id no image carries changes nothing, provided no comment
      refers to it; in a consistent store none does. */
  lemma DeleteAbsentImage(db: Db, id: Id)
    requires !HasImage(db.images, id)
    requires Consistent(db) || forall c :: c in db.comments ==> c.imageId != id
    ensures DeleteImage(db, id) == db
  {
    forall img | img in db.images ensures OtherImage(id)(img) {
      var i :| 0 <= i < |db.images| && db.images[i] == img;
    }
    FilterKeepsAll(db.images, OtherImage(id));
    forall c | c in db.comments ensures NotOnImage(id)(c) {
      if Consistent(db) {
        var i :| 0 <= i < |db.images| && db.images[i].imageId == c.imageId;
      }
    }
    FilterKeepsAll(db.comments, NotOnImage(id));
  }

  /** Deleting an id no comment carries changes nothing. */
  lemma DeleteAbsentComment(db: Db, id: Id)
    requires !HasComment(db.comments, id)
    ensures DeleteComment(db, id) == db
  {
    forall c | c in db.comments ensures OtherComment(id)(c) {
      var i :| 0 <= i < |db.comments| && db.comments[i] == c;
    }
    FilterKeepsAll(db.comments, OtherComment(id));
  }

  /** With unique ids, deleting the image at position `k` closes the gap:
      the images after it move up by one. */
  lemma DeleteImageAt(db: Db, k: nat)
    requires DistinctKeys(db.images, ImageIdOf)
    requires k < |db.images|
    ensures DeleteImage(db, db.images[k].imageId).images == db.images[..k] + db.images[k + 1..]
  {
    var id := db.images[k].imageId;
    forall j | 0 <= j < |db.images| && j != k ensures OtherImage(id)(db.images[j]) {
      if j < k {
        assert ImageIdOf(db.images[j]) != ImageIdOf(db.images[k]);
      } else {
        assert ImageIdOf(db.images[k]) != ImageIdOf(db.images[j]);
      }
    }
    FilterRemovesOne(db.images, OtherImage(id), k);
  }

  /** Adding an image under a fresh id and deleting that id restores a
      consistent store exactly. */
  lemma AddImageThenDelete(db: Db, title: string, author: string, url: string, id: Id, now: Timestamp)
    requires Consistent(db)
    requires !HasImage(db.images, id)
    ensures DeleteImage(AddImage(db, title, author, url, id, now).db, id) == db
  {
    var added := AddImage(db, title, author, url, id, now).db;
    DeleteAbsentImage(db, id);
    FilterConcat(db.images, [added.images[|db.images|]], OtherImage(id));
    assert added.images == db.images + [added.images[|db.images|]];
  }

  /** Adding a comment under a fresh id and deleting that id restores the
      store exactly. */
  lemma AddCommentThenDelete(db: Db, imageId: Id, author: string, content: string, id: Id, now: Timestamp)
    requires !HasComment(db.comments, id)
    ensures DeleteComment(AddComment(db, imageId, author, content, id, now).db, id) == db
  {
    var added := AddComment(db, imageId, author, content, id, now).db;
    DeleteAbsentComment(db, id);
    FilterConcat(db.comments, [added.comments[|db.comments|]], OtherComment(id));
    assert added.comments == db.comments + [added.comments[|db.comments|]];
  }

  /** A fresh image id keeps the store consistent. */
  lemma AddImageKeepsConsistent(db: Db, title: string, author: string, url: string, id: Id, now: Timestamp)
    requires Consistent(db)
    requires !HasImage(db.images, id)
    ensures Consistent(AddImage(db, title, author, url, id, now).db)
  {
    var r := AddImage(db, title, author, url, id, now).db;
    forall i, j | 0 <= i < j < |r.images| ensures ImageIdOf(r.images[i]) != ImageIdOf(r.images[j]) {
      assert r.images[i] == db.images[i];
      if j < |db.images| {
        assert r.images[j] == db.images[j];
      }
    }
    forall c | c in r.comments ensures HasImage(r.images, c.imageId) {
      var i :| 0 <= i < |db.images| && db.images[i].imageId == c.imageId;
      assert r.images[i] == db.images[i];
    }
  }

  /** A fresh comment id on a stored image keeps the store consistent. */
  lemma AddCommentKeepsConsistent(db: Db, imageId: Id, author: string, content: string, id: Id, now: Timestamp)
    requires Consistent(db)
    requires HasImage(db.images, imageId)
    requires !HasComment(db.comments, id)
    ensures Consistent(AddComment(db, imageId, author, content, id, now).db)
  {
    var r := AddComment(db, imageId, author, content, id, now).db;
    forall i, j | 0 <= i < j < |r.comments| ensures CommentIdOf(r.comments[i]) != CommentIdOf(r.comments[j]) {
      assert r.comments[i] == db.comments[i];
      if j < |db.comments| {
        assert r.comments[j] == db.comments[j];
      }
    }
    forall c | c in r.comments ensures HasImage(r.images, c.imageId) {
      if c in db.comments {
      } else {
        assert c == r.comments[|db.comments|];
      }
    }
  }

  /** Deleting an image, cascade included, keeps the store consistent: no
      comment is left pointing at the deleted image. */
  lemma DeleteImageKeepsConsistent(db: Db, id: Id)
    requires Consistent(db)
    ensures Consistent(DeleteImage(db, id))
  {
    var r := DeleteImage(db, id);
    assert DistinctKeys(r.images, ImageIdOf) by {
      FilterDistinct(db.images, OtherImage(id), ImageIdOf);
    }
    assert DistinctKeys(r.comments, CommentIdOf) by {
      FilterDistinct(db.comments, NotOnImage(id), CommentIdOf);
    }
    DeleteImageKeepsOwners(db, id);
  }

  /** After a cascading delete every remaining comment still has its
      image. */
  lemma DeleteImageKeepsOwners(db: Db, id: Id)
    requires forall c :: c in db.comments ==> HasImage(db.images, c.imageId)
    ensures var r := DeleteImage(db, id); forall c :: c in r.comments ==> HasImage(r.images, c.imageId)
  {
    var r := DeleteImage(db, id);
    forall c | c in r.comments ensures HasImage(r.images, c.imageId) {
      assert c in db.comments && c.imageId != id;
      var i :| 0 <= i < |db.images| && db.images[i].imageId == c.imageId;
      var img := db.images[i];
      assert img in r.images;
      var j :| 0 <= j < |r.images| && r.images[j] == img;
    }
  }

  /** Deleting a comment keeps the store consistent. */
  lemma DeleteCommentKeepsConsistent(db: Db, id: Id)
    requires Consistent(db)
    ensures Consistent(DeleteComment(db, id))
  {
    FilterDistinct(db.comments, OtherComment(id), CommentIdOf);
  }
}
