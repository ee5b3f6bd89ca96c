/** The comment service: eight request handlers over an in-memory comment
    collection, a user directory and a media catalogue. Most handlers check
    the existence of what they refer to (and `deleteMyComment` and
    `updateMyComment` also check that the caller wrote the comment);
    `updateComment` does no lookup, and `updateMyComment` does not check its
    lookup's result. Each performs at
    most one change to the comment collection and answers with a status code
    and a payload. */
module CommentService {
  import LikeList

  /** Identifiers are compared by value (the stored reference is turned into
      a string before it is compared with the caller's id). */
  type UserId = string
  type MediaId = string
  type CommentId = string

  /** A stored comment; its id is its key in the store. */
  datatype Comment = Comment(
    text: string,
    commentedMedia: MediaId,
    commentedBy: UserId,
    likedBy: seq<UserId>)

  /** What a 404 answer says could not be found. */
  datatype Entity = UserEntity | MediaEntity | CommentEntity

  /** The status of a handler's answer. */
  datatype Status = Ok | Created | Forbidden | NotFound(missing: Entity) | InternalError
  {
    /** The HTTP status code sent for this answer. */
    function Code(): (r: int)
      ensures r in {200, 201, 403, 404, 500}
      ensures r == 404 <==> NotFound?
      ensures r == 500 <==> InternalError?
    {
      match this
      case Ok => 200
      case Created => 201
      case Forbidden => 403
      case NotFound(_) => 404
      case InternalError => 500
    }
  }

  datatype Option<T> = None | Some(value: T)

  /** The answer of a listing handler: a status and the comments found, by id. */
  datatype Listing = Listing(status: Status, comments: map<CommentId, Comment>)

  /** The query `find({ commentedMedia: mediaId })`: the comments of one media item. */
  function CommentsOfMedia(store: map<CommentId, Comment>, mediaId: MediaId): (r: map<CommentId, Comment>)
    ensures forall id :: id in r <==> id in store && store[id].commentedMedia == mediaId
    ensures forall id :: id in r ==> r[id] == store[id]
  {
    map id | id in store && store[id].commentedMedia == mediaId :: store[id]
  }

  /** Every comment is listed under its own media item and under no other, so
      the per-media listings partition the store. */
  lemma MediaListingsPartition(store: map<CommentId, Comment>, id: CommentId, m: MediaId)
    requires id in store
    ensures id in CommentsOfMedia(store, m) <==> m == store[id].commentedMedia
    ensures id in CommentsOfMedia(store, store[id].commentedMedia)
  {
  }

  /** A comment added under a fresh id shows up in the listing of its media
      item, which otherwise stays the same; other media items' listings do not
      change at all. */
  lemma AddedCommentIsListed(store: map<CommentId, Comment>, id: CommentId, c: Comment, m: MediaId)
    requires id !in store
    ensures m == c.commentedMedia ==> CommentsOfMedia(store[id := c], m) == CommentsOfMedia(store, m)[id := c]
    ensures m != c.commentedMedia ==> CommentsOfMedia(store[id := c], m) == CommentsOfMedia(store, m)
  {
    var after := CommentsOfMedia(store[id := c], m);
    if m == c.commentedMedia {
      var expected := CommentsOfMedia(store, m)[id := c];
      assert after.Keys == expected.Keys;
    } else {
      assert after.Keys == CommentsOfMedia(store, m).Keys;
    }
  }

  /** The store after the same caller toggled one comment's likes twice: the
      caller's like is as before when that list had no duplicates, and the
      whole store is as before when the caller had not liked the comment. */
  lemma LikedTwiceInStore(before: map<CommentId, Comment>, id: CommentId, caller: UserId)
    requires id in before
    ensures var c := before[id];
            var after := before[id := c.(likedBy := LikeList.Toggle(LikeList.Toggle(c.likedBy, caller), caller))];
            after.Keys == before.Keys &&
            (LikeList.NoDup(c.likedBy) ==> (caller in after[id].likedBy <==> caller in c.likedBy)) &&
            (caller !in c.likedBy ==> after == before)
  {
    var c := before[id];
    if LikeList.NoDup(c.likedBy) {
      LikeList.ToggleTwiceRestoresMembership(c.likedBy, caller);
    }
    if caller !in c.likedBy {
      LikeList.ToggleTwiceFromUnliked(c.likedBy, caller);
      assert c.(likedBy := LikeList.Toggle(LikeList.Toggle(c.likedBy, caller), caller)) == c;
    }
  }

  /** Replacing one comment's like list changes no author and no media item. */
  lemma LikesChangeKeepsOwnership(before: map<CommentId, Comment>, id: CommentId, likes: seq<UserId>)
    requires id in before
    ensures OwnershipKept(before, before[id := before[id].(likedBy := likes)])
  {
  }

  /** A second update of the same key overrides the first. */
  lemma UpdateTwice<K, V>(m: map<K, V>, k: K, first: V, second: V)
    ensures m[k := first][k := second] == m[k := second]
  {
  }

  /** The author and the media item of a comment never change. */
  ghost predicate OwnershipKept(before: map<CommentId, Comment>, after: map<CommentId, Comment>) {
    forall id :: id in before && id in after ==>
      after[id].commentedBy == before[id].commentedBy &&
      after[id].commentedMedia == before[id].commentedMedia
  }

  /** The comment collection together with the two directories the service
      consults. Only `comments` is ever changed by a handler. */
  class CommentStore {
    var comments: map<CommentId, Comment>
    var users: set<UserId>
    var media: set<MediaId>

    /** No comment is liked twice by the same user. */
    ghost predicate LikesUnique()
      reads this
    {
      forall id :: id in comments ==> LikeList.NoDup(comments[id].likedBy)
    }

    /** Every comment refers to a known user and a known media item. */
    ghost predicate ReferencesExist()
      reads this
    {
      forall id :: id in comments ==>
        comments[id].commentedBy in users && comments[id].commentedMedia in media
    }

    constructor (users: set<UserId>, media: set<MediaId>)
      ensures this.users == users && this.media == media && comments == map[]
      ensures LikesUnique() && ReferencesExist()
    {
      this.users := users;
      this.media := media;
      comments := map[];
    }

    /** getComments: every stored comment, always with 200 (an array is never
        falsy, so the 404 answer cannot be given). */
    function GetComments(): (r: Listing)
      reads this
      ensures r.status == Ok && r.status.Code() == 200
      ensures forall id :: id in r.comments <==> id in comments
      ensures forall id :: id in r.comments ==> r.comments[id] == comments[id]
    {
      Listing(Ok, comments)
    }

    /** getCommentsOfMedia: exactly the comments of the given media item, with
        200 even when there are none. */
    function GetCommentsOfMedia(mediaId: MediaId): (r: Listing)
      reads this
      ensures r.status == Ok && r.status.Code() == 200
      ensures forall id :: id in r.comments <==> id in comments && comments[id].commentedMedia == mediaId
      ensures forall id :: id in r.comments ==> r.comments[id] == comments[id]
      ensures (forall id :: id in comments ==> comments[id].commentedMedia != mediaId) ==> r.comments == map[]
    {
      Listing(Ok, CommentsOfMedia(comments, mediaId))
    }

    /** postMyComment: the user is checked before the media item; on success a
        comment with the given text, media item and author and no likes is
        stored under `freshId`, the id the store allocates (never empty and
        never in use). */
    method PostMyComment(caller: UserId, mediaId: MediaId, text: string, freshId: CommentId)
      returns (status: Status, saved: Option<Comment>)
      requires freshId != "" && freshId !in comments
      modifies this`comments
      ensures caller !in users ==>
        status == NotFound(UserEntity) && saved == None && comments == old(comments)
      ensures caller in users && mediaId !in media ==>
        status == NotFound(MediaEntity) && saved == None && comments == old(comments)
      ensures caller in users && mediaId in media ==>
        status == Created && saved == Some(Comment(text, mediaId, caller, [])) &&
        comments == old(comments)[freshId := saved.value]
      ensures old(LikesUnique()) ==> LikesUnique()
      ensures old(ReferencesExist()) ==> ReferencesExist()
      ensures OwnershipKept(old(comments), comments)
    {
      var userFound := caller in users;
      var mediaFound := mediaId in media;
      if !userFound {
        return NotFound(UserEntity), None;
      }
      if !mediaFound {
        return NotFound(MediaEntity), None;
      }
      var c := Comment(text, mediaId, caller, []);
      comments := comments[freshId := c];
      status, saved := Created, Some(c);
    }

    /** deleteMyComment: 404 for an unknown comment, 403 when the caller is not
        its author; otherwise exactly that comment is removed. */
    method DeleteMyComment(caller: UserId, commentId: CommentId) returns (status: Status)
      modifies this`comments
      ensures commentId !in old(comments) ==>
        status == NotFound(CommentEntity) && comments == old(comments)
      ensures commentId in old(comments) && old(comments)[commentId].commentedBy != caller ==>
        status == Forbidden && comments == old(comments)
      ensures commentId in old(comments) && old(comments)[commentId].commentedBy == caller ==>
        status == Ok && comments == old(comments) - {commentId}
      ensures old(LikesUnique()) ==> LikesUnique()
      ensures old(ReferencesExist()) ==> ReferencesExist()
      ensures OwnershipKept(old(comments), comments)
    {
      if commentId !in comments {
        return NotFound(CommentEntity);
      }
      if comments[commentId].commentedBy != caller {
        return Forbidden;
      }
      comments := comments - {commentId};
      status := Ok;
    }

    /** deleteComment: removes any existing comment, whoever wrote it. */
    method DeleteComment(commentId: CommentId) returns (status: Status)
      modifies this`comments
      ensures commentId !in old(comments) ==>
        status == NotFound(CommentEntity) && comments == old(comments)
      ensures commentId in old(comments) ==>
        status == Ok && comments == old(comments) - {commentId}
      ensures old(LikesUnique()) ==> LikesUnique()
      ensures old(ReferencesExist()) ==> ReferencesExist()
      ensures OwnershipKept(old(comments), comments)
    {
      if commentId !in comments {
        return NotFound(CommentEntity);
      }
      comments := comments - {commentId};
      status := Ok;
    }

    /** updateMyComment: an empty id is answered with 404. The lookup result is
        then used without a null check, so an unknown id fails on the field
        access and is answered with 500; a comment of someone else gives 403.
        Otherwise only the text of that comment is replaced. */
    method UpdateMyComment(caller: UserId, commentId: CommentId, text: string) returns (status: Status)
      modifies this`comments
      ensures commentId == "" ==>
        status == NotFound(CommentEntity) && comments == old(comments)
      ensures commentId != "" && commentId !in old(comments) ==>
        status == InternalError && comments == old(comments)
      ensures commentId != "" && commentId in old(comments) && old(comments)[commentId].commentedBy != caller ==>
        status == Forbidden && comments == old(comments)
      ensures commentId != "" && commentId in old(comments) && old(comments)[commentId].commentedBy == caller ==>
        status == Ok && comments == old(comments)[commentId := old(comments)[commentId].(text := text)]
      ensures old(LikesUnique()) ==> LikesUnique()
      ensures old(ReferencesExist()) ==> ReferencesExist()
      ensures OwnershipKept(old(comments), comments)
    {
      if commentId == "" {
        return NotFound(CommentEntity);
      }
      if commentId !in comments {
        // `commentToUpdate` is null: reading `commentedBy` throws, and the
        // handler's catch block answers 500.
        return InternalError;
      }
      var found := comments[commentId];
      if found.commentedBy != caller {
        return Forbidden;
      }
      comments := comments[commentId := found.(text := text)];
      status := Ok;
    }

    /** updateComment: an empty id is answered with 404; otherwise the text of
        the comment with that id, if there is one, is replaced, and the answer
        is 200 either way. */
    method UpdateComment(commentId: CommentId, text: string) returns (status: Status)
      modifies this`comments
      ensures commentId == "" ==>
        status == NotFound(CommentEntity) && comments == old(comments)
      ensures commentId != "" ==> status == Ok
      ensures commentId != "" && commentId !in old(comments) ==> comments == old(comments)
      ensures commentId != "" && commentId in old(comments) ==>
        comments == old(comments)[commentId := old(comments)[commentId].(text := text)]
      ensures old(LikesUnique()) ==> LikesUnique()
      ensures old(ReferencesExist()) ==> ReferencesExist()
      ensures OwnershipKept(old(comments), comments)
    {
      if commentId == "" {
        return NotFound(CommentEntity);
      }
      if commentId in comments {
        comments := comments[commentId := comments[commentId].(text := text)];
      }
      status := Ok;
    }

    /** updateCommentLikes: 404 for an unknown comment; otherwise the caller is
        appended to `likedBy` when absent and its first occurrence is cut out
        when present, and the new list is returned. */
    method UpdateCommentLikes(caller: UserId, commentId: CommentId)
      returns (status: Status, likedBy: Option<seq<UserId>>)
      modifies this`comments
      ensures commentId !in old(comments) ==>
        status == NotFound(CommentEntity) && likedBy == None && comments == old(comments)
      ensures commentId in old(comments) ==>
        status == Ok &&
        comments == old(comments)[commentId := old(comments)[commentId].(
          likedBy := LikeList.Toggle(old(comments)[commentId].likedBy, caller))] &&
        likedBy == Some(comments[commentId].likedBy)
      ensures old(LikesUnique()) ==> LikesUnique()
      ensures old(ReferencesExist()) ==> ReferencesExist()
      ensures OwnershipKept(old(comments), comments)
    {
      if commentId !in comments {
        return NotFound(CommentEntity), None;
      }
      var comment := comments[commentId];
      var liked := comment.likedBy;
      var index := LikeList.FindIndex(liked, caller);
      if index == -1 {
        liked := liked + [caller];
      } else {
        liked := liked[..index] + liked[index + 1..];
      }
      if old(LikesUnique()) {
        LikeList.TogglePreservesNoDup(comment.likedBy, caller);
      }
      comments := comments[commentId := comment.(likedBy := liked)];
      status, likedBy := Ok, Some(liked);
    }

    /** Two like requests in a row by the same caller on the same comment. On a
        store whose like lists have no duplicates the caller's like is back to
        what it was; starting from "not liked" the whole store is back to what
        it was. */
    method LikeTwice(caller: UserId, commentId: CommentId)
      returns (first: Status, second: Status)
      modifies this`comments
      ensures commentId !in old(comments) ==>
        first == NotFound(CommentEntity) && second == NotFound(CommentEntity) &&
        comments == old(comments)
      ensures commentId in old(comments) ==>
        first == Ok && second == Ok && commentId in comments &&
        comments.Keys == old(comments).Keys
      ensures commentId in old(comments) ==>
        var c := old(comments)[commentId];
        comments == old(comments)[commentId := c.(likedBy := LikeList.Toggle(LikeList.Toggle(c.likedBy, caller), caller))]
      ensures commentId in old(comments) && old(LikesUnique()) ==>
        (caller in comments[commentId].likedBy <==> caller in old(comments)[commentId].likedBy)
      ensures commentId in old(comments) && caller !in old(comments)[commentId].likedBy ==>
        comments == old(comments)
      ensures old(LikesUnique()) ==> LikesUnique()
      ensures old(ReferencesExist()) ==> ReferencesExist()
      ensures OwnershipKept(old(comments), comments)
    {
      ghost var before := comments;
      var likes;
      first, likes := UpdateCommentLikes(caller, commentId);
      ghost var mid := comments;
      second, likes := UpdateCommentLikes(caller, commentId);
      if commentId in before {
        ghost var c := before[commentId];
        ghost var t := LikeList.Toggle(c.likedBy, caller);
        ghost var twice := c.(likedBy := LikeList.Toggle(t, caller));
        assert mid == before[commentId := c.(likedBy := t)];
        assert comments == mid[commentId := twice];
        UpdateTwice(before, commentId, c.(likedBy := t), twice);
        LikedTwiceInStore(before, commentId, caller);
        LikesChangeKeepsOwnership(before, commentId, twice.likedBy);
      }
    }
  }

  /** The walk-through of a typical session: U1 comments on M1, U2 likes and
      unlikes the comment, U2 may not delete it, and U1 edits it. The list of
      status codes is what the handlers answer, in order. */
  method Session(u1: UserId, u2: UserId, m1: MediaId, c1: CommentId) returns (codes: seq<int>)
    requires u1 != u2 && c1 != ""
    ensures codes == [201, 200, 200, 403, 200, 404]
  {
    var store := new CommentStore({u1, u2}, {m1});
    var posted, saved := store.PostMyComment(u1, m1, "hello", c1);
    assert saved == Some(Comment("hello", m1, u1, []));
    assert store.comments[c1].likedBy == [];
    assert LikeList.Toggle([], u2) == [u2];
    var liked, likes := store.UpdateCommentLikes(u2, c1);
    assert likes == Some([u2]);
    var unliked, likes' := store.UpdateCommentLikes(u2, c1);
    assert LikeList.IndexOf([u2], u2) == 0;
    assert likes' == Some([]);
    var refused := store.DeleteMyComment(u2, c1);
    assert c1 in store.GetComments().comments;
    var edited := store.UpdateMyComment(u1, c1, "edited");
    assert store.GetCommentsOfMedia(m1).comments[c1].text == "edited";
    assert |m1 + "?"| != |m1| && |c1 + "?"| != |c1|;
    var missing, nothing := store.PostMyComment(u1, m1 + "?", "x", c1 + "?");
    assert store.comments.Keys == {c1};
    codes := [posted.Code(), liked.Code(), unliked.Code(), refused.Code(), edited.Code(), missing.Code()];
  }
}
