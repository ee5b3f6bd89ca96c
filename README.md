# Comment service: a verified model

This project models the comment controller of a small social-media backend.
Users comment on media items, delete or edit their own comments, and like or
unlike comments. Administrators can delete or edit any comment. There are
eight handlers:

- `getComments`
- `getCommentsOfMedia`
- `postMyComment`
- `deleteMyComment`
- `deleteComment`
- `updateMyComment`
- `updateComment`
- `updateCommentLikes`

Most handlers look up what they refer to and check that it exists.
`updateComment` does no lookup, and `updateMyComment` does not check its
lookup's result. `deleteMyComment` and `updateMyComment` also check that
the caller wrote the comment; `postMyComment` has no comment to check yet and
only checks that the caller and the media item exist. Each handler makes at
most one change to the comment collection and answers with 200, 201, 403, 404
or 500.

Two Dafny modules:

- `LikeList` (`like_list.dfy`) covers the `likedBy` list and the like toggle.
  - `IndexOf` is the reference definition of `indexOf`.
  - `FindIndex` is the `indexOf` loop, proved to compute `IndexOf`.
  - `Toggle` is the push-or-splice step.
  - `RemoveFirst` is an independent definition of "drop the first
    occurrence".
  - Lemmas cover how the toggle behaves, the no-duplicates invariant and the
    involution property.
- `CommentService` (`comment_service.dfy`) covers the data and the handlers.
  - The data types: `Comment`, `Status` (with its HTTP code) and `Listing`.
  - The query `CommentsOfMedia`.
  - The class `CommentStore`. Its field `comments: map<CommentId, Comment>`
    is the comment collection. Its fields `users` and `media` are the user
    directory and the media catalogue. The listing handlers are functions
    that read the store. The mutating handlers are methods that change only
    `comments`. Their `ensures` clauses give the status and the whole new
    collection for every branch.
  - Every mutating method keeps two invariants: `LikesUnique` (no user
    liked a comment twice) and `ReferencesExist` (every comment names a known
    user and media item). It also keeps `OwnershipKept`: author and media
    item never change.
  - The method `Session` runs a typical sequence of calls: post, like,
    unlike, a refused delete, an edit, and a post to an unknown media item.
    Its contract gives the status codes that sequence returns.

Behaviour that follows the code as written:

- `updateMyComment` on an id that does not exist answers 500, not 404, and
  leaves the store unchanged. The handler reads `commentedBy` from the lookup
  result without a null check, and its `catch` block turns the resulting
  exception into a 500. A controlled 404 would be the safer answer; the
  model keeps the code's 500.
- `updateComment` answers 200 even when no comment has the given id. In that
  case nothing changes.
- `getComments` and `getCommentsOfMedia` always answer 200. The query result
  is an array, and an array is never falsy, so their 404 branches cannot run.
- Two toggles restore the caller's membership when the list has no
  duplicates (`ToggleTwiceRestoresMembership`). With duplicates this can
  fail: `DuplicateLikeBreaksRestore` shows it on `[x, x]`. No handler checks
  for duplicates. The model makes "no duplicates" an invariant that every
  handler preserves, and `LikeTwice` uses it to show that two like requests
  in a row by one caller restore that caller's like.

Inputs the model takes as parameters:

- The caller id is a parameter. The source reads it from the request's
  `res.locals.user.id`.
- The id of a new comment is a parameter, `freshId`. The caller must supply
  one that is not empty and not in the store yet, which is what the
  database's id generator guarantees.

## Model

| member | source | states |
|---|---|---|
| LikeList.IndexOf | src/controllers/comment.controller.js:172 | the result is -1 exactly when the caller is absent; otherwise it indexes the caller and no earlier element is the caller |
| LikeList.FindIndex | src/controllers/comment.controller.js:172 | the scanning loop returns `IndexOf`: -1 iff absent, else the first position holding the caller |
| LikeList.RemoveFirstDropsOneCopy | src/controllers/comment.controller.js:176 | removing the first occurrence takes exactly one copy of the caller out of the multiset of elements |
| LikeList.SpliceAtIndexOfIsRemoveFirst | src/controllers/comment.controller.js:172-176 | `splice(index, 1)` at the `indexOf` position is the same list as removing the first occurrence |
| LikeList.Toggle | src/controllers/comment.controller.js:172-177 | the push-or-splice step: the list grows by one when the caller is absent (and then holds the caller) and shrinks by one when present; `ToggleCases` states its behaviour in full |
| LikeList.ToggleCases | src/controllers/comment.controller.js:172-177 | absent caller: old list with the caller appended at the end; present caller: exactly the first occurrence removed, the rest in their original order |
| LikeList.ToggleKeepsOthers | src/controllers/comment.controller.js:172-177 | a toggle leaves every other user's membership as it was |
| LikeList.UnlikeRemovesCaller | src/controllers/comment.controller.js:175-176 | on a list without duplicates, the splice leaves the caller absent |
| LikeList.ToggleMembership | src/controllers/comment.controller.js:172-177 | only the caller's membership changes; unliked becomes liked, and liked becomes unliked when the list has no duplicates |
| LikeList.TogglePreservesNoDup | src/controllers/comment.controller.js:172-178 | a list without duplicates has none after a toggle |
| LikeList.ToggleTwiceRestoresMembership | src/controllers/comment.controller.js:172-178 | with no duplicates, two toggles by the same caller restore whether the caller likes the comment |
| LikeList.ToggleTwiceFromUnliked | src/controllers/comment.controller.js:172-178 | starting from "not liked", two toggles restore the exact list |
| LikeList.DuplicateLikeBreaksRestore | src/controllers/comment.controller.js:172-177 | on `[x, x]`: the caller is still listed after an unlike and is gone after the second toggle |
| CommentService.Status.Code | src/controllers/comment.controller.js:11-186 | the code passed to `res.status(...)`: one of 200, 201, 403, 404, 500; 404 exactly for a not-found answer and 500 exactly for an internal error |
| CommentService.CommentsOfMedia | src/controllers/comment.controller.js:22 | the result holds exactly the stored comments whose media item is the given one, unchanged |
| CommentService.MediaListingsPartition | src/controllers/comment.controller.js:22-28 | a comment is listed under its own media item and under no other |
| CommentService.AddedCommentIsListed | src/controllers/comment.controller.js:20-57 | after a comment is added under a fresh id, its media item's listing gains exactly that comment and other listings are unchanged |
| CommentService.CommentStore.GetComments | src/controllers/comment.controller.js:7-18 | status 200 and exactly the stored comments |
| CommentService.CommentStore.GetCommentsOfMedia | src/controllers/comment.controller.js:20-33 | status 200 and exactly the comments of that media item; an empty result when none match, never 404 |
| CommentService.CommentStore.PostMyComment | src/controllers/comment.controller.js:36-65 | unknown user: 404, nothing created (checked before media); unknown media: 404, nothing created; otherwise 201 and one new comment with the given text, media, author and no likes; nothing else changes |
| CommentService.CommentStore.DeleteMyComment | src/controllers/comment.controller.js:67-93 | unknown comment: 404; another author: 403; both leave the store unchanged; otherwise 200 and exactly that id removed |
| CommentService.CommentStore.DeleteComment | src/controllers/comment.controller.js:95-112 | unknown comment: 404 and no change; otherwise 200 and exactly that id removed, whoever wrote it |
| CommentService.CommentStore.UpdateMyComment | src/controllers/comment.controller.js:114-140 | empty id: 404; unknown id: 500 (the unchecked null); another author: 403; all three leave the store unchanged; otherwise 200 and only that comment's text replaced |
| CommentService.CommentStore.UpdateComment | src/controllers/comment.controller.js:142-160 | empty id: 404 and no change; otherwise 200; a stored comment gets the new text, and an unknown id leaves the store unchanged |
| CommentService.CommentStore.UpdateCommentLikes | src/controllers/comment.controller.js:162-188 | unknown comment: 404 and no change; otherwise 200, only that comment's `likedBy` becomes the toggled list, and the returned list is the stored one; the no-duplicates invariant is kept |
| CommentService.LikedTwiceInStore | src/controllers/comment.controller.js:172-178 | a store whose comment was toggled twice by one caller has the same ids; the caller's like is as before when that list had no duplicates, and the whole store is as before when the caller had not liked it |
| CommentService.CommentStore.LikeTwice | src/controllers/comment.controller.js:162-188 | two like requests by one caller: both 404 and no change for an unknown comment; otherwise both 200, and only that comment's `likedBy` changes, to the list toggled twice; on a store without duplicate likes the caller's like is as before; from "not liked" the whole store is as before; both invariants and every author and media item are kept |
| CommentService.Session | src/controllers/comment.controller.js:36-188 | post, like, unlike, another user's delete, the author's edit and a post to an unknown media item answer 201, 200, 200, 403, 200, 404 |

## Left out

- Store failures are not modelled. In the source, any failed database call
  (connection loss, validation error, a missing `text` violating the
  schema) is caught and answered with 500. The model has no such failures.
  The only 500 it produces is the deterministic one from `updateMyComment`.
- The request body's `text` is always present in the model. In the source,
  a request without `text` still reaches `updateOne` in `updateMyComment`
  and `updateComment` (lines 128-131 and 148-151). `updateOne` does not
  validate by default, so those handlers answer 200 rather than 500. The
  model does not capture an absent `text`.
- Malformed ids are not modelled. In the source, an id that is not a valid
  database id makes the lookup throw a cast error, which surfaces as 500.
  The model treats ids as opaque strings, so an unknown id is simply not
  found.
- Concurrency is left out. The handlers are async, and two concurrent
  toggles by one user can race and lose an update. Each model method runs
  atomically.
- Timestamps (`createdAt`, `updatedAt`), the `save()` round trip and id
  generation are left out. Id generation is the `freshId` parameter. The
  initial `likedBy` is an empty list. That matches the database's default
  for an array field; the comment schema itself is not part of this model.
- Logging, JSON serialisation and the exact message texts are left out. The
  two 404 answers of `postMyComment` stay distinguishable through
  `NotFound(UserEntity)` and `NotFound(MediaEntity)`.
- The order of `getComments` results is not modelled: the store is a map,
  and the source leaves order to the database.
- The user account schema (`src/models/user.model.js`) is not part of this
  model. The service only asks whether a user id exists.
