# Board comments of ST4R-BE, modelled in Dafny

This project models two parts of the ST4R-BE back end.

The first is the comment service of a board. It does four things:
- It creates comments. A comment is either top level (depth 0) or a reply one level below its parent.
- It lists a board's comments as a forest of nested nodes.
- It edits a comment and soft-deletes a comment, but only for the comment's author.
- It hard-deletes every comment of a board.

The second is the validator of a board title.

## Modules

The project has seven modules:
- `Wrappers` holds `Option`, `Result` and `Outcome`.
- `CommentErrors` holds the exceptions of the comment service, used by both the listing and the service operations.
- `BoardTitle` models the title record and its length check of 2 to 30 characters.
- `CommentStore` models the comment repository as a sequence of rows in save order. Each repository query is a function over that sequence. A store invariant holds the following facts:
  - ids and creation stamps increase in save order;
  - every reply points at a parent of the same board that is one level shallower.

  Lemmas show that every write of the service keeps this invariant.
- `CommentTree` holds the listing:
  - `Node` plays the role of `CommentDTO`;
  - `Allocate` is `findParentAndAllocate`;
  - `Levels` and `Listing` form the depth loop of `getComments`.

  It also holds the lemmas about the resulting forest.
- `Boards` models the board's comment counter.
- `Comments` holds the `CommentService` class. The class keeps the rows, the next id and the clock as fields. Its methods change these fields and carry the loops of the Java service. The reading methods are proved equal to the functions that specify them, and the writing methods state the new store in full.

## Parents are searched among top-level nodes only

The listing looks for a reply's parent only among the top-level nodes of the list it is building. Replies are attached as children and never added to that list. A reply to a reply (depth 2 or more) therefore never finds its parent, and the listing throws `InternalServerException`.

The model keeps this behaviour:
- `CommentTree.ListingFailsBeyondDepthOne` proves it for every store that satisfies the invariant;
- `CommentTree.ListingShallow` proves that a board whose comments are all at depth 0 or 1 lists correctly.

The creation path still accepts deeper replies. It computes the depth as the parent's depth plus one.

## Model

| member | source | states |
|---|---|---|
| BoardTitle.ValidateTitle | src/main/java/star/home/board/model/vo/Title.java:10-23 | passes exactly on a non-null title of 2 to 30 characters; a null, too short or too long title fails with `IllegalArgument` |
| BoardTitle.NewTitle | src/main/java/star/home/board/model/vo/Title.java:6-15 | the record is built exactly when validation passes and holds the given value unchanged, and its type `Title` admits only values of 2 to 30 characters; otherwise the validator's exception |
| CommentStore.FindByIdAndBoard | src/main/java/star/home/comment/service/CommentService.java:48-50 | `getCommentByIdAndBoardId`: the result is a stored comment with that id and board; empty exactly when no such comment exists |
| CommentStore.IndexOf | src/main/java/star/home/comment/service/CommentService.java:95-96 | the located row has the id and board asked for; none exactly when no row matches |
| CommentStore.MaxDepth | src/main/java/star/home/comment/service/CommentService.java:73 | `findTopDepthByBoardId`: null exactly for a board without comments; otherwise a depth one of its comments has, and no comment of the board is deeper |
| CommentStore.AtDepth | src/main/java/star/home/comment/service/CommentService.java:80-81 | the per-depth query: exactly the board's comments at that depth, in ascending creation order when the store is |
| CommentStore.Filter | src/main/java/star/home/comment/service/CommentService.java:80-81 | as a set, exactly the rows the predicate accepts; no more of them than the input; in ascending creation order whenever the input is |
| CommentStore.WithoutBoard | src/main/java/star/home/comment/service/CommentService.java:107 | `deleteCommentsByBoardId`: as a set, exactly the rows of other boards remain, in ascending creation order whenever the store is |
| CommentStore.StoredIsLinked | src/main/java/star/home/comment/service/CommentService.java:45-60 | every stored comment is top level or linked to a parent of its board one level up |
| CommentStore.IdsUnique | src/main/java/star/home/comment/service/CommentService.java:63 | in a store that keeps the invariant, two rows with the same id are the same row |
| CommentStore.InsertKeepsInvariant | src/main/java/star/home/comment/service/CommentService.java:54-63 | saving a linked comment with the next id and stamp keeps the store invariant |
| CommentStore.ReplaceKeepsInvariant | src/main/java/star/home/comment/service/CommentService.java:102 | replacing a row by the same comment with other content or flag keeps the store invariant |
| CommentStore.ParentSurvivesReplace | src/main/java/star/home/comment/service/CommentService.java:119 | such a replacement keeps every parent link, including the replaced comment's own |
| CommentStore.DeleteBoardKeepsInvariant | src/main/java/star/home/comment/service/CommentService.java:106-108 | deleting a whole board keeps the invariant: no reply of another board loses its parent |
| CommentStore.AtDepthEmpty | src/main/java/star/home/comment/service/CommentService.java:80-81 | a depth at which the board has no comment yields an empty level |
| Comments.NewDepth | src/main/java/star/home/comment/service/CommentService.java:45-52 | depth 0 without a parent id; otherwise the depth of the same-board parent plus one, and `InvalidIdComment` exactly when that parent does not exist |
| Comments.Authorize | src/main/java/star/home/comment/service/CommentService.java:95-100 | `InvalidIdComment` exactly when the board has no such comment; `YouAreNotAuthor` exactly when it exists with another author; otherwise the row of the comment, whose author is the requester |
| Comments.CommentService.CreateComment | src/main/java/star/home/comment/service/CommentService.java:41-66 | on a bad parent id nothing changes; otherwise the counter rises by one and exactly one comment is appended with the computed depth, the next id and stamp, and that id is returned; the store invariant is kept |
| Comments.CommentService.GetComments | src/main/java/star/home/comment/service/CommentService.java:70-90 | the loop over depths 0 to the greatest depth (none for an empty board) returns exactly the listing `Listing` |
| Comments.CommentService.AssembleLevel | src/main/java/star/home/comment/service/CommentService.java:80-87 | one pass of the depth loop equals the level step `Level`: appending nodes at depth 0, the allocation below it |
| Comments.CommentService.AddTopLevel | src/main/java/star/home/comment/service/CommentService.java:83-85 | the result is the list followed by one fresh node per top-level comment, in order |
| Comments.CommentService.UpdateComment | src/main/java/star/home/comment/service/CommentService.java:93-103 | on the two check failures nothing changes; otherwise only that comment's content is replaced; the store invariant is kept |
| Comments.CommentService.HardDeleteComments | src/main/java/star/home/comment/service/CommentService.java:106-108 | the rows become exactly the rows of other boards, and none of the board remains; the invariant is kept |
| Comments.CommentService.SoftDeleteComment | src/main/java/star/home/comment/service/CommentService.java:111-120 | on the two check failures nothing changes; otherwise only that comment's deprecated flag is set and the row stays |
| Comments.CommentService.IncreaseCommentCount | src/main/java/star/home/comment/service/CommentService.java:122-130 | the board's counter rises by exactly one |
| Boards.Board.IncreaseCommentCount | src/main/java/star/home/comment/service/CommentService.java:128 | the counter rises by exactly one |
| Comments.CommentService.FindParentAndAllocate | src/main/java/star/home/comment/service/CommentService.java:132-146 | the loop returns exactly `Allocate`: each comment attached in order, stopping with the first error |
| Comments.CommentService.FindParent | src/main/java/star/home/comment/service/CommentService.java:137-141 | the stream search returns the first top-level position holding the parent id, or none |
| CommentTree.FirstWithId | src/main/java/star/home/comment/service/CommentService.java:137-139 | the found node holds the id and no earlier node does; none exactly when no node holds it |
| CommentTree.Leaves | src/main/java/star/home/comment/service/CommentService.java:84 | one childless node per comment, at the same position |
| CommentTree.RepliesTo | src/main/java/star/home/comment/service/CommentService.java:137-143 | as a set, exactly the level's replies to the given id, in ascending creation order whenever the level is |
| CommentTree.LeavesAppend | src/main/java/star/home/comment/service/CommentService.java:84 | building nodes for two runs of comments equals building them for the joined run |
| CommentTree.FirstWithIdSameIds | src/main/java/star/home/comment/service/CommentService.java:137-141 | the search depends only on the ids of the top-level nodes, not on their children |
| CommentTree.AttachedToSameIds | src/main/java/star/home/comment/service/CommentService.java:137-143 | which comments land under a node depends only on the ids of the top-level nodes |
| CommentTree.AllocateSucceedsIff | src/main/java/star/home/comment/service/CommentService.java:132-146 | the allocation succeeds exactly when every comment names a parent held by a top-level node; a failure is `NullParent` or `InternalServer`, and only `InternalServer` when every comment names a parent |
| CommentTree.AllocateKeepsRoots | src/main/java/star/home/comment/service/CommentService.java:132-146 | a successful allocation keeps the number and the comments of the top-level nodes |
| CommentTree.AllocateChildrenAt | src/main/java/star/home/comment/service/CommentService.java:137-143 | each top-level node gains, in level order, exactly the comments whose search ended at it |
| CommentTree.AddChildCount | src/main/java/star/home/comment/service/CommentService.java:143 | adding a child adds exactly one reply to the forest |
| CommentTree.AllocateKeepsEveryComment | src/main/java/star/home/comment/service/CommentService.java:134-145 | a successful allocation places every comment of the level: the reply count grows by the level's size |
| CommentTree.LastDepthAttained | src/main/java/star/home/comment/service/CommentService.java:73-77 | the loop bound is below 0 exactly for an empty board; otherwise it is the depth of one of the board's comments, and no comment of the board lies deeper |
| CommentTree.ListingFromDepthOne | src/main/java/star/home/comment/service/CommentService.java:79-87 | for a non-empty board the listing is the top-level nodes carried through depths 1 to the bound |
| CommentTree.LevelErrorKind | src/main/java/star/home/comment/service/CommentService.java:83-87 | when every reply names a parent, a failing level fails with `InternalServer` |
| CommentTree.LevelsErrorKind | src/main/java/star/home/comment/service/CommentService.java:79-88 | the same for the rest of the depth loop |
| CommentTree.ListingErrorKind | src/main/java/star/home/comment/service/CommentService.java:70-90 | under the store invariant the listing can only fail with `InternalServer` |
| CommentTree.LevelsKeepRoots | src/main/java/star/home/comment/service/CommentService.java:79-88 | levels below the top keep the number and the comments of the top-level nodes |
| CommentTree.ListingEmptyBoard | src/main/java/star/home/comment/service/CommentService.java:73-79 | a board without comments lists as the empty forest |
| CommentTree.ListingRoots | src/main/java/star/home/comment/service/CommentService.java:79-87 | a successful listing's top-level nodes are exactly the board's depth-0 comments, oldest first |
| CommentTree.InvariantRepliesHaveParents | src/main/java/star/home/comment/service/CommentService.java:45-52 | in a store that keeps the invariant every reply names its parent, so the null dereference never happens |
| CommentTree.TopLevelHoldsNoDeepParent | src/main/java/star/home/comment/service/CommentService.java:137-141 | no top-level node holds the parent of a comment at depth 2 or more |
| CommentTree.DeepLevelsFail | src/main/java/star/home/comment/service/CommentService.java:79-88 | if the roots hold no parent of any deeper comment and some deeper comment exists within the bound, the remaining loop fails with `InternalServer` |
| CommentTree.ListingFailsBeyondDepthOne | src/main/java/star/home/comment/service/CommentService.java:70-146 | any board with a comment at depth 2 or more fails to list, with `InternalServer` |
| CommentTree.TopLevelAfterReplies | src/main/java/star/home/comment/service/CommentService.java:83-87 | after the depth-1 pass the top-level nodes still hold exactly the board's depth-0 comments, one node each, oldest first |
| CommentTree.AttachedToDistinct | src/main/java/star/home/comment/service/CommentService.java:137-141 | with distinct top-level ids, the comments landing under a node are exactly its replies |
| CommentTree.ReplyParentIsTopLevel | src/main/java/star/home/comment/service/CommentService.java:45-52 | the parent of every depth-1 comment is one of the top-level nodes |
| CommentTree.RepliesFindParents | src/main/java/star/home/comment/service/CommentService.java:132-146 | under the invariant, the depth-1 allocation succeeds |
| CommentTree.DistinctRootIds | src/main/java/star/home/comment/service/CommentService.java:84 | nodes built from comments in creation order have distinct ids |
| CommentTree.RepliesAllocate | src/main/java/star/home/comment/service/CommentService.java:132-146 | the depth-1 allocation gives each top-level comment a node holding exactly its replies, oldest first |
| CommentTree.ListingTopLevelOnly | src/main/java/star/home/comment/service/CommentService.java:79-89 | a board with only top-level comments lists each of them as a childless node, oldest first |
| CommentTree.ListingShallow | src/main/java/star/home/comment/service/CommentService.java:70-90 | a board whose comments are all at depth 0 or 1 lists successfully: each top-level comment in creation order, holding exactly its replies in creation order |

## Left out

- Member lookup (`memberService.getMemberEntityById`, which throws `MemberNotFoundException`) is not modelled. The author is given as an id.
- The `@Retryable` retry on optimistic-lock failure, its back-off and the `entityManager.flush()` in `increaseCommentCount` are not modelled. These are concurrency and persistence concerns, so the model is a single increment.
- Transactions and their rollback are not modelled. In the model an operation that fails changes nothing. `createComment` fails before it writes anything, so this matches the Java service.
- JPA managed entities and their aliasing are not modelled. A comment is a value row, and an update replaces the row in the store.
- The mutable `CommentDTO` list is modelled as a value. `addChildCommentDTO` becomes an update of the sequence at the found position.
- The database id generator and the `createdAt` clock are counters in the service. Both advance on every save.
- Comments.CommentService.GetComments: the ordering by `createdAt` is the store's save order. The invariant shows the two agree.
- The message text of `InternalServerException` is not modelled. The model keeps only the kind of exception.
- Java `Long` and `int` widths are not modelled: ids, depths and the counter are unbounded naturals, so overflow is out of scope.
- BoardTitle.ValidateTitle: the title length counts Dafny characters, not UTF-16 code units as `String.length()` does.
- `Comment.updateComment` and `markAsDeprecated` are not part of this model. Their effect is taken to be setting the content and setting the deprecated flag.
- A reply whose parent reference is null would make `getParentComment().getId()` throw a `NullPointerException`. The model returns this as the `NullParent` error. Under the store invariant it cannot occur.
