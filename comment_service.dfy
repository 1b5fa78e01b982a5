/** The comment service: creation, listing, editing and deletion of the
    comments of a board, over the in-memory comment store. */
module Comments {
  import opened Wrappers
  import opened CommentStore
  import opened CommentTree
  import opened CommentErrors
  import opened Boards

  /** The depth a new comment receives: top level without a parent, one
      below its parent otherwise, where the parent must be a comment of the
      same board (`InvalidIdComment` if not). */
  function NewDepth(rows: seq<Comment>, boardId: nat, parentId: Option<nat>): (r: Result<nat, CommentError>)
    ensures parentId.None? ==> r == Ok(0)
    ensures parentId.Some? ==>
      (r.Ok? <==> exists p :: p in rows && p.id == parentId.value && p.boardId == boardId)
    ensures r.Ok? && parentId.Some? ==>
      exists p :: p in rows && p.id == parentId.value && p.boardId == boardId && r.value == p.depth + 1
    ensures r.Err? ==> r.error == InvalidIdComment
  {
    if parentId.None? then Ok(TopLevelCommentDepth)
    else
      match FindByIdAndBoard(rows, parentId.value, boardId)
      case None => Err(InvalidIdComment)
      case Some(parent) => Ok(parent.depth + 1)
  }

  /** The checks shared by update and soft delete: the comment must exist in
      the board (`InvalidIdComment`), then the requester must be its author
      (`YouAreNotAuthor`). On success, the position of the comment. */
  function Authorize(rows: seq<Comment>, boardId: nat, commentId: nat, requesterId: nat)
    : (r: Result<nat, CommentError>)
    ensures r.Ok? ==>
      r.value < |rows| && rows[r.value].id == commentId &&
      rows[r.value].boardId == boardId && rows[r.value].authorId == requesterId
    ensures r == Err(InvalidIdComment) <==>
      forall c :: c in rows ==> !(c.id == commentId && c.boardId == boardId)
    ensures r == Err(YouAreNotAuthor) <==>
      FindByIdAndBoard(rows, commentId, boardId).Some? &&
      FindByIdAndBoard(rows, commentId, boardId).value.authorId != requesterId
    ensures r.Err? ==> r.error == InvalidIdComment || r.error == YouAreNotAuthor
  {
    match IndexOf(rows, commentId, boardId)
    case None => Err(InvalidIdComment)
    case Some(k) => if rows[k].authorId != requesterId then Err(YouAreNotAuthor) else Ok(k)
  }

  class CommentService {
    /** The comment rows, in save order. */
    var rows: seq<Comment>
    /** The id the store gives the next saved comment. */
    var nextId: nat
    /** The creation stamp the store gives the next saved comment. */
    var clock: nat

    ghost predicate Valid()
      reads this
    {
      StoreInvariant(rows, nextId, clock)
    }

    constructor ()
      ensures Valid() && rows == []
    {
      rows, nextId, clock := [], 0, 0;
    }

    /** `createComment`: computes the depth, then increases the board's
        counter by one and saves exactly one new comment; a parent id that is
        not a comment of the board throws before anything changes. */
    method CreateComment(memberId: nat, parentCommentId: Option<nat>, content: string, board: Board)
      returns (r: Result<nat, CommentError>)
      requires Valid()
      modifies this, board
      ensures Valid()
      ensures match NewDepth(old(rows), board.id, parentCommentId)
        case Err(e) =>
          r == Err(e) && rows == old(rows) && nextId == old(nextId) && clock == old(clock) &&
          board.commentCount == old(board.commentCount)
        case Ok(depth) =>
          r == Ok(old(nextId)) && board.commentCount == old(board.commentCount) + 1 &&
          rows == old(rows) + [Comment(old(nextId), board.id, parentCommentId, memberId, depth, content, old(clock), false)] &&
          nextId == old(nextId) + 1 && clock == old(clock) + 1
    {
      var depth := NewDepth(rows, board.id, parentCommentId);
      if depth.Err? {
        return Err(depth.error);
      }
      IncreaseCommentCount(board);
      // `commentRepository.save`: the store stamps the id and creation time.
      var comment := Comment(nextId, board.id, parentCommentId, memberId, depth.value, content, clock, false);
      InsertKeepsInvariant(rows, nextId, clock, comment);
      rows, nextId, clock := rows + [comment], nextId + 1, clock + 1;
      return Ok(comment.id);
    }

    /** `getComments`: the board's comments, level by level from depth 0 to
        the board's greatest depth, assembled into the reply forest. */
    method GetComments(boardId: nat) returns (r: Result<seq<Node>, CommentError>)
      ensures r == Listing(rows, boardId)
    {
      var forest: seq<Node> := [];
      // `findTopDepthByBoardId`, with -1 for a board without comments.
      var maxDepth: int := LastDepth(rows, boardId);
      var i: nat := TopLevelCommentDepth;
      while i <= maxDepth
        invariant Listing(rows, boardId) == Levels(rows, boardId, i, maxDepth, forest)
        decreases maxDepth + 1 - i
      {
        var placed := AssembleLevel(boardId, i, forest);
        if placed.Err? {
          return Err(placed.error);
        }
        forest := placed.value;
        i := i + 1;
      }
      return Ok(forest);
    }

    /** One pass of the loop of `getComments`: the level's comments, fetched
        oldest first, become top-level nodes at depth 0 and are allocated
        under the top-level nodes below it. */
    method AssembleLevel(boardId: nat, d: nat, forest: seq<Node>) returns (r: Result<seq<Node>, CommentError>)
      ensures r == Level(rows, boardId, d, forest)
    {
      var level := AtDepth(rows, boardId, d);
      if d == TopLevelCommentDepth {
        var top := AddTopLevel(forest, level);
        return Ok(top);
      }
      r := FindParentAndAllocate(level, forest);
    }

    /** The top-level step of `getComments`: one fresh node per comment of
        the level, appended in order. */
    method AddTopLevel(forest: seq<Node>, level: seq<Comment>) returns (r: seq<Node>)
      ensures r == forest + Leaves(level)
    {
      r := forest;
      var j := 0;
      while j < |level|
        invariant 0 <= j <= |level|
        invariant r == forest + Leaves(level[..j])
      {
        LeavesAppend(level[..j], [level[j]]);
        assert level[..j + 1] == level[..j] + [level[j]];
        r := r + [Leaf(level[j])];
        j := j + 1;
      }
      assert level[..|level|] == level;
    }

    /** `updateComment`: after the existence and authorship checks, replaces
        the comment's content and nothing else. */
    method UpdateComment(boardId: nat, commentId: nat, memberId: nat, content: string)
      returns (r: Outcome<CommentError>)
      requires Valid()
      modifies this
      ensures Valid() && nextId == old(nextId) && clock == old(clock)
      ensures match Authorize(old(rows), boardId, commentId, memberId)
        case Err(e) => r == Fail(e) && rows == old(rows)
        case Ok(k) => r == Pass && rows == old(rows)[k := old(rows)[k].(content := content)]
    {
      var found := Authorize(rows, boardId, commentId, memberId);
      if found.Err? {
        return Fail(found.error);
      }
      var k := found.value;
      ReplaceKeepsInvariant(rows, nextId, clock, k, rows[k].(content := content));
      rows := rows[k := rows[k].(content := content)];
      return Pass;
    }

    /** `hardDeleteComments`: removes every comment of the board. */
    method HardDeleteComments(boardId: nat)
      requires Valid()
      modifies this
      ensures Valid() && nextId == old(nextId) && clock == old(clock)
      ensures rows == WithoutBoard(old(rows), boardId)
      ensures forall c :: c in rows ==> c.boardId != boardId
    {
      DeleteBoardKeepsInvariant(rows, nextId, clock, boardId);
      rows := WithoutBoard(rows, boardId);
    }

    /** `softDeleteComment`: after the existence and authorship checks, sets
        the comment's deprecated flag; the row stays in the store. */
    method SoftDeleteComment(boardId: nat, commentId: nat, memberId: nat)
      returns (r: Outcome<CommentError>)
      requires Valid()
      modifies this
      ensures Valid() && nextId == old(nextId) && clock == old(clock)
      ensures match Authorize(old(rows), boardId, commentId, memberId)
        case Err(e) => r == Fail(e) && rows == old(rows)
        case Ok(k) => r == Pass && rows == old(rows)[k := old(rows)[k].(deprecated := true)]
    {
      var found := Authorize(rows, boardId, commentId, memberId);
      if found.Err? {
        return Fail(found.error);
      }
      var k := found.value;
      ReplaceKeepsInvariant(rows, nextId, clock, k, rows[k].(deprecated := true));
      rows := rows[k := rows[k].(deprecated := true)];
      return Pass;
    }

    /** `increaseCommentCount`: a single increment of the board's counter. */
    method IncreaseCommentCount(board: Board)
      modifies board
      ensures board.commentCount == old(board.commentCount) + 1
    {
      board.IncreaseCommentCount();
    }

    /** `findParentAndAllocate`: attaches each comment of the level, in
        order, under the first top-level node holding its parent id; it
        dereferences a missing parent (`NullParent`) and throws
        `InternalServer` at the first comment it cannot place. */
    method FindParentAndAllocate(level: seq<Comment>, forest: seq<Node>)
      returns (r: Result<seq<Node>, CommentError>)
      ensures r == Allocate(level, forest)
    {
      var acc := forest;
      var i := 0;
      while i < |level|
        invariant 0 <= i <= |level|
        invariant Allocate(level, forest) == Allocate(level[i..], acc)
      {
        if level[i].parentId.None? {
          return Err(NullParent);
        }
        var parentCommentId := level[i].parentId.value;
        var found := FindParent(acc, parentCommentId);
        if found.None? {
          return Err(InternalServer);
        }
        assert level[i..][1..] == level[i + 1..];
        acc := AddChild(acc, found.value, level[i]);
        i := i + 1;
      }
      return Ok(acc);
    }

    /** The stream search of `findParentAndAllocate`: the first top-level
        node whose comment id equals the parent id. */
    method FindParent(forest: seq<Node>, parentCommentId: nat) returns (k: Option<nat>)
      ensures k == FirstWithId(forest, parentCommentId)
    {
      var j := 0;
      while j < |forest|
        invariant 0 <= j <= |forest|
        invariant forall m :: 0 <= m < j ==> forest[m].comment.id != parentCommentId
      {
        if forest[j].comment.id == parentCommentId {
          return Some(j);
        }
        j := j + 1;
      }
      return None;
    }
  }
}
