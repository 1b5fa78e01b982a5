/** The reply forest that the comment listing assembles, and the
    level-by-level assembly it performs, as functions. The assembly searches
    for a reply's parent among the top-level nodes only. */
module CommentTree {
  import opened Wrappers
  import opened CommentStore
  import opened CommentErrors

  /** A listed comment (a `CommentDTO`): the copied comment and its replies
      in the order they were attached. */
  datatype Node = Node(comment: Comment, children: seq<Node>)

  /** `CommentDTO.from`: a node for the comment, with no replies yet. */
  function Leaf(c: Comment): Node
  {
    Node(c, [])
  }

  /** One fresh node per comment, in the same order. */
  function Leaves(cs: seq<Comment>): (r: seq<Node>)
    ensures |r| == |cs|
    ensures forall i :: 0 <= i < |cs| ==> r[i] == Node(cs[i], [])
  {
    if cs == [] then [] else [Leaf(cs[0])] + Leaves(cs[1..])
  }

  /** Every comment of the level names a parent. */
  predicate HasParents(level: seq<Comment>)
  {
    forall c :: c in level ==> c.parentId.Some?
  }

  /** Some node of `roots` holds the comment with this id. */
  predicate HasRootWithId(roots: seq<Node>, id: nat)
  {
    exists k :: 0 <= k < |roots| && roots[k].comment.id == id
  }

  /** The stream search `filter(id equals).findFirst()` over the top-level
      list: the position of the first node holding this comment id. */
  function FirstWithId(roots: seq<Node>, id: nat): (r: Option<nat>)
    ensures r.Some? ==> r.value < |roots| && roots[r.value].comment.id == id
    ensures r.Some? ==> forall k :: 0 <= k < r.value ==> roots[k].comment.id != id
    ensures r.None? <==> !HasRootWithId(roots, id)
  {
    if roots == [] then None
    else if roots[0].comment.id == id then Some(0)
    else
      match FirstWithId(roots[1..], id)
      case None => None
      case Some(k) => Some(k + 1)
  }

  /** `addChildCommentDTO` on the node at position `k`. */
  function AddChild(roots: seq<Node>, k: nat, c: Comment): (r: seq<Node>)
    requires k < |roots|
  {
    roots[k := roots[k].(children := roots[k].children + [Leaf(c)])]
  }

  /** `findParentAndAllocate`: each comment of the level, in order, appended
      under the first top-level node holding its parent id; the first comment
      without a parent aborts with `NullParent`, the first one whose parent
      is not a top-level node with `InternalServer`. */
  function Allocate(level: seq<Comment>, roots: seq<Node>): Result<seq<Node>, CommentError>
    decreases |level|
  {
    if level == [] then Ok(roots)
    else
      match level[0].parentId
      case None => Err(NullParent)
      case Some(pid) =>
        match FirstWithId(roots, pid)
        case None => Err(InternalServer)
        case Some(k) => Allocate(level[1..], AddChild(roots, k, level[0]))
  }

  /** The comments of the level whose parent search ends at position `k`. */
  function AttachedTo(level: seq<Comment>, roots: seq<Node>, k: nat): seq<Comment>
  {
    if level == [] then []
    else
      (if level[0].parentId.Some? && FirstWithId(roots, level[0].parentId.value) == Some(k)
       then [level[0]] else [])
      + AttachedTo(level[1..], roots, k)
  }

  /** The replies to comment `id` among `level`, in the level's order. */
  function RepliesTo(level: seq<Comment>, id: nat): (r: seq<Comment>)
    ensures forall c :: c in r <==> c in level && c.parentId == Some(id)
    ensures Chronological(level) ==> Chronological(r)
  {
    Filter(level, (c: Comment) => c.parentId == Some(id))
  }

  /** Every reply in the store names its parent. */
  predicate RepliesHaveParents(rows: seq<Comment>)
  {
    forall c :: c in rows && c.depth != TopLevelCommentDepth ==> c.parentId.Some?
  }

  /** One pass of the loop of `getComments` at depth `d`: depth 0 adds a
      fresh top-level node per comment, a deeper level is allocated under
      the top-level nodes. */
  function Level(rows: seq<Comment>, boardId: nat, d: nat, acc: seq<Node>): Result<seq<Node>, CommentError>
  {
    var level := AtDepth(rows, boardId, d);
    if d == TopLevelCommentDepth then Ok(acc + Leaves(level)) else Allocate(level, acc)
  }

  /** The loop of `getComments` from depth `d` up to `maxDepth`, stopping at
      the first exception. */
  function Levels(rows: seq<Comment>, boardId: nat, d: nat, maxDepth: int, acc: seq<Node>)
    : Result<seq<Node>, CommentError>
    decreases maxDepth + 1 - d
  {
    if d > maxDepth then Ok(acc)
    else
      match Level(rows, boardId, d, acc)
      case Err(e) => Err(e)
      case Ok(acc') => Levels(rows, boardId, d + 1, maxDepth, acc')
  }

  /** The loop bound of `getComments`: the board's greatest depth, or one less
      than the top-level depth when the board has no comments. */
  function LastDepth(rows: seq<Comment>, boardId: nat): int
  {
    match MaxDepth(rows, boardId)
    case None => TopLevelCommentDepth - 1
    case Some(m) => m
  }

  /** `getComments(boardId)`: the board's reply forest, or the exception. */
  function Listing(rows: seq<Comment>, boardId: nat): Result<seq<Node>, CommentError>
  {
    Levels(rows, boardId, TopLevelCommentDepth, LastDepth(rows, boardId), [])
  }

  // ---------------------------------------------------------------------
  // Properties of the assembly

  /** Fresh nodes for two runs of comments are the fresh nodes of each. */
  lemma {:induction false} LeavesAppend(a: seq<Comment>, b: seq<Comment>)
    ensures Leaves(a + b) == Leaves(a) + Leaves(b)
  {
    if a == [] {
      assert a + b == b;
    } else {
      assert (a + b)[1..] == a[1..] + b;
      LeavesAppend(a[1..], b);
    }
  }

  /** The parent search looks only at the comments' ids. */
  lemma {:induction false} FirstWithIdSameIds(r1: seq<Node>, r2: seq<Node>, id: nat)
    requires |r1| == |r2| && forall k :: 0 <= k < |r1| ==> r1[k].comment.id == r2[k].comment.id
    ensures FirstWithId(r1, id) == FirstWithId(r2, id)
    ensures HasRootWithId(r1, id) == HasRootWithId(r2, id)
  {
    if r1 != [] && r1[0].comment.id != id {
      FirstWithIdSameIds(r1[1..], r2[1..], id);
    }
  }

  /** Which comments end up under position `k` depends only on the ids. */
  lemma {:induction false} AttachedToSameIds(level: seq<Comment>, r1: seq<Node>, r2: seq<Node>, k: nat)
    requires |r1| == |r2| && forall j :: 0 <= j < |r1| ==> r1[j].comment.id == r2[j].comment.id
    ensures AttachedTo(level, r1, k) == AttachedTo(level, r2, k)
  {
    if level != [] {
      if level[0].parentId.Some? {
        FirstWithIdSameIds(r1, r2, level[0].parentId.value);
      }
      AttachedToSameIds(level[1..], r1, r2, k);
    }
  }

  /** `findParentAndAllocate` succeeds exactly when every comment names a
      parent and that parent id is the id of a top-level node; no comment is
      silently skipped. When every comment names a parent, the exception is
      always `InternalServer`. */
  lemma {:induction false} AllocateSucceedsIff(level: seq<Comment>, roots: seq<Node>)
    ensures Allocate(level, roots).Ok? <==>
      forall i :: 0 <= i < |level| ==>
        level[i].parentId.Some? && HasRootWithId(roots, level[i].parentId.value)
    ensures Allocate(level, roots).Err? ==>
      Allocate(level, roots).error == InternalServer || Allocate(level, roots).error == NullParent
    ensures HasParents(level) && Allocate(level, roots).Err? ==> Allocate(level, roots).error == InternalServer
    decreases |level|
  {
    if level != [] {
      var c := level[0];
      var rest := level[1..];
      assert forall x :: x in rest ==> x in level;
      assert forall i :: 1 <= i < |level| ==> level[i] == rest[i - 1];
      if c.parentId.Some? {
        var f := FirstWithId(roots, c.parentId.value);
        if f.Some? {
          var roots' := AddChild(roots, f.value, c);
          AllocateSucceedsIff(rest, roots');
          forall id: nat ensures HasRootWithId(roots', id) == HasRootWithId(roots, id) {
            FirstWithIdSameIds(roots', roots, id);
          }
        }
      } else {
        assert c in level;
      }
    }
  }

  /** On success the top-level nodes keep their number and order. */
  lemma {:induction false} AllocateKeepsRoots(level: seq<Comment>, roots: seq<Node>)
    requires Allocate(level, roots).Ok?
    ensures |Allocate(level, roots).value| == |roots|
    ensures forall k :: 0 <= k < |roots| ==>
      Allocate(level, roots).value[k].comment == roots[k].comment
    decreases |level|
  {
    if level != [] {
      var f := FirstWithId(roots, level[0].parentId.value).value;
      AllocateKeepsRoots(level[1..], AddChild(roots, f, level[0]));
    }
  }

  /** On success the node at position `k` holds its old replies followed by
      the comments whose parent search ended at `k`, in the level's order. */
  lemma {:induction false} AllocateChildrenAt(level: seq<Comment>, roots: seq<Node>, k: nat)
    requires Allocate(level, roots).Ok? && k < |roots|
    ensures k < |Allocate(level, roots).value| &&
      Allocate(level, roots).value[k].children == roots[k].children + Leaves(AttachedTo(level, roots, k))
    decreases |level|
  {
    AllocateKeepsRoots(level, roots);
    if level == [] {
      assert Leaves([]) == [];
    } else {
      var c := level[0];
      var rest := level[1..];
      var f := FirstWithId(roots, c.parentId.value).value;
      var roots' := AddChild(roots, f, c);
      assert Allocate(level, roots) == Allocate(rest, roots');
      AllocateChildrenAt(rest, roots', k);
      AttachedToSameIds(rest, roots', roots, k);
      var tail := AttachedTo(rest, roots, k);
      if f == k {
        assert AttachedTo(level, roots, k) == [c] + tail;
        LeavesAppend([c], tail);
        assert roots'[k].children == roots[k].children + [Leaf(c)];
        assert Leaves([c]) == [Leaf(c)];
      } else {
        assert AttachedTo(level, roots, k) == tail;
        assert roots'[k] == roots[k];
      }
    }
  }

  /** The number of replies held by the top-level nodes. */
  function ChildCount(roots: seq<Node>): nat
  {
    if roots == [] then 0 else |roots[0].children| + ChildCount(roots[1..])
  }

  /** Attaching one reply adds one to the count. */
  lemma {:induction false} AddChildCount(roots: seq<Node>, k: nat, c: Comment)
    requires k < |roots|
    ensures ChildCount(AddChild(roots, k, c)) == ChildCount(roots) + 1
    decreases |roots|
  {
    var r' := AddChild(roots, k, c);
    if k == 0 {
      assert r'[1..] == roots[1..];
    } else {
      assert r'[1..] == AddChild(roots[1..], k - 1, c);
      AddChildCount(roots[1..], k - 1, c);
    }
  }

  /** A successful allocation attaches every comment of the level: the reply
      count grows by exactly the level's length. */
  lemma {:induction false} AllocateKeepsEveryComment(level: seq<Comment>, roots: seq<Node>)
    requires Allocate(level, roots).Ok?
    ensures ChildCount(Allocate(level, roots).value) == ChildCount(roots) + |level|
    decreases |level|
  {
    if level != [] {
      var k := FirstWithId(roots, level[0].parentId.value).value;
      AllocateKeepsEveryComment(level[1..], AddChild(roots, k, level[0]));
      AddChildCount(roots, k, level[0]);
    }
  }

  // ---------------------------------------------------------------------
  // Properties of the listing

  /** The greatest depth is the depth of some comment of the board and every
      comment of the board lies at or above it; it is below the top level
      exactly when the board has no comments. */
  lemma LastDepthAttained(rows: seq<Comment>, boardId: nat)
    ensures LastDepth(rows, boardId) < TopLevelCommentDepth <==> forall c :: c in rows ==> c.boardId != boardId
    ensures LastDepth(rows, boardId) >= TopLevelCommentDepth ==>
      exists c :: c in rows && c.boardId == boardId && c.depth == LastDepth(rows, boardId)
    ensures forall c :: c in rows && c.boardId == boardId ==> c.depth <= LastDepth(rows, boardId)
  {
  }

  /** Once the board has comments, the listing continues at depth 1 from one
      fresh top-level node per depth-0 comment. */
  lemma ListingFromDepthOne(rows: seq<Comment>, boardId: nat)
    requires LastDepth(rows, boardId) >= TopLevelCommentDepth
    ensures Listing(rows, boardId) ==
      Levels(rows, boardId, 1, LastDepth(rows, boardId), Leaves(AtDepth(rows, boardId, TopLevelCommentDepth)))
  {
    var top := AtDepth(rows, boardId, TopLevelCommentDepth);
    assert [] + Leaves(top) == Leaves(top);
  }

  /** When every reply names a parent, every exception the listing throws
      is `InternalServer`. */
  lemma {:induction false} LevelsErrorKind(rows: seq<Comment>, boardId: nat, d: nat, maxDepth: int, acc: seq<Node>)
    requires RepliesHaveParents(rows)
    requires Levels(rows, boardId, d, maxDepth, acc).Err?
    ensures Levels(rows, boardId, d, maxDepth, acc).error == InternalServer
    decreases maxDepth + 1 - d
  {
    if d <= maxDepth {
      var step := Level(rows, boardId, d, acc);
      if step.Ok? {
        assert Levels(rows, boardId, d, maxDepth, acc) == Levels(rows, boardId, d + 1, maxDepth, step.value);
        LevelsErrorKind(rows, boardId, d + 1, maxDepth, step.value);
      } else {
        LevelErrorKind(rows, boardId, d, acc);
      }
    }
  }

  /** One pass of the listing loop, when every reply names a parent, throws
      nothing but `InternalServer`. */
  lemma LevelErrorKind(rows: seq<Comment>, boardId: nat, d: nat, acc: seq<Node>)
    requires RepliesHaveParents(rows)
    requires Level(rows, boardId, d, acc).Err?
    ensures Level(rows, boardId, d, acc).error == InternalServer
  {
    var level := AtDepth(rows, boardId, d);
    assert HasParents(level);
    AllocateSucceedsIff(level, acc);
  }

  /** In a consistent store, listing a board throws nothing but
      `InternalServer`: the null dereference of a missing parent never
      happens. */
  lemma ListingErrorKind(rows: seq<Comment>, nextId: nat, clock: nat, boardId: nat)
    requires StoreInvariant(rows, nextId, clock)
    requires Listing(rows, boardId).Err?
    ensures Listing(rows, boardId).error == InternalServer
  {
    InvariantRepliesHaveParents(rows, nextId, clock);
    LevelsErrorKind(rows, boardId, TopLevelCommentDepth, LastDepth(rows, boardId), []);
  }

  /** Past depth 0 the listing never adds or reorders top-level nodes. */
  lemma {:induction false} LevelsKeepRoots(rows: seq<Comment>, boardId: nat, d: nat, maxDepth: int, acc: seq<Node>)
    requires d > TopLevelCommentDepth
    requires Levels(rows, boardId, d, maxDepth, acc).Ok?
    ensures |Levels(rows, boardId, d, maxDepth, acc).value| == |acc|
    ensures forall k :: 0 <= k < |acc| ==> Levels(rows, boardId, d, maxDepth, acc).value[k].comment == acc[k].comment
    decreases maxDepth + 1 - d
  {
    if d <= maxDepth {
      var level := AtDepth(rows, boardId, d);
      var step := Level(rows, boardId, d, acc);
      assert step == Allocate(level, acc);
      AllocateKeepsRoots(level, acc);
      LevelsKeepRoots(rows, boardId, d + 1, maxDepth, step.value);
    }
  }

  /** A board without comments lists as the empty forest: the greatest
      depth is absent, the loop bound is -1 and the loop never runs. */
  lemma ListingEmptyBoard(rows: seq<Comment>, boardId: nat)
    requires forall c :: c in rows ==> c.boardId != boardId
    ensures Listing(rows, boardId) == Ok([])
  {
    LastDepthAttained(rows, boardId);
  }

  /** A board's listing, when it succeeds, has one top-level node per
      depth-0 comment of the board, in ascending creation order. */
  lemma ListingRoots(rows: seq<Comment>, boardId: nat)
    requires Listing(rows, boardId).Ok?
    ensures var r := Listing(rows, boardId).value; var top := AtDepth(rows, boardId, TopLevelCommentDepth);
      |r| == |top| && forall k :: 0 <= k < |r| ==> r[k].comment == top[k]
  {
    var top := AtDepth(rows, boardId, TopLevelCommentDepth);
    LastDepthAttained(rows, boardId);
    var last := LastDepth(rows, boardId);
    if last < 0 {
      AtDepthEmpty(rows, boardId, TopLevelCommentDepth);
    } else {
      ListingFromDepthOne(rows, boardId);
      LevelsKeepRoots(rows, boardId, 1, last, Leaves(top));
    }
  }

  /** The store invariant guarantees that every reply names a parent. */
  lemma InvariantRepliesHaveParents(rows: seq<Comment>, nextId: nat, clock: nat)
    requires StoreInvariant(rows, nextId, clock)
    ensures RepliesHaveParents(rows)
  {
    forall c | c in rows && c.depth != TopLevelCommentDepth ensures c.parentId.Some? {
      var i :| 0 <= i < |rows| && rows[i] == c;
      assert ParentLinked(rows, rows[i]);
    }
  }

  /** Top-level nodes that hold only depth-0 comments of a consistent store
      never hold the parent of a comment of depth 2 or more: that parent has
      depth at least 1 and ids are unique. */
  lemma TopLevelHoldsNoDeepParent(rows: seq<Comment>, nextId: nat, clock: nat, acc: seq<Node>)
    requires StoreInvariant(rows, nextId, clock)
    requires forall k :: 0 <= k < |acc| ==> acc[k].comment in rows && acc[k].comment.depth == TopLevelCommentDepth
    ensures forall c :: c in rows && 2 <= c.depth && c.parentId.Some? ==> !HasRootWithId(acc, c.parentId.value)
  {
    forall c | c in rows && 2 <= c.depth && c.parentId.Some?
      ensures !HasRootWithId(acc, c.parentId.value)
    {
      var i :| 0 <= i < |rows| && rows[i] == c;
      assert ParentLinked(rows, rows[i]);
      var pid := c.parentId.value;
      var p :| p in rows && p.id == pid && p.boardId == c.boardId && c.depth == p.depth + 1;
      if HasRootWithId(acc, pid) {
        var k :| 0 <= k < |acc| && acc[k].comment.id == pid;
        IdsUnique(rows, nextId, clock, acc[k].comment, p);
        assert false;
      }
    }
  }

  /** From depth `d` on, when no top-level node holds the parent of a board
      comment that deep, the listing throws `InternalServer` as soon as it
      meets a non-empty level, and there is one when some comment of the
      board is that deep. */
  lemma {:induction false} DeepLevelsFail(rows: seq<Comment>, boardId: nat, d: nat, maxDepth: int, acc: seq<Node>)
    requires RepliesHaveParents(rows)
    requires d > TopLevelCommentDepth
    requires forall c :: c in rows && c.boardId == boardId && d <= c.depth && c.parentId.Some? ==>
      !HasRootWithId(acc, c.parentId.value)
    requires exists c :: c in rows && c.boardId == boardId && d <= c.depth <= maxDepth
    ensures Levels(rows, boardId, d, maxDepth, acc) == Err(InternalServer)
    decreases maxDepth + 1 - d
  {
    var w :| w in rows && w.boardId == boardId && d <= w.depth <= maxDepth;
    var level := AtDepth(rows, boardId, d);
    if level == [] {
      assert w !in level;
      assert Level(rows, boardId, d, acc) == Ok(acc);
      assert Levels(rows, boardId, d, maxDepth, acc) == Levels(rows, boardId, d + 1, maxDepth, acc);
      DeepLevelsFail(rows, boardId, d + 1, maxDepth, acc);
    } else {
      assert level[0] in level;
      assert Allocate(level, acc) == Err(InternalServer);
    }
  }

  /** `getComments` searches parents only among the top-level DTOs, so in a
      consistent store, as soon as a board holds a reply to a reply (depth 2
      or more), listing that board throws `InternalServer`. */
  lemma ListingFailsBeyondDepthOne(rows: seq<Comment>, nextId: nat, clock: nat, boardId: nat)
    requires StoreInvariant(rows, nextId, clock)
    requires exists c :: c in rows && c.boardId == boardId && c.depth >= 2
    ensures Listing(rows, boardId) == Err(InternalServer)
  {
    InvariantRepliesHaveParents(rows, nextId, clock);
    LastDepthAttained(rows, boardId);
    var last := LastDepth(rows, boardId);
    ListingFromDepthOne(rows, boardId);
    var roots := Leaves(AtDepth(rows, boardId, TopLevelCommentDepth));
    var step := Level(rows, boardId, 1, roots);
    if step.Ok? {
      TopLevelAfterReplies(rows, boardId, roots);
      TopLevelHoldsNoDeepParent(rows, nextId, clock, step.value);
      DeepLevelsFail(rows, boardId, 2, last, step.value);
    } else {
      LevelErrorKind(rows, boardId, 1, roots);
    }
  }

  /** Allocating the direct replies under the board's depth-0 comments
      leaves exactly those comments as top-level nodes. */
  lemma TopLevelAfterReplies(rows: seq<Comment>, boardId: nat, roots: seq<Node>)
    requires roots == Leaves(AtDepth(rows, boardId, TopLevelCommentDepth))
    requires Level(rows, boardId, 1, roots).Ok?
    ensures |Level(rows, boardId, 1, roots).value| == |AtDepth(rows, boardId, TopLevelCommentDepth)|
    ensures forall k :: 0 <= k < |Level(rows, boardId, 1, roots).value| ==>
      Level(rows, boardId, 1, roots).value[k].comment == AtDepth(rows, boardId, TopLevelCommentDepth)[k]
    ensures forall k :: 0 <= k < |Level(rows, boardId, 1, roots).value| ==>
      Level(rows, boardId, 1, roots).value[k].comment in rows &&
      Level(rows, boardId, 1, roots).value[k].comment.depth == TopLevelCommentDepth
  {
    var top := AtDepth(rows, boardId, TopLevelCommentDepth);
    AllocateKeepsRoots(AtDepth(rows, boardId, 1), roots);
    assert forall k :: 0 <= k < |top| ==> top[k] in top;
  }

  /** With distinct ids among the top-level nodes, the comments attached at
      position `k` are exactly the replies to that node's comment. */
  lemma {:induction false} AttachedToDistinct(level: seq<Comment>, roots: seq<Node>, k: nat)
    requires k < |roots|
    requires forall i, j :: 0 <= i < j < |roots| ==> roots[i].comment.id != roots[j].comment.id
    ensures AttachedTo(level, roots, k) == RepliesTo(level, roots[k].comment.id)
  {
    if level != [] {
      AttachedToDistinct(level[1..], roots, k);
      if level[0].parentId.Some? {
        var f := FirstWithId(roots, level[0].parentId.value);
        assert f == Some(k) <==> level[0].parentId == Some(roots[k].comment.id);
      }
    }
  }

  /** The parent of a direct reply on a board, when it is linked, is one of
      the board's top-level comments. */
  lemma ReplyParentIsTopLevel(rows: seq<Comment>, boardId: nat, c: Comment)
    requires c in AtDepth(rows, boardId, 1) && ParentLinked(rows, c)
    ensures c.parentId.Some? && HasRootWithId(Leaves(AtDepth(rows, boardId, TopLevelCommentDepth)), c.parentId.value)
  {
    var top := AtDepth(rows, boardId, TopLevelCommentDepth);
    var p :| p in rows && p.id == c.parentId.value && p.boardId == c.boardId && c.depth == p.depth + 1;
    assert p in top;
    var j :| 0 <= j < |top| && top[j] == p;
    var roots := Leaves(top);
    assert roots[j] == Node(p, []);
  }

  /** In a consistent store the direct replies of a board all find their
      parent among the top-level nodes. */
  lemma RepliesFindParents(rows: seq<Comment>, nextId: nat, clock: nat, boardId: nat)
    requires StoreInvariant(rows, nextId, clock)
    ensures Allocate(AtDepth(rows, boardId, 1), Leaves(AtDepth(rows, boardId, TopLevelCommentDepth))).Ok?
  {
    var replies := AtDepth(rows, boardId, 1);
    var roots := Leaves(AtDepth(rows, boardId, TopLevelCommentDepth));
    forall i | 0 <= i < |replies|
      ensures replies[i].parentId.Some? && HasRootWithId(roots, replies[i].parentId.value)
    {
      assert replies[i] in replies;
      StoredIsLinked(rows, nextId, clock, replies[i]);
      ReplyParentIsTopLevel(rows, boardId, replies[i]);
    }
    AllocateSucceedsIff(replies, roots);
  }

  /** In a consistent store the direct replies of a board all find their
      parent among the top-level nodes, and each node receives exactly the
      replies to its comment. */
  lemma RepliesAllocate(rows: seq<Comment>, nextId: nat, clock: nat, boardId: nat)
    requires StoreInvariant(rows, nextId, clock)
    ensures Allocate(AtDepth(rows, boardId, 1), Leaves(AtDepth(rows, boardId, TopLevelCommentDepth))).Ok?
    ensures TwoLevelForest(rows, boardId,
      Allocate(AtDepth(rows, boardId, 1), Leaves(AtDepth(rows, boardId, TopLevelCommentDepth))).value)
  {
    var top := AtDepth(rows, boardId, TopLevelCommentDepth);
    var replies := AtDepth(rows, boardId, 1);
    var roots := Leaves(top);
    RepliesFindParents(rows, nextId, clock, boardId);
    AllocateKeepsRoots(replies, roots);
    var acc := Allocate(replies, roots).value;
    DistinctRootIds(top);
    forall k | 0 <= k < |acc|
      ensures acc[k].comment == top[k] && acc[k].children == Leaves(RepliesTo(replies, top[k].id))
    {
      AllocateChildrenAt(replies, roots, k);
      AttachedToDistinct(replies, roots, k);
    }
  }

  /** Comments in ascending creation order have pairwise distinct ids, and so
      have their fresh nodes. */
  lemma DistinctRootIds(cs: seq<Comment>)
    requires Chronological(cs)
    ensures forall i, j :: 0 <= i < j < |Leaves(cs)| ==> Leaves(cs)[i].comment.id != Leaves(cs)[j].comment.id
  {
    var roots := Leaves(cs);
    forall i, j | 0 <= i < j < |roots| ensures roots[i].comment.id != roots[j].comment.id {
      assert Before(cs[i], cs[j]);
    }
  }

  /** `r` is the two-level forest of the board: one node per depth-0 comment
      in ascending creation order, and under each node the direct replies to
      its comment, in ascending creation order. */
  predicate TwoLevelForest(rows: seq<Comment>, boardId: nat, r: seq<Node>)
  {
    var top := AtDepth(rows, boardId, TopLevelCommentDepth);
    |r| == |top| &&
    forall k :: 0 <= k < |r| ==>
      r[k].comment == top[k] &&
      r[k].children == Leaves(RepliesTo(AtDepth(rows, boardId, 1), top[k].id))
  }

  /** In a consistent store whose board holds only top-level comments and
      direct replies, the listing succeeds with the board's two-level forest;
      no comment is left out. */
  lemma ListingShallow(rows: seq<Comment>, nextId: nat, clock: nat, boardId: nat)
    requires StoreInvariant(rows, nextId, clock)
    requires forall c :: c in rows && c.boardId == boardId ==> c.depth <= 1
    ensures Listing(rows, boardId).Ok?
    ensures TwoLevelForest(rows, boardId, Listing(rows, boardId).value)
  {
    LastDepthAttained(rows, boardId);
    var last := LastDepth(rows, boardId);
    if last < 0 {
      AtDepthEmpty(rows, boardId, TopLevelCommentDepth);
      assert Listing(rows, boardId) == Ok([]);
    } else if last == 0 {
      ListingTopLevelOnly(rows, boardId);
    } else {
      assert last == 1;
      ListingFromDepthOne(rows, boardId);
      var roots := Leaves(AtDepth(rows, boardId, TopLevelCommentDepth));
      RepliesAllocate(rows, nextId, clock, boardId);
      var acc := Allocate(AtDepth(rows, boardId, 1), roots).value;
      assert Level(rows, boardId, 1, roots) == Ok(acc);
      assert Listing(rows, boardId) == Ok(acc);
    }
  }

  /** A board whose comments are all top-level lists as one childless node
      per comment. */
  lemma ListingTopLevelOnly(rows: seq<Comment>, boardId: nat)
    requires LastDepth(rows, boardId) == TopLevelCommentDepth
    ensures Listing(rows, boardId).Ok?
    ensures TwoLevelForest(rows, boardId, Listing(rows, boardId).value)
  {
    LastDepthAttained(rows, boardId);
    var top := AtDepth(rows, boardId, TopLevelCommentDepth);
    ListingFromDepthOne(rows, boardId);
    AtDepthEmpty(rows, boardId, 1);
    assert Listing(rows, boardId) == Ok(Leaves(top));
    forall k | 0 <= k < |top| ensures Leaves(RepliesTo([], top[k].id)) == [] {
      assert RepliesTo([], top[k].id) == [];
    }
  }
}
