/** The comment repository, modelled as an in-memory store: the comment rows
    in the order they were saved, with the queries the comment service
    issues against them written as functions over that sequence. */
module CommentStore {
  import opened Wrappers

  /** The depth of a comment that has no parent. */
  const TopLevelCommentDepth: nat := 0

  /** One comment row. `parentId` is `None` for a top-level comment;
      `createdAt` is the creation stamp the listing orders by. */
  datatype Comment = Comment(
    id: nat,
    boardId: nat,
    parentId: Option<nat>,
    authorId: nat,
    depth: nat,
    content: string,
    createdAt: nat,
    deprecated: bool)

  /** `a` was created strictly before `b` and received a smaller id. */
  predicate Before(a: Comment, b: Comment)
  {
    a.id < b.id && a.createdAt < b.createdAt
  }

  /** The rows are in strictly ascending creation (and id) order. */
  predicate Chronological(cs: seq<Comment>)
  {
    forall i, j :: 0 <= i < j < |cs| ==> Before(cs[i], cs[j])
  }

  /** `a` and `b` are the same comment, possibly with another content or
      deprecated flag: they agree on every field that never changes. */
  predicate SameIdentity(a: Comment, b: Comment)
  {
    a.id == b.id && a.boardId == b.boardId && a.parentId == b.parentId &&
    a.authorId == b.authorId && a.depth == b.depth && a.createdAt == b.createdAt
  }

  /** A top-level comment has depth 0; a reply has a parent in the same
      board, in the store, one level shallower. */
  ghost predicate ParentLinked(rows: seq<Comment>, c: Comment)
  {
    match c.parentId
    case None => c.depth == TopLevelCommentDepth
    case Some(pid) =>
      exists p :: p in rows && p.id == pid && p.boardId == c.boardId && c.depth == p.depth + 1
  }

  /** What every comment-service operation keeps true of the store: rows in
      save order with increasing ids and stamps below the next ones to be
      handed out, and every reply linked to its parent. */
  ghost predicate StoreInvariant(rows: seq<Comment>, nextId: nat, clock: nat)
  {
    && Chronological(rows)
    && (forall i :: 0 <= i < |rows| ==> rows[i].id < nextId && rows[i].createdAt < clock)
    && (forall i :: 0 <= i < |rows| ==> ParentLinked(rows, rows[i]))
  }

  /** The rows `keep` accepts, in their stored order. */
  function Filter(rows: seq<Comment>, keep: Comment -> bool): (r: seq<Comment>)
    ensures forall c :: c in r <==> c in rows && keep(c)
    ensures |r| <= |rows|
    ensures Chronological(rows) ==> Chronological(r)
  {
    if rows == [] then []
    else
      var rest := Filter(rows[1..], keep);
      ChronologicalTail(rows);
      if keep(rows[0]) then
        ChronologicalCons(rows[0], rest);
        [rows[0]] + rest
      else
        rest
  }

  /** Dropping the first row keeps the order, and the first row comes before
      every later one. */
  lemma ChronologicalTail(rows: seq<Comment>)
    requires rows != []
    ensures Chronological(rows) ==>
      Chronological(rows[1..]) && forall d :: d in rows[1..] ==> Before(rows[0], d)
  {
    if Chronological(rows) {
      forall d | d in rows[1..] ensures Before(rows[0], d) {
        var j :| 0 <= j < |rows[1..]| && rows[1..][j] == d;
        assert rows[j + 1] == d;
      }
    }
  }

  /** A row that comes before every row of an ordered run can lead it. */
  lemma ChronologicalCons(c: Comment, rest: seq<Comment>)
    ensures Chronological(rest) && (forall d :: d in rest ==> Before(c, d)) ==> Chronological([c] + rest)
  {
    if Chronological(rest) && forall d :: d in rest ==> Before(c, d) {
      var s := [c] + rest;
      forall i, j | 0 <= i < j < |s| ensures Before(s[i], s[j]) {
        assert s[j] == rest[j - 1] && rest[j - 1] in rest;
        if i > 0 {
          assert s[i] == rest[i - 1];
        }
      }
    }
  }

  /** Index of the first row with this id in this board
      (`getCommentByIdAndBoardId`, which scopes the id to the board). */
  function IndexOf(rows: seq<Comment>, id: nat, boardId: nat): (r: Option<nat>)
    ensures r.Some? ==> r.value < |rows| && rows[r.value].id == id && rows[r.value].boardId == boardId
    ensures r.None? <==> forall c :: c in rows ==> !(c.id == id && c.boardId == boardId)
  {
    if rows == [] then None
    else if rows[0].id == id && rows[0].boardId == boardId then Some(0)
    else
      match IndexOf(rows[1..], id, boardId)
      case None => None
      case Some(k) => Some(k + 1)
  }

  /** `getCommentByIdAndBoardId`: the comment with this id, but only if it
      belongs to this board. */
  function FindByIdAndBoard(rows: seq<Comment>, id: nat, boardId: nat): (r: Option<Comment>)
    ensures r.Some? ==> r.value in rows && r.value.id == id && r.value.boardId == boardId
    ensures r.None? <==> forall c :: c in rows ==> !(c.id == id && c.boardId == boardId)
  {
    match IndexOf(rows, id, boardId)
    case None => None
    case Some(k) => Some(rows[k])
  }

  /** `findTopDepthByBoardId`: the greatest depth among the board's
      comments, absent when the board has none. */
  function MaxDepth(rows: seq<Comment>, boardId: nat): (r: Option<nat>)
    ensures r.None? <==> forall c :: c in rows ==> c.boardId != boardId
    ensures r.Some? ==> exists c :: c in rows && c.boardId == boardId && c.depth == r.value
    ensures r.Some? ==> forall c :: c in rows && c.boardId == boardId ==> c.depth <= r.value
  {
    if rows == [] then None
    else
      assert forall c :: c in rows <==> c == rows[0] || c in rows[1..];
      var rest := MaxDepth(rows[1..], boardId);
      if rows[0].boardId != boardId then rest
      else
        match rest
        case None => Some(rows[0].depth)
        case Some(m) => Some(if m < rows[0].depth then rows[0].depth else m)
  }

  /** `getCommentsByBoardIdAndDepthOrderByCreatedAtAsc`: the board's
      comments at exactly this depth, oldest first. */
  function AtDepth(rows: seq<Comment>, boardId: nat, depth: nat): (r: seq<Comment>)
    ensures forall c :: c in r <==> c in rows && c.boardId == boardId && c.depth == depth
    ensures r != [] ==> r[0] in rows && r[0].boardId == boardId && r[0].depth == depth
    ensures Chronological(rows) ==> Chronological(r)
  {
    Filter(rows, (c: Comment) => c.boardId == boardId && c.depth == depth)
  }

  /** `deleteCommentsByBoardId`: the store without any of the board's rows. */
  function WithoutBoard(rows: seq<Comment>, boardId: nat): (r: seq<Comment>)
    ensures forall c :: c in r <==> c in rows && c.boardId != boardId
    ensures Chronological(rows) ==> Chronological(r)
  {
    Filter(rows, (c: Comment) => c.boardId != boardId)
  }

  /** In a store that keeps its invariant, every stored comment is linked to
      its parent. */
  lemma StoredIsLinked(rows: seq<Comment>, nextId: nat, clock: nat, c: Comment)
    requires StoreInvariant(rows, nextId, clock)
    requires c in rows
    ensures ParentLinked(rows, c)
  {
    var i :| 0 <= i < |rows| && rows[i] == c;
    assert ParentLinked(rows, rows[i]);
  }

  /** In a store that keeps its invariant, two rows with one id are one row. */
  lemma IdsUnique(rows: seq<Comment>, nextId: nat, clock: nat, a: Comment, b: Comment)
    requires StoreInvariant(rows, nextId, clock)
    requires a in rows && b in rows && a.id == b.id
    ensures a == b
  {
    var i :| 0 <= i < |rows| && rows[i] == a;
    var j :| 0 <= j < |rows| && rows[j] == b;
  }

  /** Saving a new comment that takes the next id and the next stamp, and is
      linked to its parent, keeps the invariant. */
  lemma InsertKeepsInvariant(rows: seq<Comment>, nextId: nat, clock: nat, c: Comment)
    requires StoreInvariant(rows, nextId, clock)
    requires c.id == nextId && c.createdAt == clock && ParentLinked(rows, c)
    ensures StoreInvariant(rows + [c], nextId + 1, clock + 1)
  {
    var rows' := rows + [c];
    forall i | 0 <= i < |rows'| ensures ParentLinked(rows', rows'[i]) {
      var d := rows'[i];
      assert ParentLinked(rows, d);
      if d.parentId.Some? {
        var p :| p in rows && p.id == d.parentId.value && p.boardId == d.boardId && d.depth == p.depth + 1;
        assert p in rows';
      }
    }
  }

  /** Replacing a row by the same comment with another content or flag keeps
      the invariant. */
  lemma ReplaceKeepsInvariant(rows: seq<Comment>, nextId: nat, clock: nat, k: nat, c: Comment)
    requires StoreInvariant(rows, nextId, clock)
    requires k < |rows| && SameIdentity(rows[k], c)
    ensures StoreInvariant(rows[k := c], nextId, clock)
  {
    var rows' := rows[k := c];
    forall i, j | 0 <= i < j < |rows'| ensures Before(rows'[i], rows'[j]) {
      assert Before(rows[i], rows[j]);
    }
    forall i | 0 <= i < |rows'| ensures ParentLinked(rows', rows'[i]) {
      assert ParentLinked(rows, rows[i]);
      ParentSurvivesReplace(rows, k, c, rows[i]);
    }
  }

  /** A parent link survives replacing a row by the same comment. */
  lemma ParentSurvivesReplace(rows: seq<Comment>, k: nat, c: Comment, d: Comment)
    requires k < |rows| && SameIdentity(rows[k], c)
    requires ParentLinked(rows, d)
    ensures ParentLinked(rows[k := c], d)
    ensures d == rows[k] ==> ParentLinked(rows[k := c], c)
  {
    var rows' := rows[k := c];
    if d.parentId.Some? {
      var p :| p in rows && p.id == d.parentId.value && p.boardId == d.boardId && d.depth == p.depth + 1;
      var m :| 0 <= m < |rows| && rows[m] == p;
      assert rows'[m] in rows';
      assert rows'[m].id == p.id && rows'[m].boardId == p.boardId && rows'[m].depth == p.depth;
    }
  }

  /** Removing every row of one board keeps the invariant: a surviving reply
      belongs to another board, and so does its parent. */
  lemma DeleteBoardKeepsInvariant(rows: seq<Comment>, nextId: nat, clock: nat, boardId: nat)
    requires StoreInvariant(rows, nextId, clock)
    ensures StoreInvariant(WithoutBoard(rows, boardId), nextId, clock)
  {
    var rows' := WithoutBoard(rows, boardId);
    forall i | 0 <= i < |rows'| ensures rows'[i].id < nextId && rows'[i].createdAt < clock && ParentLinked(rows', rows'[i]) {
      var d := rows'[i];
      assert d in rows;
      var m :| 0 <= m < |rows| && rows[m] == d;
      assert ParentLinked(rows, rows[m]);
      if d.parentId.Some? {
        var p :| p in rows && p.id == d.parentId.value && p.boardId == d.boardId && d.depth == p.depth + 1;
        assert p in rows';
      }
    }
  }

  /** A board with no comment at some depth yields nothing at that depth. */
  lemma AtDepthEmpty(rows: seq<Comment>, boardId: nat, depth: nat)
    requires forall c :: c in rows ==> !(c.boardId == boardId && c.depth == depth)
    ensures AtDepth(rows, boardId, depth) == []
  {
  }
}
