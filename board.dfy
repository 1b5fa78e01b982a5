/** The slice of a board post that the comment service touches: its id and
    its denormalized comment counter. */
module Boards {

  class Board {
    const id: nat
    var commentCount: nat

    constructor (id: nat, commentCount: nat)
      ensures this.id == id && this.commentCount == commentCount
    {
      this.id := id;
      this.commentCount := commentCount;
    }

    /** `Board.increaseCommentCount`: one more comment on this board. */
    method IncreaseCommentCount()
      modifies this
      ensures commentCount == old(commentCount) + 1
    {
      commentCount := commentCount + 1;
    }
  }
}
