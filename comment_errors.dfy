/** The exceptions the comment service throws, shared by the listing and
    the service operations. */
module CommentErrors {

  /** `InvalidIdCommentException`, `YouAreNotAuthorException` and
      `InternalServerException`; `NullParent` is the null dereference of
      `getParentComment().getId()` on a comment that has no parent. */
  datatype CommentError = InvalidIdComment | YouAreNotAuthor | InternalServer | NullParent
}
