/**
 * The comment-row construction of `fetchGitHubReviewComments`: one row per
 * review comment, all stamped with the same review ID, and the reviewer taken
 * from the last comment.
 */
module ReviewComments {

  /** One inline review comment as the REST API reports it: `user.login`, `body`, `path`. */
  datatype ReviewComment = ReviewComment(author: string, body: string, path: string)

  /** A row of the `CodeReviewComments` sheet. */
  datatype CommentRow = CommentRow(reviewId: string, comment: string, fileName: string)

  /** The author of the last comment, or `""` (the initial value) when there are none. */
  function LastAuthor(comments: seq<ReviewComment>): (r: string)
    ensures r == "" || exists k :: 0 <= k < |comments| && comments[k].author == r
  {
    if comments == [] then "" else comments[|comments| - 1].author
  }

  /** A later batch of comments overrides the reviewer of an earlier one, unless it is empty. */
  lemma LastAuthorAppend(a: seq<ReviewComment>, b: seq<ReviewComment>)
    ensures LastAuthor(a + b) == if b == [] then LastAuthor(a) else LastAuthor(b)
    ensures b != [] ==> LastAuthor(a + b) == b[|b| - 1].author
  {
    if b == [] {
      assert a + b == a;
    }
  }

  /**
   * The `forEach` over the review comments: it overwrites `reviewer` with
   * each comment's author and pushes a row stamped with `reviewId`.
   */
  method BuildCommentRows(comments: seq<ReviewComment>, reviewId: string)
    returns (result: seq<CommentRow>, reviewer: string)
    ensures |result| == |comments|
    ensures forall k :: 0 <= k < |comments| ==>
      result[k] == CommentRow(reviewId, comments[k].body, comments[k].path)
    ensures forall row :: row in result ==> row.reviewId == reviewId
    ensures reviewer == LastAuthor(comments)
  {
    reviewer := "";
    result := [];
    var i := 0;
    while i < |comments|
      invariant 0 <= i <= |comments|
      invariant |result| == i
      invariant forall k :: 0 <= k < i ==> result[k] == CommentRow(reviewId, comments[k].body, comments[k].path)
      invariant reviewer == LastAuthor(comments[..i])
    {
      var d := comments[i];
      reviewer := d.author;
      result := result + [CommentRow(reviewId, d.body, d.path)];
      i := i + 1;
    }
    assert comments[..i] == comments;
  }
}
