/**
 * The records the action writes: the `CodeReviewSummary` row built at the
 * end of `fetchGithubCommitDetails`, and the whole invocation, from the rows
 * already in the summary sheet and the REST responses to the comment rows and
 * the summary row.
 */
module Report {
  import opened Wrappers
  import opened ReviewId
  import opened CommitStats
  import opened ReviewComments

  /** A row of the `CodeReviewSummary` sheet (the `Date of Review` column is left out). */
  datatype SummaryRow = SummaryRow(
    sprint: string,
    taskId: string,
    reviewId: string,
    developer: string,
    locAdded: nat,
    locModified: nat,
    locReviewed: nat,
    filesReviewed: seq<string>,
    commentCount: nat,
    reviewer: string,
    gitRevision: string)

  /** The rows one invocation writes: the comment rows, then the summary row or the TypeError that lost it. */
  datatype Written = Written(commentRows: seq<CommentRow>, summary: Result<SummaryRow, StatsError>)

  /**
   * The tail of `fetchGithubCommitDetails`: the revision range, the summed
   * counters, the de-duplicated file names and the summary record literal.
   */
  method BuildSummaryRow(branch: string, reviewId: string, developer: string,
                         fileResult: seq<seq<CommitFile>>, commentCount: nat, reviewer: string)
    returns (r: Result<SummaryRow, StatsError>)
    ensures r.Ok? <==> GitRevision(fileResult).Ok?
    ensures r.Ok? ==> r.value.gitRevision == GitRevision(fileResult).value
    ensures r.Ok? ==>
      var t := TotalsOf(Flatten(fileResult));
      r.value.locAdded == t.additions &&
      r.value.locModified == t.changes + t.deletions &&
      r.value.locReviewed == t.additions + t.changes + t.deletions
    ensures r.Ok? ==> r.value.locReviewed == r.value.locAdded + r.value.locModified
    ensures r.Ok? ==> r.value.filesReviewed == Dedupe(Names(Flatten(fileResult)))
    ensures r.Ok? ==>
      r.value.sprint == "Sprint Name" && r.value.taskId == branch && r.value.reviewId == reviewId &&
      r.value.developer == developer && r.value.commentCount == commentCount && r.value.reviewer == reviewer
  {
    var gitRevision := GitRevision(fileResult);
    if gitRevision.Err? {
      return Err(gitRevision.error);
    }
    var additions, deletions, changes, fileNames := AccumulateStats(fileResult);
    var files := Dedupe(fileNames);
    r := Ok(SummaryRow(
      "Sprint Name", branch, reviewId, developer,
      additions, changes + deletions, additions + changes + deletions,
      files, commentCount, reviewer, gitRevision.value));
  }

  /**
   * One invocation: allocate the next ID from the summary sheet's rows, build
   * the comment rows stamped with it, then the summary row. The committer
   * login (`developer`) is whichever commit detail arrived last.
   */
  method BuildReport(summaryRows: seq<Row>, comments: seq<ReviewComment>,
                     fileResult: seq<seq<CommitFile>>, branch: string, developer: string)
    returns (r: Result<Written, IdError>)
    ensures r.Err? <==> NextReviewId(LastIdCell(summaryRows)).Err?
    ensures r.Err? ==> r.error == NextReviewId(LastIdCell(summaryRows)).error
    ensures r.Ok? ==>
      var id := NextReviewId(LastIdCell(summaryRows)).value;
      |r.value.commentRows| == |comments| &&
      (forall k :: 0 <= k < |comments| ==>
        r.value.commentRows[k] == CommentRow(id, comments[k].body, comments[k].path)) &&
      (r.value.summary.Ok? <==> GitRevision(fileResult).Ok?) &&
      (r.value.summary.Ok? ==>
        r.value.summary.value.reviewId == id &&
        r.value.summary.value.commentCount == |comments| &&
        r.value.summary.value.reviewer == LastAuthor(comments) &&
        r.value.summary.value.developer == developer &&
        r.value.summary.value.taskId == branch &&
        r.value.summary.value.sprint == "Sprint Name" &&
        r.value.summary.value.gitRevision == GitRevision(fileResult).value &&
        r.value.summary.value.filesReviewed == Dedupe(Names(Flatten(fileResult))) &&
        (var t := TotalsOf(Flatten(fileResult));
         r.value.summary.value.locAdded == t.additions &&
         r.value.summary.value.locModified == t.changes + t.deletions &&
         r.value.summary.value.locReviewed == t.additions + t.changes + t.deletions))
    ensures r.Ok? && |summaryRows| < 3 ==> forall row :: row in r.value.commentRows ==> row.reviewId == "CD_RV_01"
  {
    var id := GetNextCodeReviewId(summaryRows);
    if id.Err? {
      return Err(id.error);
    }
    var rows, reviewer := BuildCommentRows(comments, id.value);
    var summary := BuildSummaryRow(branch, id.value, developer, fileResult, |rows|, reviewer);
    r := Ok(Written(rows, summary));
  }
}
