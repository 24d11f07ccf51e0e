/**
 * The commit-statistics aggregation of `fetchGithubCommitDetails`: line
 * counters summed over every file of every commit, the de-duplicated list of
 * touched file names, and the `GIT Revision` range string.
 */
module CommitStats {
  import opened Wrappers
  import opened Strings

  /** One entry of a commit's `files` list as the REST API reports it. */
  datatype CommitFile = CommitFile(sha: string, filename: string, additions: nat, deletions: nat, changes: nat)

  /** The three line counters. */
  datatype Totals = Totals(additions: nat, deletions: nat, changes: nat) {
    function Plus(other: Totals): Totals {
      Totals(additions + other.additions, deletions + other.deletions, changes + other.changes)
    }
  }

  const Zero: Totals := Totals(0, 0, 0)

  /** Reading `[0].sha` of a missing commit or of an empty file list throws a TypeError. */
  datatype StatsError = NoFirstFile

  /** The file entries of all commits, commit after commit (`fileResult` flattened). */
  function Flatten(fileResult: seq<seq<CommitFile>>): (r: seq<CommitFile>)
    ensures fileResult != [] && fileResult[0] != [] ==> |r| > 0 && r[0] == fileResult[0][0]
  {
    if fileResult == [] then []
    else Flatten(fileResult[..|fileResult| - 1]) + fileResult[|fileResult| - 1]
  }

  /** The counters summed over a list of file entries. */
  function TotalsOf(files: seq<CommitFile>): (r: Totals)
    ensures forall k :: 0 <= k < |files| ==>
      files[k].additions <= r.additions && files[k].deletions <= r.deletions && files[k].changes <= r.changes
  {
    if files == [] then Zero
    else TotalsOf(files[..|files| - 1]).Plus(Totals(files[|files| - 1].additions,
                                                   files[|files| - 1].deletions,
                                                   files[|files| - 1].changes))
  }

  /** The `filename` of each file entry, in order. */
  function Names(files: seq<CommitFile>): (r: seq<string>)
    ensures |r| == |files| && forall k :: 0 <= k < |files| ==> r[k] == files[k].filename
  {
    if files == [] then [] else Names(files[..|files| - 1]) + [files[|files| - 1].filename]
  }

  /**
   * The nested `forEach` over `fileResult`: it adds each file's counters to
   * `additions`, `deletions` and `changes` and pushes its `filename`.
   */
  method AccumulateStats(fileResult: seq<seq<CommitFile>>)
    returns (additions: nat, deletions: nat, changes: nat, fileNames: seq<string>)
    ensures Totals(additions, deletions, changes) == TotalsOf(Flatten(fileResult))
    ensures fileNames == Names(Flatten(fileResult))
  {
    additions, deletions, changes := 0, 0, 0;
    fileNames := [];
    var i := 0;
    while i < |fileResult|
      invariant 0 <= i <= |fileResult|
      invariant Totals(additions, deletions, changes) == TotalsOf(Flatten(fileResult[..i]))
      invariant fileNames == Names(Flatten(fileResult[..i]))
    {
      var files := fileResult[i];
      ghost var done := Flatten(fileResult[..i]);
      var j := 0;
      assert done + files[..j] == done;
      while j < |files|
        invariant 0 <= j <= |files|
        invariant Totals(additions, deletions, changes) == TotalsOf(done + files[..j])
        invariant fileNames == Names(done + files[..j])
      {
        var file := files[j];
        additions := additions + file.additions;
        deletions := deletions + file.deletions;
        changes := changes + file.changes;
        fileNames := fileNames + [file.filename];
        PushFile(done, files, j);
        j := j + 1;
      }
      assert files[..j] == files;
      FlattenStep(fileResult, i);
      i := i + 1;
    }
    assert fileResult[..i] == fileResult;
  }

  /** Pushing file `j` of a commit adds its counters and its name. */
  lemma PushFile(done: seq<CommitFile>, files: seq<CommitFile>, j: nat)
    requires j < |files|
    ensures TotalsOf(done + files[..j + 1]) ==
      TotalsOf(done + files[..j]).Plus(Totals(files[j].additions, files[j].deletions, files[j].changes))
    ensures Names(done + files[..j + 1]) == Names(done + files[..j]) + [files[j].filename]
  {
    var before := done + files[..j];
    assert done + files[..j + 1] == before + [files[j]];
    assert (before + [files[j]])[..|before|] == before;
  }

  /** The files of the first `i + 1` commits are those of the first `i`, then commit `i`'s. */
  lemma FlattenStep(fileResult: seq<seq<CommitFile>>, i: nat)
    requires i < |fileResult|
    ensures Flatten(fileResult[..i + 1]) == Flatten(fileResult[..i]) + fileResult[i]
  {
    assert fileResult[..i + 1][..i] == fileResult[..i];
  }

  /** Flattening distributes over concatenation of commit lists. */
  lemma {:induction false} FlattenAppend(a: seq<seq<CommitFile>>, b: seq<seq<CommitFile>>)
    ensures Flatten(a + b) == Flatten(a) + Flatten(b)
    decreases |b|
  {
    if b != [] {
      var ab := a + b;
      assert ab[..|ab| - 1] == a + b[..|b| - 1];
      FlattenAppend(a, b[..|b| - 1]);
    } else {
      assert a + b == a;
    }
  }

  /** Summing distributes over concatenation of file lists. */
  lemma {:induction false} TotalsAppend(x: seq<CommitFile>, y: seq<CommitFile>)
    ensures TotalsOf(x + y) == TotalsOf(x).Plus(TotalsOf(y))
    decreases |y|
  {
    if y != [] {
      var xy := x + y;
      assert xy[..|xy| - 1] == x + y[..|y| - 1];
      TotalsAppend(x, y[..|y| - 1]);
    } else {
      assert x + y == x;
    }
  }

  /** The counters of a commit list are the counters of its commits, summed. */
  lemma TotalsOfCommitsAppend(a: seq<seq<CommitFile>>, b: seq<seq<CommitFile>>)
    ensures TotalsOf(Flatten(a + b)) == TotalsOf(Flatten(a)).Plus(TotalsOf(Flatten(b)))
  {
    FlattenAppend(a, b);
    TotalsAppend(Flatten(a), Flatten(b));
  }

  /** Taking commit `i` out of the list takes it out of the multiset of commits. */
  lemma RemoveCommitMultiset(fileResult: seq<seq<CommitFile>>, i: nat)
    requires i < |fileResult|
    ensures multiset(fileResult[..i] + fileResult[i + 1..]) == multiset(fileResult) - multiset{fileResult[i]}
  {
    assert fileResult == fileResult[..i] + [fileResult[i]] + fileResult[i + 1..];
  }

  /** Adding counters does not depend on the order. */
  lemma PlusSwap(x: Totals, y: Totals, z: Totals)
    ensures x.Plus(y).Plus(z) == x.Plus(z).Plus(y)
  {
  }

  /** A sequence is its prefix, its element `i` and its suffix. */
  lemma SplitAt<T>(s: seq<T>, i: nat)
    requires i < |s|
    ensures s == s[..i] + [s[i]] + s[i + 1..]
  {
  }

  /** A one-commit list flattens to that commit's files. */
  lemma FlattenSingle(c: seq<CommitFile>)
    ensures Flatten([c]) == c
  {
    assert [c][..0] == [];
  }

  /** Taking commit `i` out of the list takes its files' counters out of the totals. */
  lemma RemoveCommitTotals(fileResult: seq<seq<CommitFile>>, i: nat)
    requires i < |fileResult|
    ensures TotalsOf(Flatten(fileResult)) ==
      TotalsOf(Flatten(fileResult[..i] + fileResult[i + 1..])).Plus(TotalsOf(fileResult[i]))
  {
    var a, c, b := fileResult[..i], fileResult[i], fileResult[i + 1..];
    var ta, tc, tb := TotalsOf(Flatten(a)), TotalsOf(c), TotalsOf(Flatten(b));
    assert TotalsOf(Flatten(a + [c])) == ta.Plus(tc) by {
      TotalsOfCommitsAppend(a, [c]);
      FlattenSingle(c);
    }
    assert TotalsOf(Flatten(fileResult)) == ta.Plus(tc).Plus(tb) by {
      SplitAt(fileResult, i);
      TotalsOfCommitsAppend(a + [c], b);
    }
    assert TotalsOf(Flatten(a + b)) == ta.Plus(tb) by {
      TotalsOfCommitsAppend(a, b);
    }
    PlusSwap(ta, tc, tb);
  }

  /**
   * The totals do not depend on the order in which the commit details
   * arrive (`Promise.all` pushes them in completion order).
   */
  lemma {:induction false} TotalsOrderIndependent(fileResult: seq<seq<CommitFile>>, other: seq<seq<CommitFile>>)
    requires multiset(fileResult) == multiset(other)
    ensures TotalsOf(Flatten(fileResult)) == TotalsOf(Flatten(other))
    decreases |other|
  {
    if other == [] {
      assert |fileResult| == |multiset(fileResult)| == 0;
    } else {
      var n := |other| - 1;
      var c := other[n];
      assert c in multiset(fileResult);
      var i :| 0 <= i < |fileResult| && fileResult[i] == c;
      RemoveCommitMultiset(fileResult, i);
      RemoveCommitMultiset(other, n);
      RemoveCommitTotals(fileResult, i);
      RemoveCommitTotals(other, n);
      assert other[..n] + other[n + 1..] == other[..n];
      TotalsOrderIndependent(fileResult[..i] + fileResult[i + 1..], other[..n]);
    }
  }

  /** A file entry is in the flattened list exactly when some commit lists it. */
  lemma {:induction false} FlattenMember(fileResult: seq<seq<CommitFile>>, file: CommitFile)
    ensures file in Flatten(fileResult) <==> exists i :: 0 <= i < |fileResult| && file in fileResult[i]
    decreases |fileResult|
  {
    if fileResult != [] {
      var n := |fileResult| - 1;
      var init := fileResult[..n];
      FlattenMember(init, file);
      assert Flatten(fileResult) == Flatten(init) + fileResult[n];
      if file in Flatten(fileResult) && file !in fileResult[n] {
        var i :| 0 <= i < |init| && file in init[i];
        assert fileResult[i] == init[i];
      }
      if exists i :: 0 <= i < |fileResult| && file in fileResult[i] {
        var i :| 0 <= i < |fileResult| && file in fileResult[i];
        if i < n {
          assert init[i] == fileResult[i];
        }
      }
    }
  }

  /** Every element of `s` appears at most once. */
  predicate NoDuplicates(s: seq<string>) {
    forall i, j :: 0 <= i < j < |s| ==> s[i] != s[j]
  }

  /**
   * `[...new Set(fileNames)]`: each name once, in the order of its first
   * occurrence.
   */
  function Dedupe(names: seq<string>): (r: seq<string>)
    ensures forall x :: x in r <==> x in names
    ensures NoDuplicates(r)
    ensures |r| <= |names|
  {
    if names == [] then []
    else
      var init := names[..|names| - 1];
      var last := names[|names| - 1];
      var d := Dedupe(init);
      if last in init then d
      else
        assert forall x :: x in names <==> x in init || x == last by {
          assert names == init + [last];
        }
        d + [last]
  }

  /**
   * The de-duplicated names are in first-seen order: wherever a listed name
   * occurs in the input, every name listed before it has already occurred.
   */
  lemma {:induction false} DedupeFirstSeenOrder(names: seq<string>)
    ensures forall i, j, q :: 0 <= i < j < |Dedupe(names)| && 0 <= q < |names| && names[q] == Dedupe(names)[j] ==>
      Dedupe(names)[i] in names[..q]
  {
    if names != [] {
      var init := names[..|names| - 1];
      var last := names[|names| - 1];
      DedupeFirstSeenOrder(init);
      var d := Dedupe(init);
      var r := Dedupe(names);
      forall i, j, q | 0 <= i < j < |r| && 0 <= q < |names| && names[q] == r[j] ensures r[i] in names[..q] {
        assert r[i] == d[i];
        if q < |init| {
          assert init[q] == names[q];
          assert init[..q] == names[..q];
          if j < |d| {
            assert r[j] == d[j];
          }
        } else {
          assert names[..q] == init;
        }
      }
    }
  }

  /**
   * The `List of Files Reviewed`: a name is listed exactly when some commit
   * touches it, each once, and never more names than file entries.
   */
  lemma FilesReviewedSpec(fileResult: seq<seq<CommitFile>>, name: string)
    ensures name in Dedupe(Names(Flatten(fileResult))) <==>
      exists i, file :: 0 <= i < |fileResult| && file in fileResult[i] && file.filename == name
    ensures NoDuplicates(Dedupe(Names(Flatten(fileResult))))
    ensures |Dedupe(Names(Flatten(fileResult)))| <= |Flatten(fileResult)|
  {
    var flat := Flatten(fileResult);
    if name in Names(flat) {
      var k :| 0 <= k < |flat| && Names(flat)[k] == name;
      FlattenMember(fileResult, flat[k]);
    }
    forall i, file | 0 <= i < |fileResult| && file in fileResult[i] && file.filename == name
      ensures name in Names(flat)
    {
      FlattenMember(fileResult, file);
      var k :| 0 <= k < |flat| && flat[k] == file;
      assert Names(flat)[k] == name;
    }
  }

  /** Which files are listed does not depend on the order in which the commit details arrive. */
  lemma FilesReviewedOrderIndependent(fileResult: seq<seq<CommitFile>>, other: seq<seq<CommitFile>>, name: string)
    requires multiset(fileResult) == multiset(other)
    ensures name in Dedupe(Names(Flatten(fileResult))) <==> name in Dedupe(Names(Flatten(other)))
  {
    FilesReviewedSpec(fileResult, name);
    FilesReviewedSpec(other, name);
    forall i, file | 0 <= i < |fileResult| && file in fileResult[i] && file.filename == name
      ensures exists i', file' :: 0 <= i' < |other| && file' in other[i'] && file'.filename == name
    {
      assert fileResult[i] in multiset(other);
      var i' :| 0 <= i' < |other| && other[i'] == fileResult[i];
    }
    forall i, file | 0 <= i < |other| && file in other[i] && file.filename == name
      ensures exists i', file' :: 0 <= i' < |fileResult| && file' in fileResult[i'] && file'.filename == name
    {
      assert other[i] in multiset(fileResult);
      var i' :| 0 <= i' < |fileResult| && fileResult[i'] == other[i];
    }
  }

  /**
   * Two commits with any SHAs: `a.js` (+10 -2, 12 changes) with `b.js`, and
   * `b.js` (+5 -1, 6 changes) with `c.js`.
   */
  function ExampleCommits(sha1: string, sha2: string): seq<seq<CommitFile>> {
    [[CommitFile(sha1, "a.js", 10, 2, 12), CommitFile(sha1, "b.js", 0, 0, 0)],
     [CommitFile(sha2, "b.js", 5, 1, 6), CommitFile(sha2, "c.js", 0, 0, 0)]]
  }

  /** The example's two commits flatten to their four file entries. */
  lemma FlattenExample(sha1: string, sha2: string)
    ensures Flatten(ExampleCommits(sha1, sha2)) == ExampleCommits(sha1, sha2)[0] + ExampleCommits(sha1, sha2)[1]
  {
    var c := ExampleCommits(sha1, sha2);
    assert c[..1] == [c[0]];
    FlattenSingle(c[0]);
  }

  /** The example sums to 15 added, 3 deleted and 18 changed lines. */
  lemma ExampleTotals(sha1: string, sha2: string)
    ensures TotalsOf(Flatten(ExampleCommits(sha1, sha2))) == Totals(15, 3, 18)
  {
    var c := ExampleCommits(sha1, sha2);
    FlattenExample(sha1, sha2);
    TotalsAppend(c[0], c[1]);
    TotalsOfPair(c[0][0], c[0][1]);
    TotalsOfPair(c[1][0], c[1][1]);
  }

  /** The counters of two file entries. */
  lemma TotalsOfPair(f: CommitFile, g: CommitFile)
    ensures TotalsOf([f, g]) ==
      Totals(f.additions + g.additions, f.deletions + g.deletions, f.changes + g.changes)
  {
    assert [f][..0] == [];
    assert TotalsOf([f]) == Zero.Plus(Totals(f.additions, f.deletions, f.changes));
    assert [f, g][..1] == [f];
    assert TotalsOf([f, g]) == TotalsOf([f]).Plus(Totals(g.additions, g.deletions, g.changes));
  }

  /** The example lists `a.js`, `b.js`, `c.js`: `b.js` once, where it was first seen. */
  lemma ExampleFiles(sha1: string, sha2: string)
    ensures Dedupe(Names(Flatten(ExampleCommits(sha1, sha2)))) == ["a.js", "b.js", "c.js"]
  {
    var c := ExampleCommits(sha1, sha2);
    FlattenExample(sha1, sha2);
    var names := Names(Flatten(c));
    assert names == ["a.js", "b.js", "b.js", "c.js"];
    assert names[..1][..0] == [];
    assert names[..2][..1] == names[..1];
    assert names[..3][..2] == names[..2];
    assert names[..|names| - 1] == names[..3];
    assert Dedupe(names[..1]) == ["a.js"];
    assert Dedupe(names[..2]) == ["a.js", "b.js"];
    assert Dedupe(names[..3]) == ["a.js", "b.js"] by {
      assert names[..3][2] in names[..2];
    }
  }

  /**
   * The `GIT Revision` template: the `sha` of the first file of the first
   * commit, `...`, and the `sha` of the first file of the last commit.
   */
  function GitRevision(fileResult: seq<seq<CommitFile>>): (r: Result<string, StatsError>)
    ensures r.Ok? <==> |fileResult| > 0 && |fileResult[0]| > 0 && |fileResult[|fileResult| - 1]| > 0
    ensures r.Ok? ==> |r.value| >= 3
  {
    if |fileResult| == 0 || |fileResult[0]| == 0 || |fileResult[|fileResult| - 1]| == 0 then
      Err(NoFirstFile)
    else
      Ok(fileResult[0][0].sha + "..." + fileResult[|fileResult| - 1][0].sha)
  }

  /** Splits a revision range `a...b` at its first `...`. */
  function RangeEnds(revision: string): (r: Option<(string, string)>)
    ensures r.Some? ==> r.value.0 + "..." + r.value.1 == revision
  {
    match IndexOf(revision, "...")
    case None => None
    case Some(i) =>
      assert revision == revision[..i] + "..." + revision[i + 3..] by {
        assert revision[i..i + 3] == "...";
      }
      Some((revision[..i], revision[i + 3..]))
  }

  /**
   * The range names the two commits' first-file SHAs, and splitting it gives
   * them back when the first SHA holds no dot (a hexadecimal SHA never does).
   */
  lemma GitRevisionEnds(fileResult: seq<seq<CommitFile>>)
    requires GitRevision(fileResult).Ok?
    requires '.' !in fileResult[0][0].sha
    ensures RangeEnds(GitRevision(fileResult).value) ==
      Some((fileResult[0][0].sha, fileResult[|fileResult| - 1][0].sha))
  {
    var first := fileResult[0][0].sha;
    var last := fileResult[|fileResult| - 1][0].sha;
    var rev := first + "..." + last;
    assert rev[|first|..|first| + 3] == "...";
    assert OccursAt(rev, "...", |first|);
    forall j: nat | j < |first| ensures !OccursAt(rev, "...", j) {
      assert rev[j] == first[j];
    }
    assert rev[..|first|] == first;
    assert rev[|first| + 3..] == last;
  }
}
