/**
 * The JavaScript string operations the review-ID allocator uses:
 * `indexOf`, the second field of `split(sep)`, and `padStart`.
 */
module Strings {
  import opened Wrappers

  /** `sep` occurs in `s` at position `j`. */
  predicate OccursAt(s: string, sep: string, j: nat) {
    j + |sep| <= |s| && s[j..j + |sep|] == sep
  }

  /** `sep` occurs somewhere in `s`. */
  predicate Occurs(s: string, sep: string) {
    exists j: nat :: j <= |s| && OccursAt(s, sep, j)
  }

  /** `s.indexOf(sep)`: the position of the first occurrence, or None for -1. */
  function IndexOf(s: string, sep: string): (r: Option<nat>)
    requires |sep| > 0
    ensures r.Some? ==> OccursAt(s, sep, r.value)
    ensures r.Some? ==> forall j: nat :: j < r.value ==> !OccursAt(s, sep, j)
    ensures r.None? <==> !Occurs(s, sep)
    decreases |s|
  {
    if |s| < |sep| then None
    else if s[..|sep|] == sep then Some(0)
    else
      var rest := IndexOf(s[1..], sep);
      assert forall j: nat :: OccursAt(s[1..], sep, j) <==> OccursAt(s, sep, j + 1) by {
        forall j: nat ensures OccursAt(s[1..], sep, j) <==> OccursAt(s, sep, j + 1) {
          if j + |sep| <= |s[1..]| {
            assert s[1..][j..j + |sep|] == s[j + 1..j + 1 + |sep|];
          }
        }
      }
      match rest
      case None =>
        assert forall j: nat :: !OccursAt(s, sep, j) by {
          forall j: nat ensures !OccursAt(s, sep, j) {
            if j > 0 { assert !OccursAt(s[1..], sep, j - 1); }
          }
        }
        None
      case Some(i) =>
        assert !OccursAt(s, sep, 0) by { assert s[0..|sep|] == s[..|sep|]; }
        assert forall j: nat :: 0 < j <= i ==> !OccursAt(s, sep, j) by {
          forall j: nat | 0 < j <= i ensures !OccursAt(s, sep, j) {
            assert !OccursAt(s[1..], sep, j - 1);
          }
        }
        Some(i + 1)
  }

  /**
   * `s.split(sep)[1]` for a non-empty separator: the text between the first
   * and the second occurrence of `sep` (or the end of `s`), and None
   * (`undefined`) when `sep` does not occur at all.
   */
  function SecondField(s: string, sep: string): (r: Option<string>)
    requires |sep| > 0
    ensures r.None? <==> !Occurs(s, sep)
    ensures r.Some? ==> !Occurs(r.value, sep) && |r.value| + |sep| <= |s|
    ensures r.Some? ==> IndexOf(s, sep).Some? && FieldAt(s[IndexOf(s, sep).value + |sep|..], sep, r.value)
  {
    match IndexOf(s, sep)
    case None => None
    case Some(_) =>
      var start := IndexOf(s, sep).value + |sep|;
      var field := FirstField(s[start..], sep);
      assert |field| + |sep| <= |s| by {
        assert |field| <= |s[start..]| == |s| - start;
      }
      Some(field)
  }

  /**
   * `s.split(sep)[0]`: the text of `s` up to the first occurrence of `sep`,
   * or all of `s` when `sep` does not occur.
   */
  function FirstField(s: string, sep: string): (r: string)
    requires |sep| > 0
    ensures !Occurs(r, sep) && FieldAt(s, sep, r)
  {
    match IndexOf(s, sep)
    case None =>
      assert s[..|s|] == s;
      s
    case Some(j) =>
      BeforeFirstOccurrence(s, sep, j);
      s[..j]
  }

  /** `field` opens `rest` and runs up to the next `sep` or to the end of `rest`. */
  predicate FieldAt(rest: string, sep: string, field: string) {
    |field| <= |rest| && rest[..|field|] == field && (|field| == |rest| || OccursAt(rest, sep, |field|)) &&
    forall j: nat :: j < |field| ==> !OccursAt(rest, sep, j)
  }

  /** The text before the first occurrence of `sep` holds no `sep`. */
  lemma BeforeFirstOccurrence(s: string, sep: string, j: nat)
    requires |sep| > 0 && IndexOf(s, sep) == Some(j)
    ensures !Occurs(s[..j], sep)
  {
    forall k: nat | k <= j ensures !OccursAt(s[..j], sep, k) {
      OccursInPrefix(s, sep, j, k);
    }
  }

  /** An occurrence inside the prefix `s[..j]` is an occurrence in `s`. */
  lemma OccursInPrefix(s: string, sep: string, j: nat, k: nat)
    requires j <= |s|
    ensures OccursAt(s[..j], sep, k) ==> OccursAt(s, sep, k)
  {
    if k + |sep| <= j {
      assert s[..j][k..k + |sep|] == s[k..k + |sep|];
    }
  }

  /** A string of `n` copies of `c`. */
  function Repeat(c: char, n: nat): (r: string)
    ensures |r| == n && forall i :: 0 <= i < n ==> r[i] == c
  {
    if n == 0 then [] else Repeat(c, n - 1) + [c]
  }

  /**
   * `s.padStart(width, c)` with a one-character pad: `s` itself when it is
   * long enough, otherwise `s` preceded by copies of `c` up to `width`.
   * It never truncates.
   */
  function PadStart(s: string, width: nat, c: char): (r: string)
    ensures |r| == if |s| >= width then |s| else width
    ensures r[|r| - |s|..] == s
    ensures forall i :: 0 <= i < |r| - |s| ==> r[i] == c
  {
    if |s| >= width then s else Repeat(c, width - |s|) + s
  }

  /** `prefix + field` splits back into `field` when `field` holds no separator. */
  lemma SecondFieldOfPrefixed(sep: string, field: string)
    requires |sep| > 0 && !Occurs(field, sep)
    ensures SecondField(sep + field, sep) == Some(field)
  {
    var s := sep + field;
    assert s[..|sep|] == sep;
    assert IndexOf(s, sep) == Some(0);
    assert s[|sep|..] == field;
  }
}
