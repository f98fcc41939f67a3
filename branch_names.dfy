/**
 * Azure DevOps reports branches as full refs (`refs/heads/feature/x`); the
 * enumerator keeps only what follows the last `/`, as Python's
 * `name.split('/')[-1]` does.
 */
module BranchNames {

  const SEPARATOR: char := '/'

  /** Python's `s.split(sep)`: the pieces between separators, empty pieces included. */
  function Split(s: string, sep: char): (parts: seq<string>)
    ensures |parts| >= 1
    ensures forall i :: 0 <= i < |parts| ==> sep !in parts[i]
    ensures |parts| == 1 <==> sep !in s
    decreases |s|
  {
    if s == [] then [""]
    else
      var rest := Split(s[1..], sep);
      if s[0] == sep then [""] + rest
      else [[s[0]] + rest[0]] + rest[1..]
  }

  /** Python's `sep.join(parts)`. */
  function Join(parts: seq<string>, sep: char): string
    requires |parts| >= 1
    decreases |parts|
  {
    if |parts| == 1 then parts[0] else parts[0] + [sep] + Join(parts[1..], sep)
  }

  /** Joining the pieces with the separator gives back the string. */
  lemma {:induction false} JoinSplit(s: string, sep: char)
    ensures Join(Split(s, sep), sep) == s
    decreases |s|
  {
    if s != [] {
      JoinSplit(s[1..], sep);
      var rest := Split(s[1..], sep);
      if s[0] == sep {
        assert ([""] + rest)[1..] == rest;
      } else {
        var parts := [[s[0]] + rest[0]] + rest[1..];
        if |rest| > 1 {
          assert parts[1..] == rest[1..];
          assert Join(rest, sep) == rest[0] + [sep] + Join(rest[1..], sep);
        }
      }
    }
  }

  /** The last piece of `s.split(sep)`. */
  function LastPieceOf(s: string, sep: char): string {
    var parts := Split(s, sep);
    parts[|parts| - 1]
  }

  /** `branch['name'].split('/')[-1]` (Github-Azure_Devops-Diff_Check.py line 173). */
  function StripRef(name: string): string {
    LastPieceOf(name, SEPARATOR)
  }

  /** The last piece is the whole string when there is no separator, and otherwise the last piece of the string's tail. */
  lemma LastPieceStep(s: string, sep: char)
    requires s != []
    ensures LastPieceOf(s, sep) == if sep !in s then s else LastPieceOf(s[1..], sep)
  {
    var rest := Split(s[1..], sep);
    if sep !in s {
      assert |Split(s, sep)| == 1;
      JoinSplit(s, sep);
    } else if s[0] != sep {
      assert sep in s[1..] by {
        var i :| 0 <= i < |s| && s[i] == sep;
        assert s[1..][i - 1] == sep;
      }
      assert |rest| > 1;
    }
  }

  /** The last piece of a split is the longest suffix free of the separator. */
  lemma {:induction false} LastPiece(s: string, sep: char)
    ensures var r := LastPieceOf(s, sep);
      && sep !in r
      && |r| <= |s| && s[|s| - |r|..] == r
      && (sep !in s ==> r == s)
      && (sep in s ==> |r| < |s| && s[|s| - |r| - 1] == sep)
    decreases |s|
  {
    if s == [] {
      assert LastPieceOf(s, sep) == "";
    } else if sep in s {
      var t := s[1..];
      LastPiece(t, sep);
      LastPieceStep(s, sep);
      var r := LastPieceOf(t, sep);
      assert s[|s| - |r|..] == t[|t| - |r|..];
      if sep in t {
        assert s[|s| - |r| - 1] == t[|t| - |r| - 1];
      } else {
        assert r == t;
        assert s[0] == sep;
      }
    } else {
      LastPieceStep(s, sep);
      assert s[|s| - |s|..] == s;
    }
  }

  /**
   * A stripped branch name contains no `/`, is a suffix of the ref, is the
   * whole ref when the ref has no `/`, and otherwise starts right after the
   * last `/`.
   */
  lemma StripRefSpec(name: string)
    ensures '/' !in StripRef(name)
    ensures |StripRef(name)| <= |name| && name[|name| - |StripRef(name)|..] == StripRef(name)
    ensures '/' !in name ==> StripRef(name) == name
    ensures '/' in name ==> |StripRef(name)| < |name| && name[|name| - |StripRef(name)| - 1] == '/'
  {
    LastPiece(name, SEPARATOR);
  }
}
