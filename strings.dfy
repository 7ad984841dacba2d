/** The two functions of Go's `strings` package that the uploader calls:
    `Replace` with a count of one and `Split` on a one-character separator.
    Also `Index`, which `Replace` uses to find the occurrence, and `Join`,
    the inverse of `Split`, which is used only in proofs. A Go string is a
    sequence of bytes; here each `char` stands for one byte. */
module Strings {

  /** `pat` occurs in `s` starting at index `i`. */
  predicate OccursAt(s: string, pat: string, i: int) {
    0 <= i && i + |pat| <= |s| && s[i..i + |pat|] == pat
  }

  predicate Occurs(s: string, pat: string) {
    exists i :: 0 <= i <= |s| - |pat| && OccursAt(s, pat, i)
  }

  /** `i` is where the leftmost occurrence of `pat` in `s` starts. */
  predicate FirstOccurrence(s: string, pat: string, i: int) {
    OccursAt(s, pat, i) && forall j :: 0 <= j < i ==> !OccursAt(s, pat, j)
  }

  /** Occurrences in `s` from index 1 on are the occurrences in `s[1..]`, shifted by one. */
  lemma OccursAtTail(s: string, pat: string)
    requires |s| > 0
    ensures forall j :: 1 <= j ==> (OccursAt(s, pat, j) <==> OccursAt(s[1..], pat, j - 1))
  {
    forall j | 1 <= j
      ensures OccursAt(s, pat, j) <==> OccursAt(s[1..], pat, j - 1)
    {
      if j + |pat| <= |s| {
        var here, there := s[j..j + |pat|], s[1..][j - 1..j - 1 + |pat|];
        assert forall k :: 0 <= k < |pat| ==> here[k] == there[k];
        assert here == there;
      }
    }
  }

  /** `strings.Index`: where the first occurrence of `pat` starts, or -1. */
  function IndexOf(s: string, pat: string): (r: int)
    ensures r == -1 || FirstOccurrence(s, pat, r)
    ensures r == -1 ==> !Occurs(s, pat)
    decreases |s|
  {
    if |s| < |pat| then -1
    else if s[..|pat|] == pat then 0
    else
      var k := IndexOf(s[1..], pat);
      OccursAtTail(s, pat);
      assert !OccursAt(s, pat, 0) by { assert s[0..|pat|] == s[..|pat|]; }
      if k == -1 then -1 else k + 1
  }

  /** `strings.Replace(s, target, replacement, 1)`: the leftmost occurrence
      of `target` is replaced by `replacement`; without one, `s` comes back
      as it is. (Go's shortcut for `target == replacement` returns `s`,
      which is also what the general case gives.) */
  function ReplaceFirst(s: string, target: string, replacement: string): (r: string)
    ensures !Occurs(s, target) ==> r == s
    ensures Occurs(s, target) ==>
      exists i :: FirstOccurrence(s, target, i) && r == s[..i] + replacement + s[i + |target|..]
  {
    var i := IndexOf(s, target);
    if i == -1 then s else s[..i] + replacement + s[i + |target|..]
  }

  /** Replacing in `p + target + q`, where `target` does not start anywhere
      inside `p`, rewrites exactly that occurrence: everything before it and
      everything after it, later occurrences included, is kept. */
  lemma ReplaceFirstAt(p: string, target: string, q: string, replacement: string)
    requires forall j :: 0 <= j < |p| ==> !OccursAt(p + target + q, target, j)
    ensures ReplaceFirst(p + target + q, target, replacement) == p + replacement + q
  {
    var s := p + target + q;
    assert s[|p|..|p| + |target|] == target;
    assert OccursAt(s, target, |p|);
    var i := IndexOf(s, target);
    assert i == |p|;
    assert s[..i] == p;
    assert s[i + |target|..] == q;
  }

  /** A string that starts with the target has that leading occurrence
      replaced. */
  lemma ReplaceFirstLeading(target: string, q: string, replacement: string)
    ensures ReplaceFirst(target + q, target, replacement) == replacement + q
  {
    var s := target + q;
    assert s[..|target|] == target;
    assert IndexOf(s, target) == 0;
    assert ReplaceFirst(s, target, replacement) == s[..0] + replacement + s[|target|..];
    assert s[..0] == "" && s[|target|..] == q;
  }

  /** The replacement leaves the string unchanged exactly when there is
      nothing to replace or the replacement equals the target. */
  lemma ReplaceFirstUnchangedIff(s: string, target: string, replacement: string)
    ensures ReplaceFirst(s, target, replacement) == s <==> (!Occurs(s, target) || target == replacement)
  {
    if Occurs(s, target) {
      var r := ReplaceFirst(s, target, replacement);
      var i :| FirstOccurrence(s, target, i) && r == s[..i] + replacement + s[i + |target|..];
      SpliceUnchangedIff(s, i, target, replacement);
    }
  }

  /** Putting `replacement` in place of the occurrence of `target` at `i`
      gives `s` back exactly when the two are equal. */
  lemma SpliceUnchangedIff(s: string, i: int, target: string, replacement: string)
    requires OccursAt(s, target, i)
    ensures s[..i] + replacement + s[i + |target|..] == s <==> target == replacement
  {
    var r := s[..i] + replacement + s[i + |target|..];
    if target == replacement {
      assert s == s[..i] + s[i..i + |target|] + s[i + |target|..];
    } else if |replacement| == |target| {
      assert r[i..i + |replacement|] == replacement;
    } else {
      assert |r| != |s|;
    }
  }

  /** `strings.Join(parts, string(sep))`. */
  function Join(parts: seq<string>, sep: char): string
  {
    if |parts| == 0 then ""
    else if |parts| == 1 then parts[0]
    else parts[0] + [sep] + Join(parts[1..], sep)
  }

  /** `strings.Split(s, string(sep))`: the pieces of `s` between
      separators. There is always at least one piece, and none contains the
      separator. */
  function Split(s: string, sep: char): (parts: seq<string>)
    ensures |parts| >= 1
    ensures forall k :: 0 <= k < |parts| ==> sep !in parts[k]
    decreases |s|
  {
    if |s| == 0 then [""]
    else if s[0] == sep then [""] + Split(s[1..], sep)
    else
      var rest := Split(s[1..], sep);
      [[s[0]] + rest[0]] + rest[1..]
  }

  /** Joining the pieces with the separator gives back the split string. */
  lemma {:induction false} JoinSplit(s: string, sep: char)
    ensures Join(Split(s, sep), sep) == s
    decreases |s|
  {
    if |s| > 0 {
      var rest := Split(s[1..], sep);
      JoinSplit(s[1..], sep);
      if s[0] == sep {
        assert Split(s, sep) == [""] + rest;
        if |rest| == 1 {
          assert Join(Split(s, sep), sep) == "" + [sep] + rest[0];
        }
        assert [s[0]] + s[1..] == s;
      } else {
        var parts := Split(s, sep);
        assert parts == [[s[0]] + rest[0]] + rest[1..];
        if |rest| == 1 {
          assert Join(parts, sep) == [s[0]] + rest[0];
        } else {
          assert parts[1..] == rest[1..];
          assert Join(parts, sep) == [s[0]] + rest[0] + [sep] + Join(rest[1..], sep);
          assert rest[0] + [sep] + Join(rest[1..], sep) == Join(rest, sep);
        }
        assert [s[0]] + s[1..] == s;
      }
    }
  }

  /** A string without the separator splits into itself alone. */
  lemma {:induction false} SplitWithoutSeparator(s: string, sep: char)
    requires sep !in s
    ensures Split(s, sep) == [s]
  {
    if |s| > 0 {
      SplitWithoutSeparator(s[1..], sep);
      assert [s[0]] + s[1..] == s;
    }
  }

  /** Splitting around one separator splits each side on its own. */
  lemma {:induction false} SplitConcat(a: string, b: string, sep: char)
    ensures Split(a + [sep] + b, sep) == Split(a, sep) + Split(b, sep)
    decreases |a|
  {
    var s := a + [sep] + b;
    if |a| == 0 {
      assert s == [sep] + b;
      assert s[1..] == b;
    } else {
      assert s[0] == a[0];
      assert s[1..] == a[1..] + [sep] + b;
      SplitConcat(a[1..], b, sep);
    }
  }

  /** Joining separator-free pieces and splitting again gives the pieces back. */
  lemma {:induction false} SplitJoin(parts: seq<string>, sep: char)
    requires |parts| >= 1
    requires forall k :: 0 <= k < |parts| ==> sep !in parts[k]
    ensures Split(Join(parts, sep), sep) == parts
  {
    SplitWithoutSeparator(parts[0], sep);
    if |parts| > 1 {
      SplitJoin(parts[1..], sep);
      SplitConcat(parts[0], Join(parts[1..], sep), sep);
      assert [parts[0]] + parts[1..] == parts;
    }
  }

  /** The pieces of `s` other than the first are the pieces of `s[1..]`
      other than its first. */
  lemma SplitTail(s: string, sep: char)
    requires |s| > 0
    ensures |Split(s, sep)| == |Split(s[1..], sep)| + (if s[0] == sep then 1 else 0)
    ensures s[0] == sep ==> Split(s, sep)[0] == ""
    ensures s[0] != sep ==> Split(s, sep)[0] == [s[0]] + Split(s[1..], sep)[0]
    ensures s[0] == sep ==> Split(s, sep)[1..] == Split(s[1..], sep)
    ensures s[0] != sep ==> Split(s, sep)[1..] == Split(s[1..], sep)[1..]
  {
  }

  /** The last piece of `s` is the last piece of `s[1..]`, extended by the
      first character when that piece is also the first. */
  lemma SplitTailLast(s: string, sep: char)
    requires |s| > 0
    ensures var parts, rest := Split(s, sep), Split(s[1..], sep);
      parts[|parts| - 1] == if s[0] != sep && |rest| == 1 then [s[0]] + rest[0] else rest[|rest| - 1]
  {
    var rest := Split(s[1..], sep);
    if s[0] == sep {
      assert Split(s, sep) == [""] + rest;
    } else {
      assert Split(s, sep) == [[s[0]] + rest[0]] + rest[1..];
      if |rest| > 1 {
        assert rest[1..][|rest| - 2] == rest[|rest| - 1];
      }
    }
  }

  /** The last piece is a suffix of `s`. */
  lemma {:induction false} SplitLast(s: string, sep: char)
    ensures var parts := Split(s, sep); var last := parts[|parts| - 1];
      |last| <= |s| && last == s[|s| - |last|..]
    decreases |s|
  {
    if |s| > 0 {
      SplitTailLast(s, sep);
      SplitLast(s[1..], sep);
      var parts, rest := Split(s, sep), Split(s[1..], sep);
      var last := parts[|parts| - 1];
      if s[0] != sep && |rest| == 1 {
        JoinSplit(s[1..], sep);
        assert Join(rest, sep) == rest[0] == s[1..];
        assert last == [s[0]] + s[1..] == s;
      } else {
        assert s[1..][|s[1..]| - |last|..] == s[|s| - |last|..];
      }
    }
  }

  /** When `s` does not end with the separator, its last piece is not empty. */
  lemma {:induction false} SplitLastNonEmpty(s: string, sep: char)
    requires |s| > 0 && s[|s| - 1] != sep
    ensures var parts := Split(s, sep); parts[|parts| - 1] != ""
    decreases |s|
  {
    SplitTailLast(s, sep);
    if |s| > 1 {
      SplitLastNonEmpty(s[1..], sep);
    } else {
      assert s[1..] == "";
    }
  }
}
