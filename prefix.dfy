/** The key prefix: the source directory's last non-empty path component,
    which every uploaded file's key starts with, and the two
    `<a><separator><b>` strings an entry's file name goes into: the local
    path to open, built from the source directory, and the object key,
    built from the prefix. The separator is a parameter standing for the
    platform's path separator. */
module PathPrefix {
  import opened Results
  import opened Strings

  /** The non-empty components, in order. Defined from the end, the way the
      collecting loop appends. */
  function NonEmpty(components: seq<string>): (parents: seq<string>)
    ensures |parents| <= |components|
    ensures forall p :: p in parents ==> p != "" && p in components
  {
    if |components| == 0 then []
    else
      var last := components[|components| - 1];
      NonEmpty(components[..|components| - 1]) + (if last != "" then [last] else [])
  }

  /** Filtering distributes over concatenation: the order of the kept
      components is the order of the input. */
  lemma {:induction false} NonEmptyAppend(a: seq<string>, b: seq<string>)
    ensures NonEmpty(a + b) == NonEmpty(a) + NonEmpty(b)
    decreases |b|
  {
    if |b| == 0 {
      assert a + b == a;
    } else {
      var last := b[|b| - 1];
      assert (a + b)[..|a + b| - 1] == a + b[..|b| - 1];
      NonEmptyAppend(a, b[..|b| - 1]);
    }
  }

  /** A component is kept exactly when it occurs and is not empty. */
  lemma {:induction false} NonEmptyMember(components: seq<string>, x: string)
    ensures x in NonEmpty(components) <==> x in components && x != ""
    decreases |components|
  {
    if |components| > 0 {
      var init := components[..|components| - 1];
      NonEmptyMember(init, x);
      assert components == init + [components[|components| - 1]];
    }
  }

  /** Nothing is kept exactly when every component is empty. */
  lemma {:induction false} NonEmptyNone(components: seq<string>)
    ensures NonEmpty(components) == [] <==> forall k :: 0 <= k < |components| ==> components[k] == ""
  {
    if NonEmpty(components) == [] {
      forall k | 0 <= k < |components|
        ensures components[k] == ""
      {
        NonEmptyMember(components, components[k]);
      }
    } else {
      var x := NonEmpty(components)[0];
      NonEmptyMember(components, x);
    }
  }

  /** The last kept component is a component after which only empty ones
      follow; `k` is its position. */
  lemma {:induction false} NonEmptyLast(components: seq<string>) returns (k: nat)
    requires NonEmpty(components) != []
    ensures k < |components| && components[k] == NonEmpty(components)[|NonEmpty(components)| - 1]
    ensures forall j :: k < j < |components| ==> components[j] == ""
    decreases |components|
  {
    var n := |components|;
    var init := components[..n - 1];
    if components[n - 1] != "" {
      k := n - 1;
    } else {
      assert NonEmpty(components) == NonEmpty(init);
      k := NonEmptyLast(init);
      forall j | k < j < n
        ensures components[j] == ""
      {
        if j < n - 1 {
          assert components[j] == init[j];
        }
      }
    }
  }

  /** The collecting loop of the program: walk the components and append
      every non-empty one. */
  method CollectParents(components: seq<string>) returns (parents: seq<string>)
    ensures parents == NonEmpty(components)
  {
    parents := [];
    for i := 0 to |components|
      invariant parents == NonEmpty(components[..i])
    {
      assert components[..i + 1][..i] == components[..i];
      if |components[i]| > 0 {
        parents := parents + [components[i]];
      }
    }
    assert components[..|components|] == components;
  }

  /** A directory path has a parent component to name the keys after. */
  predicate HasParent(path: string, sep: char) {
    NonEmpty(Split(path, sep)) != []
  }

  /** A path has no parent component exactly when it is made only of
      separators (the empty path included). */
  lemma {:induction false} NoParentIffAllSeparators(path: string, sep: char)
    ensures !HasParent(path, sep) <==> forall k :: 0 <= k < |path| ==> path[k] == sep
  {
    var parts := Split(path, sep);
    NonEmptyNone(parts);
    if forall k :: 0 <= k < |path| ==> path[k] == sep {
      SplitOfSeparators(path, sep);
    } else {
      var k :| 0 <= k < |path| && path[k] != sep;
      SplitHasNonEmpty(path, sep, k);
    }
  }

  /** A string made only of separators splits into empty parts. */
  lemma {:induction false} SplitOfSeparators(s: string, sep: char)
    requires forall k :: 0 <= k < |s| ==> s[k] == sep
    ensures forall i :: 0 <= i < |Split(s, sep)| ==> Split(s, sep)[i] == ""
  {
    if |s| > 0 {
      SplitOfSeparators(s[1..], sep);
    }
  }

  /** A character other than the separator lands in a non-empty part. */
  lemma {:induction false} SplitHasNonEmpty(s: string, sep: char, k: nat)
    requires k < |s| && s[k] != sep
    ensures exists i :: 0 <= i < |Split(s, sep)| && Split(s, sep)[i] != ""
    decreases |s|
  {
    if k > 0 {
      SplitHasNonEmpty(s[1..], sep, k - 1);
      var rest := Split(s[1..], sep);
      var i :| 0 <= i < |rest| && rest[i] != "";
      if s[0] == sep {
        assert Split(s, sep)[i + 1] == rest[i];
      } else if i > 0 {
        assert Split(s, sep)[i] == rest[i];
      } else {
        assert Split(s, sep)[0] != "";
      }
    } else {
      assert Split(s, sep)[0] != "";
    }
  }

  /** The key prefix: the last non-empty component of the path. */
  function Prefix(path: string, sep: char): (prefix: string)
    requires HasParent(path, sep)
    ensures prefix != "" && sep !in prefix
  {
    var parents := NonEmpty(Split(path, sep));
    assert parents[|parents| - 1] in parents;
    parents[|parents| - 1]
  }

  /** The prefix is a component of the path, and every component after it
      is empty (they come from trailing or repeated separators). */
  lemma PrefixIsLastNonEmptyComponent(path: string, sep: char)
    requires HasParent(path, sep)
    ensures exists k :: (0 <= k < |Split(path, sep)| && Split(path, sep)[k] == Prefix(path, sep) &&
                         forall j :: k < j < |Split(path, sep)| ==> Split(path, sep)[j] == "")
  {
    var parts := Split(path, sep);
    var k := NonEmptyLast(parts);
    assert parts[k] == Prefix(path, sep);
    assert 0 <= k < |parts| && parts[k] == Prefix(path, sep) &&
      forall j :: k < j < |parts| ==> parts[j] == "";
  }

  /** The prefix derivation as the program writes it: the guard tests the
      number of components, which is never zero, so it never stops the run;
      the caller must already know that a non-empty component exists, or the
      last-element lookup fails. */
  method ImmediateParent(sourceDir: string, sep: char) returns (immediateParent: string)
    requires HasParent(sourceDir, sep)
    ensures immediateParent == Prefix(sourceDir, sep)
    ensures immediateParent != "" && sep !in immediateParent
  {
    var sourceComponents := Split(sourceDir, sep);
    var parents := CollectParents(sourceComponents);
    if |sourceComponents| == 0 {
      assert false;
    }
    immediateParent := parents[|parents| - 1];
  }

  /** The program's guard on a directory path: it stops the run only when
      the path splits into zero components, which never happens, so it
      always lets the path through. */
  function GuardPasses(sourceDir: string, sep: char): (passes: bool)
    ensures passes
  {
    |Split(sourceDir, sep)| != 0
  }

  /** The guard never fires, and it lets through every path made only of
      separators, although such a path has no parent component. */
  lemma GuardDoesNotEstablishParent(path: string, sep: char)
    ensures GuardPasses(path, sep)
    ensures (forall k :: 0 <= k < |path| ==> path[k] == sep) ==> !HasParent(path, sep)
  {
    NoParentIffAllSeparators(path, sep);
  }

  /** Two such paths: the empty path and `///`. */
  lemma GuardExamples(sep: char)
    ensures GuardPasses("", sep) && !HasParent("", sep)
    ensures GuardPasses([sep, sep, sep], sep) && !HasParent([sep, sep, sep], sep)
  {
    GuardDoesNotEstablishParent("", sep);
    GuardDoesNotEstablishParent([sep, sep, sep], sep);
  }

  /** Why a path has no prefix. */
  datatype PathError = InvalidPath(path: string)

  /** The prefix derivation with the guard on the collected parents:
      a path with no non-empty component is rejected. */
  method DerivePrefix(sourceDir: string, sep: char) returns (r: Result<string, PathError>)
    ensures r.Err? <==> forall k :: 0 <= k < |sourceDir| ==> sourceDir[k] == sep
    ensures r.Err? ==> r.error == InvalidPath(sourceDir)
    ensures r.Ok? ==> HasParent(sourceDir, sep) && r.value == Prefix(sourceDir, sep)
  {
    var sourceComponents := Split(sourceDir, sep);
    var parents := CollectParents(sourceComponents);
    NoParentIffAllSeparators(sourceDir, sep);
    if |parents| == 0 {
      return Err(InvalidPath(sourceDir));
    }
    return Ok(parents[|parents| - 1]);
  }

  /** A trailing separator changes neither whether there is a parent nor
      which it is. */
  lemma PrefixIgnoresTrailingSeparator(path: string, sep: char)
    ensures HasParent(path + [sep], sep) <==> HasParent(path, sep)
    ensures HasParent(path, sep) ==> Prefix(path + [sep], sep) == Prefix(path, sep)
  {
    TrailingSeparatorComponents(path, sep);
  }

  /** A trailing separator adds only an empty component. */
  lemma TrailingSeparatorComponents(path: string, sep: char)
    ensures NonEmpty(Split(path + [sep], sep)) == NonEmpty(Split(path, sep))
  {
    assert path + [sep] == path + [sep] + "";
    SplitConcat(path, "", sep);
    NonEmptyAppend(Split(path, sep), [""]);
  }

  /** `n` separators in a row. */
  function Separators(sep: char, n: nat): string
  {
    if n == 0 then "" else Separators(sep, n - 1) + [sep]
  }

  /** Appending `n` separators is appending `n - 1` and then one more. */
  lemma SeparatorsAppended(path: string, sep: char, n: nat)
    ensures n == 0 ==> path + Separators(sep, n) == path
    ensures n > 0 ==> path + Separators(sep, n) == (path + Separators(sep, n - 1)) + [sep]
  {
    if n == 0 {
      assert path + "" == path;
    }
  }

  /** Any number of trailing separators adds only empty components. */
  lemma {:induction false} TrailingSeparatorsComponents(path: string, sep: char, n: nat)
    ensures NonEmpty(Split(path + Separators(sep, n), sep)) == NonEmpty(Split(path, sep))
  {
    SeparatorsAppended(path, sep, n);
    if n > 0 {
      var shorter := path + Separators(sep, n - 1);
      TrailingSeparatorsComponents(path, sep, n - 1);
      TrailingSeparatorComponents(shorter, sep);
    }
  }

  /** Any number of trailing separators changes neither whether there is a
      parent nor which it is. */
  lemma PrefixIgnoresTrailingSeparators(path: string, sep: char, n: nat)
    ensures HasParent(path + Separators(sep, n), sep) <==> HasParent(path, sep)
    ensures HasParent(path, sep) ==> Prefix(path + Separators(sep, n), sep) == Prefix(path, sep)
  {
    TrailingSeparatorsComponents(path, sep, n);
  }

  /** A leading separator (an absolute path) keeps the same components. */
  lemma LeadingSeparator(path: string, sep: char)
    ensures NonEmpty(Split([sep] + path, sep)) == NonEmpty(Split(path, sep))
  {
    assert [sep] + path == "" + [sep] + path;
    SplitConcat("", path, sep);
    NonEmptyAppend([""], Split(path, sep));
  }

  /** A doubled separator keeps the same components. */
  lemma DoubledSeparator(a: string, b: string, sep: char)
    ensures NonEmpty(Split(a + [sep, sep] + b, sep)) == NonEmpty(Split(a + [sep] + b, sep))
  {
    assert a + [sep, sep] + b == a + [sep] + ([sep] + b);
    SplitConcat(a, [sep] + b, sep);
    SplitConcat(a, b, sep);
    LeadingSeparator(b, sep);
    NonEmptyAppend(Split(a, sep), Split([sep] + b, sep));
    NonEmptyAppend(Split(a, sep), Split(b, sep));
  }

  /** With and without a trailing slash, `/data/exports` gives `exports`. */
  lemma PrefixExample()
    ensures HasParent("/data/exports", '/') && Prefix("/data/exports", '/') == "exports"
    ensures HasParent("/data/exports/", '/') && Prefix("/data/exports/", '/') == "exports"
  {
    var parts := ["", "data", "exports"];
    assert Join(parts[2..], '/') == "exports";
    assert Join(parts[1..], '/') == "data" + "/" + "exports";
    assert Join(parts, '/') == "/data/exports";
    SplitJoin(parts, '/');
    assert NonEmpty(parts) == ["data", "exports"];
    assert "/data/exports/" == "/data/exports" + ['/'];
    PrefixIgnoresTrailingSeparator("/data/exports", '/');
  }

  /** The local path opened for an entry of the source directory: its
      components are the directory's followed by the file name's. */
  function RelPath(sourceDir: string, fileName: string, sep: char): (relPath: string)
    ensures Split(relPath, sep) == Split(sourceDir, sep) + Split(fileName, sep)
  {
    SplitConcat(sourceDir, fileName, sep);
    sourceDir + [sep] + fileName
  }

  /** The object key an entry is uploaded under: its components are the
      prefix's followed by the file name's. */
  function Key(prefix: string, fileName: string, sep: char): (key: string)
    ensures Split(key, sep) == Split(prefix, sep) + Split(fileName, sep)
  {
    SplitConcat(prefix, fileName, sep);
    prefix + [sep] + fileName
  }

  /** A key splits back into the prefix and the file name. */
  lemma KeySplits(sourceDir: string, fileName: string, sep: char)
    requires HasParent(sourceDir, sep) && sep !in fileName
    ensures Split(Key(Prefix(sourceDir, sep), fileName, sep), sep) == [Prefix(sourceDir, sep), fileName]
  {
    SplitWithoutSeparator(Prefix(sourceDir, sep), sep);
    SplitWithoutSeparator(fileName, sep);
  }

  /** For a path that does not end with the separator, the prefix is its
      last piece. */
  lemma PrefixIsLastPiece(path: string, sep: char)
    requires |path| > 0 && path[|path| - 1] != sep
    ensures HasParent(path, sep)
    ensures var parts := Split(path, sep); Prefix(path, sep) == parts[|parts| - 1]
  {
    var parts := Split(path, sep);
    SplitLastNonEmpty(path, sep);
    var last := parts[|parts| - 1];
    assert parts == parts[..|parts| - 1] + [last];
    NonEmptyAppend(parts[..|parts| - 1], [last]);
    assert NonEmpty([last]) == [last];
  }

  /** Extending a string and one of its suffixes by the same tail keeps the
      suffix relation. */
  lemma SuffixExtend(s: string, suffix: string, tail: string)
    requires |suffix| <= |s| && suffix == s[|s| - |suffix|..]
    ensures |suffix + tail| <= |s + tail| && suffix + tail == (s + tail)[|s + tail| - |suffix + tail|..]
  {
    assert (s + tail)[|s + tail| - |suffix + tail|..] == s[|s| - |suffix|..] + tail;
  }

  /** For a directory written without a trailing separator, the key is the
      tail of the local path: the prefix is the directory's last component. */
  lemma KeyIsSuffixOfRelPath(sourceDir: string, fileName: string, sep: char)
    requires |sourceDir| > 0 && sourceDir[|sourceDir| - 1] != sep
    ensures HasParent(sourceDir, sep)
    ensures var key, rel := Key(Prefix(sourceDir, sep), fileName, sep), RelPath(sourceDir, fileName, sep);
      |key| <= |rel| && key == rel[|rel| - |key|..]
  {
    PrefixIsLastPiece(sourceDir, sep);
    SplitLast(sourceDir, sep);
    var prefix := Prefix(sourceDir, sep);
    SuffixExtend(sourceDir, prefix, [sep] + fileName);
    assert Key(prefix, fileName, sep) == prefix + ([sep] + fileName);
    assert RelPath(sourceDir, fileName, sep) == sourceDir + ([sep] + fileName);
  }
}
