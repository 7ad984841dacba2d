# ufr — a Dafny model of the uploader's key and location logic

`ufr` uploads every entry of a local directory to an S3 bucket. Each file is
stored under the key `<prefix>/<file name>`. The prefix is the last
non-empty component of the source directory path. For every upload the tool
prints a short `s3://bucket/key` form of the location the storage service
returns. That short form comes from `simplifyLocation`, which does three
things in order:

1. it percent-decodes the location the way `url.QueryUnescape` does;
2. it rewrites the first `https` to `s3`;
3. it deletes the first `.s3.<region>.amazonaws.com`.

The model has four modules besides the `Result` type:

- `Strings` models the two functions of Go's `strings` package that the tool
  calls:
  - `Replace` with a count of one;
  - `Split` on a one-character separator.

  It also models `Index`, which `Replace` uses to find the occurrence, and
  `Join`, which is `Split`'s inverse and is used only in proofs.

  A Go string is a sequence of bytes. Here each `char` stands for one byte.
- `QueryEscaping` models `url.QueryUnescape`, including its error value. It
  also models `url.QueryEscape`, the encoding the decoder is proved to undo.
- `Location` models `simplifyLocation` (pure functions and lemmas).
- `PathPrefix` covers the prefix derivation and the two strings each file
  name goes into: the local path, built from the source directory, and the
  key, built from the prefix. The collecting loop is a method with a loop
  invariant, proved against the filter function `NonEmpty`.

## Model

| member | source | states |
|---|---|---|
| Strings.IndexOf | ufr.go:44 | the result is -1 exactly when the pattern does not occur, otherwise the start of its leftmost occurrence |
| Strings.ReplaceFirst | ufr.go:44 | with no occurrence the string comes back unchanged; otherwise only the leftmost occurrence is replaced and everything before and after it is kept |
| Strings.ReplaceFirstAt | ufr.go:47 | in `p + target + q` with no earlier occurrence, the replacement yields `p + replacement + q`, so later occurrences in `q` are untouched |
| Strings.ReplaceFirstLeading | ufr.go:44 | a string that starts with the target has exactly that leading occurrence replaced |
| Strings.ReplaceFirstUnchangedIff | ufr.go:44 | the replacement is the identity iff the target is absent or equals its replacement |
| Strings.Split | ufr.go:61 | there is at least one piece, and no piece contains the separator |
| Strings.JoinSplit | ufr.go:61 | joining the pieces with the separator gives back the input |
| Strings.SplitWithoutSeparator | ufr.go:61 | a string without the separator splits into itself alone |
| Strings.SplitConcat | ufr.go:61 | splitting `a + sep + b` gives the pieces of `a` followed by those of `b` |
| Strings.SplitJoin | ufr.go:61 | splitting the join of separator-free pieces gives the pieces back |
| Strings.SplitLast | ufr.go:61 | the last piece is a suffix of the input |
| Strings.SplitLastNonEmpty | ufr.go:61 | the last piece is non-empty when the input does not end with the separator |
| QueryEscaping.HexValue | ufr.go:40 | a hexadecimal digit of either case is worth less than 16 |
| QueryEscaping.HexDigits | ufr.go:40 | each of the digits `0-9a-f` and `0-9A-F` is worth its position in the table, so lower-case escapes such as `%2f` decode like upper-case ones |
| QueryEscaping.Unescape | ufr.go:40-43 | decoding succeeds iff every `%` is followed by two hex digits, and the decoded text is never longer than the input |
| QueryEscaping.UnescapeFailsAtFirstBadEscape | ufr.go:40-43 | the error carries the leftmost malformed escape, cut to at most three characters, whatever follows |
| QueryEscaping.UnescapeEscape | ufr.go:40 | decoding undoes `url.QueryEscape` on every byte string |
| QueryEscaping.UnescapeAppend | ufr.go:40 | two decodable strings decode side by side to their decodings side by side |
| QueryEscaping.UnescapeOne | ufr.go:40 | one `%XY` escape decodes to the byte its digits spell |
| QueryEscaping.UnescapePlain | ufr.go:40 | text without `%` and `+` decodes to itself |
| Location.SimplifyLocation | ufr.go:39-49 | the call fails iff the location has a malformed escape, and then it returns the decoder's own error with no rewriting; otherwise it succeeds |
| Location.SubDomain | ufr.go:46 | the region's host suffix starts with a dot, so it cannot begin inside a dot-free bucket name, and it adds 18 fixed characters (`.s3.` and `.amazonaws.com`) to the region |
| Location.RewriteScheme | ufr.go:44 | the first rewrite turns a leading `https` into `s3` and keeps the rest |
| Location.RewriteHost | ufr.go:46-47 | the second rewrite deletes the sub-domain that follows a dot-free prefix and keeps the rest, including later copies |
| Location.RewriteBoth | ufr.go:44-47 | the two rewrites in order turn `https<p><sub-domain><path>` into `s3<p><path>` |
| Location.RewriteVirtualHosted | ufr.go:44-47 | `https://bucket.s3.<region>.amazonaws.com/key` becomes `s3://bucket/key` for every dot-free bucket and every key, even a key that itself holds `https` or the sub-domain |
| Location.SimplifyDecodedVirtualHosted | ufr.go:39-49 | a location that decodes to a virtual-hosted address in the configured region simplifies to `s3://bucket/key` |
| Location.SimplifyVirtualHosted | ufr.go:39-49 | the query-escaped virtual-hosted address simplifies to `s3://bucket/key` |
| Location.SimplifyWithoutSubDomain | ufr.go:46-48 | when the region's sub-domain is absent, the second step is the identity and the call still succeeds |
| Location.SimplifyFailsAtFirstBadEscape | ufr.go:40-43 | a malformed escape makes the call fail with the leftmost bad fragment |
| Location.SimplifyBadEscapeExamples | ufr.go:40-43 | `%zz` fails with `%zz`, and `%2` fails with `%2` |
| Location.DecodeAddress | ufr.go:40 | an address whose `://` and two path slashes are escaped decodes piece by piece |
| Location.SimplifyLocationExample | ufr.go:39-49 | in eu-west-1, `https%3A%2F%2Fmy-bucket.s3.eu-west-1.amazonaws.com%2Fexports%2Ffile.txt` simplifies to `s3://my-bucket/exports/file.txt` |
| PathPrefix.NonEmpty | ufr.go:62-67 | the kept components are non-empty components of the input, and there are no more of them than inputs |
| PathPrefix.NonEmptyAppend | ufr.go:62-67 | the filter distributes over concatenation, so the order of the input is kept |
| PathPrefix.NonEmptyMember | ufr.go:62-67 | a string is kept iff it is a component and is not empty |
| PathPrefix.NonEmptyNone | ufr.go:62-67 | nothing is kept iff every component is empty |
| PathPrefix.NonEmptyLast | ufr.go:62-72 | the last kept component sits at a position after which every component is empty |
| PathPrefix.CollectParents | ufr.go:62-67 | the loop's result is exactly the non-empty components, in order |
| PathPrefix.NoParentIffAllSeparators | ufr.go:61-72 | a path has no non-empty component iff it consists only of separators, the empty path included |
| PathPrefix.SplitOfSeparators | ufr.go:61 | a path made only of separators splits into empty pieces |
| PathPrefix.SplitHasNonEmpty | ufr.go:61 | a character other than the separator ends up in a non-empty piece |
| PathPrefix.Prefix | ufr.go:72 | the prefix is non-empty and contains no separator |
| PathPrefix.PrefixIsLastNonEmptyComponent | ufr.go:61-72 | the prefix is a component of the path, and only empty components follow it |
| PathPrefix.ImmediateParent | ufr.go:61-72 | the code as written: given a path with a non-empty component, the result is the prefix, non-empty and separator-free; the guard branch is dead |
| PathPrefix.GuardPasses | ufr.go:69-71 | the guard on the number of components lets every directory path through, since a split always yields at least one component |
| PathPrefix.GuardDoesNotEstablishParent | ufr.go:69-72 | the guard never fires, and it passes every all-separator path although that path has no parent |
| PathPrefix.GuardExamples | ufr.go:69-72 | the guard passes both the empty path and `///`, and neither has a parent |
| PathPrefix.DerivePrefix | ufr.go:61-72 | the corrected derivation fails with `InvalidPath` iff the path is only separators, and otherwise returns the prefix |
| PathPrefix.PrefixIgnoresTrailingSeparator | ufr.go:61-72 | a trailing separator changes neither whether there is a prefix nor which one it is |
| PathPrefix.TrailingSeparatorsComponents | ufr.go:61-67 | any number of trailing separators adds only empty components, so the collected parents are the same |
| PathPrefix.PrefixIgnoresTrailingSeparators | ufr.go:61-72 | any number of trailing separators changes neither whether there is a prefix nor which one it is |
| PathPrefix.LeadingSeparator | ufr.go:61-67 | an absolute path and the same path without its leading separator have the same components |
| PathPrefix.DoubledSeparator | ufr.go:61-67 | doubling a separator keeps the same components |
| PathPrefix.PrefixExample | ufr.go:61-72 | `/data/exports` and `/data/exports/` both give the prefix `exports` |
| PathPrefix.RelPath | ufr.go:82 | the local path `sourceDir`, one separator, the file name: its components are the directory's followed by the file name's |
| PathPrefix.Key | ufr.go:88 | the key `prefix`, one separator, the file name: its components are the prefix's followed by the file name's (see `KeySplits`) |
| PathPrefix.KeySplits | ufr.go:88 | splitting a key on the separator gives back the prefix and the file name |
| PathPrefix.PrefixIsLastPiece | ufr.go:61-72 | for a path that does not end with the separator, the prefix is its last piece |
| PathPrefix.KeyIsSuffixOfRelPath | ufr.go:82-88 | for a directory without a trailing separator, the key is the tail of the local path that is opened |

## Left out

- Command-line parsing (`go-arg`, the `args` struct, `Version`) is outside the model. The region is a parameter of `SimplifyLocation`.
- Reading the directory, opening and closing files and `log.Fatal` are I/O. The file names are parameters. `KeySplits` assumes, as the operating system guarantees, that a file name has no separator.
- The AWS session and `Upload` are calls into code outside the model. The location returned by the upload is a parameter.
- The report line `Copied <file name> as <location>` is output only and is not modelled.
- The platform's path separator is a `char` parameter, not a fixed `/` or `\`.
- Go returns `""` together with the error. The model returns `Err` instead, and the error value is the raw text from the bad `%`, at most three characters.
- Strings are sequences of bytes with one `char` per byte. UTF-8 is not modelled.
- `url.QueryEscape` is modelled only on byte strings, as the encoding that `Unescape` undoes. The other direction does not hold (`%41` decodes to `A`, which encodes to `A`).
- PathPrefix.ImmediateParent: requires a non-empty component, so it does not model the index-out-of-range panic the program hits on an all-separator path. `GuardDoesNotEstablishParent` shows that such paths get past the guard.

## Findings

| source | as written | input that shows it | evidently intended | confidence | as-written member | corrected member |
|---|---|---|---|---|---|---|
| ufr.go:69 | the guard tests `len(sourceComponents) == 0`, and `strings.Split` never returns an empty slice | an existing directory written `/` or `///`: the directory listing succeeds, the guard passes, `parents` is empty, and `parents[len(parents)-1]` panics instead of reporting "Unable to determine immediate parent" (`""` gets past the guard as well, but the program stops earlier, when the directory listing at ufr.go:56-58 fails) | test `len(parents) == 0` and reject the path | high, not executed | PathPrefix.GuardDoesNotEstablishParent | PathPrefix.DerivePrefix |

The guard's own message ("Unable to determine immediate parent") shows that
the intent is to reject such a path. `DerivePrefix` does that with an
`InvalidPath` error. The code as written panics instead.
