/** `simplifyLocation`: turns the percent-encoded HTTPS location the
    storage service returns for an upload into a short `s3://bucket/key`
    reference. */
module Location {
  import opened Results
  import opened Strings
  import opened QueryEscaping

  /** The virtual-hosted-style host suffix for a region:
      `fmt.Sprintf(".s3.%s.amazonaws.com", region)`. */
  function SubDomain(region: string): (subDomain: string)
    ensures |subDomain| == |region| + 18 && subDomain[0] == '.'
  {
    ".s3." + region + ".amazonaws.com"
  }

  /** Decode the location, rewrite the first `https` to `s3`, then delete
      the first occurrence of the region's sub-domain suffix. A malformed
      escape is reported as the decoder's own error and nothing is
      rewritten; otherwise the call always succeeds. */
  function SimplifyLocation(region: string, uploadLocation: string): (r: Result<string, EscapeError>)
    ensures r.Err? <==> !WellFormedEscapes(uploadLocation)
    ensures r.Err? ==> r == Unescape(uploadLocation)
  {
    match Unescape(uploadLocation)
    case Err(e) => Err(e)
    case Ok(decoded) =>
      var withScheme := ReplaceFirst(decoded, "https", "s3");
      Ok(ReplaceFirst(withScheme, SubDomain(region), ""))
  }

  /** No position before the end of `p` can start an occurrence of a
      pattern that begins with '.', when `p` has no '.'. */
  lemma NoDotNoOccurrence(p: string, rest: string, pat: string)
    requires '.' !in p && |pat| > 0 && pat[0] == '.'
    ensures forall j :: 0 <= j < |p| ==> !OccursAt(p + rest, pat, j)
  {
  }

  /** What is left to do once the location has been decoded. */
  lemma SimplifyDecoded(region: string, uploadLocation: string, decoded: string)
    requires Unescape(uploadLocation) == Ok(decoded)
    ensures SimplifyLocation(region, uploadLocation)
         == Ok(ReplaceFirst(ReplaceFirst(decoded, "https", "s3"), SubDomain(region), ""))
  {
  }

  /** The first rewrite turns the leading `https` into `s3`. */
  lemma RewriteScheme(rest: string)
    ensures ReplaceFirst("https" + rest, "https", "s3") == "s3" + rest
  {
    ReplaceFirstLeading("https", rest, "s3");
  }

  /** The second rewrite deletes the sub-domain that follows a dot-free
      bucket name. */
  lemma RewriteHost(p: string, sd: string, path: string)
    requires '.' !in p && |sd| > 0 && sd[0] == '.'
    ensures ReplaceFirst(p + sd + path, sd, "") == p + path
  {
    NoDotNoOccurrence(p, sd + path, sd);
    assert p + sd + path == p + (sd + path);
    ReplaceFirstAt(p, sd, path, "");
    assert p + "" + path == p + path;
  }

  /** Both rewrites on an address of the shape `https<p><sd><path>`,
      with `p` free of dots and `sd` starting with one. */
  lemma RewriteBoth(p: string, sd: string, path: string)
    requires '.' !in p && |sd| > 0 && sd[0] == '.'
    ensures ReplaceFirst(ReplaceFirst("https" + p + sd + path, "https", "s3"), sd, "") == "s3" + p + path
  {
    assert "https" + p + sd + path == "https" + (p + sd + path);
    RewriteScheme(p + sd + path);
    assert "s3" + (p + sd + path) == ("s3" + p) + sd + path;
    RewriteHost("s3" + p, sd, path);
  }

  /** The two rewrites turn the HTTPS address of an object in a
      virtual-hosted bucket of the configured region into `s3://bucket/key`,
      whatever the key holds: a later `https`, or a later copy of the
      sub-domain, stays as it is. */
  lemma RewriteVirtualHosted(region: string, bucket: string, key: string)
    requires '.' !in bucket
    ensures ReplaceFirst(ReplaceFirst("https://" + bucket + SubDomain(region) + "/" + key, "https", "s3"), SubDomain(region), "")
         == "s3://" + bucket + "/" + key
  {
    VirtualHostedPieces(bucket, SubDomain(region), key);
    RewriteBoth("://" + bucket, SubDomain(region), "/" + key);
  }

  /** How the address and its short form split around the bucket. */
  lemma VirtualHostedPieces(bucket: string, sd: string, key: string)
    requires '.' !in bucket
    ensures '.' !in "://" + bucket
    ensures "https://" + bucket + sd + "/" + key == "https" + ("://" + bucket) + sd + ("/" + key)
    ensures "s3" + ("://" + bucket) + ("/" + key) == "s3://" + bucket + "/" + key
  {
    assert "https" + "://" == "https://";
    assert "s3" + "://" == "s3://";
  }

  /** A location that decodes to the address of an object in a
      virtual-hosted bucket of the configured region simplifies to
      `s3://bucket/key`. */
  lemma SimplifyDecodedVirtualHosted(region: string, bucket: string, key: string, uploadLocation: string)
    requires '.' !in bucket
    requires Unescape(uploadLocation) == Ok("https://" + bucket + SubDomain(region) + "/" + key)
    ensures SimplifyLocation(region, uploadLocation) == Ok("s3://" + bucket + "/" + key)
  {
    SimplifyDecoded(region, uploadLocation, "https://" + bucket + SubDomain(region) + "/" + key);
    RewriteVirtualHosted(region, bucket, key);
  }

  /** The same for the location as the service encodes it: simplifying the
      query-escaped HTTPS address gives `s3://bucket/key`. */
  lemma SimplifyVirtualHosted(region: string, bucket: string, key: string)
    requires '.' !in bucket
    requires IsByteString("https://" + bucket + SubDomain(region) + "/" + key)
    ensures SimplifyLocation(region, Escape("https://" + bucket + SubDomain(region) + "/" + key))
         == Ok("s3://" + bucket + "/" + key)
  {
    UnescapeEscape("https://" + bucket + SubDomain(region) + "/" + key);
    SimplifyDecodedVirtualHosted(region, bucket, key, Escape("https://" + bucket + SubDomain(region) + "/" + key));
  }

  /** When the configured region's sub-domain does not appear once the
      scheme is rewritten (path-style addressing, or a bucket in another
      region), that step changes nothing: the result is the decoded location
      with only its scheme rewritten, and it is not an error. */
  lemma SimplifyWithoutSubDomain(region: string, uploadLocation: string, decoded: string)
    requires Unescape(uploadLocation) == Ok(decoded)
    requires !Occurs(ReplaceFirst(decoded, "https", "s3"), SubDomain(region))
    ensures SimplifyLocation(region, uploadLocation) == Ok(ReplaceFirst(decoded, "https", "s3"))
  {
  }

  /** A malformed escape makes the whole call fail with the offending
      text of the leftmost one (the '%' and at most two characters after
      it), and no rewriting happens. */
  lemma SimplifyFailsAtFirstBadEscape(region: string, uploadLocation: string, i: nat)
    requires BadEscapeAt(uploadLocation, i)
    requires forall j :: 0 <= j < i ==> !BadEscapeAt(uploadLocation, j)
    ensures SimplifyLocation(region, uploadLocation) == Err(EscapeError(Fragment(uploadLocation, i)))
  {
    UnescapeFailsAtFirstBadEscape(uploadLocation, i);
  }

  /** Two such failures: an escape with a non-hex digit, and an escape cut
      short at the end. */
  lemma SimplifyBadEscapeExamples(region: string)
    ensures SimplifyLocation(region, "%zz") == Err(EscapeError("%zz"))
    ensures SimplifyLocation(region, "%2") == Err(EscapeError("%2"))
  {
    SimplifyFailsAtFirstBadEscape(region, "%zz", 0);
    SimplifyFailsAtFirstBadEscape(region, "%2", 0);
  }

  /** The worked example: a bucket in eu-west-1. The input
      `https%3A%2F%2Fmy-bucket.s3.eu-west-1.amazonaws.com%2Fexports%2Ffile.txt`
      and the result `s3://my-bucket/exports/file.txt` are written as the
      concatenations of their pieces, and the pieces are bound to variables,
      so that the verifier never unfolds the decoder over a literal. */
  lemma SimplifyLocationExample(region: string, uploadLocation: string)
    requires region == "eu-west-1"
    requires uploadLocation == "https" + "%3A%2F%2F" + "my-bucket" + ".s3.eu-west-1.amazonaws.com"
                               + "%2F" + "exports" + "%2F" + "file.txt"
    ensures SimplifyLocation(region, uploadLocation) == Ok("s3://" + "my-bucket" + "/" + "exports" + "/" + "file.txt")
  {
    var bucket :| bucket == "my-bucket";
    var dir :| dir == "exports";
    var file :| file == "file.txt";
    ExamplePieces(region, uploadLocation, bucket, dir, file);
    DecodeAddress("https", bucket + SubDomain(region), dir, file);
    SimplifyDecodedVirtualHosted(region, bucket, dir + "/" + file, uploadLocation);
  }

  /** How the example's strings are put together from their pieces. */
  lemma ExamplePieces(region: string, uploadLocation: string, bucket: string, dir: string, file: string)
    requires region == "eu-west-1" && bucket == "my-bucket" && dir == "exports" && file == "file.txt"
    requires uploadLocation == "https" + "%3A%2F%2F" + bucket + ".s3.eu-west-1.amazonaws.com" + "%2F" + dir + "%2F" + file
    ensures '.' !in bucket
    ensures '%' !in bucket + SubDomain(region) && '+' !in bucket + SubDomain(region)
    ensures '%' !in dir && '+' !in dir && '%' !in file && '+' !in file
    ensures uploadLocation == "https" + "%3A%2F%2F" + (bucket + SubDomain(region)) + "%2F" + dir + "%2F" + file
    ensures "https" + "://" + (bucket + SubDomain(region)) + "/" + dir + "/" + file
         == "https://" + bucket + SubDomain(region) + "/" + (dir + "/" + file)
    ensures "s3://" + bucket + "/" + (dir + "/" + file) == "s3://" + "my-bucket" + "/" + "exports" + "/" + "file.txt"
  {
    ExamplePlain(region, bucket, dir, file);
    var sd := SubDomain(region);
    assert uploadLocation == "https" + "%3A%2F%2F" + (bucket + sd) + "%2F" + dir + "%2F" + file;
  }

  /** None of the example's pieces holds a character the rewrites or the
      decoder treat specially, and the region's sub-domain is spelt out. */
  lemma ExamplePlain(region: string, bucket: string, dir: string, file: string)
    requires region == "eu-west-1" && bucket == "my-bucket" && dir == "exports" && file == "file.txt"
    ensures '.' !in bucket
    ensures '%' !in bucket + SubDomain(region) && '+' !in bucket + SubDomain(region)
    ensures '%' !in dir && '+' !in dir && '%' !in file && '+' !in file
    ensures SubDomain(region) == ".s3.eu-west-1.amazonaws.com"
  {
    assert '%' !in SubDomain(region) && '+' !in SubDomain(region);
  }

  /** An address whose `://` and two path slashes are escaped decodes
      piece by piece. */
  lemma DecodeAddress(scheme: string, host: string, dir: string, file: string)
    requires '%' !in scheme && '+' !in scheme && '%' !in host && '+' !in host
    requires '%' !in dir && '+' !in dir && '%' !in file && '+' !in file
    ensures Unescape(scheme + "%3A%2F%2F" + host + "%2F" + dir + "%2F" + file)
         == Ok(scheme + "://" + host + "/" + dir + "/" + file)
  {
    DecodeSchemeSeparator();
    DecodeSlash();
    UnescapePlain(scheme);
    UnescapePlain(host);
    UnescapePlain(dir);
    UnescapePlain(file);
    UnescapeAppend(scheme, "%3A%2F%2F");
    UnescapeAppend(scheme + "%3A%2F%2F", host);
    UnescapeAppend(scheme + "%3A%2F%2F" + host, "%2F");
    UnescapeAppend(scheme + "%3A%2F%2F" + host + "%2F", dir);
    UnescapeAppend(scheme + "%3A%2F%2F" + host + "%2F" + dir, "%2F");
    UnescapeAppend(scheme + "%3A%2F%2F" + host + "%2F" + dir + "%2F", file);
  }

  /** `%2F` is an escaped slash. */
  lemma DecodeSlash()
    ensures Unescape("%2F") == Ok("/")
  {
    UnescapeOne("%2F");
    assert HexValue('2') == 2 && HexValue('F') == 15 && (16 * 2 + 15) as char == '/';
  }

  /** `%3A%2F%2F` is an escaped `://`. */
  lemma DecodeSchemeSeparator()
    ensures Unescape("%3A%2F%2F") == Ok("://")
  {
    UnescapeOne("%3A");
    assert HexValue('3') == 3 && HexValue('A') == 10 && (16 * 3 + 10) as char == ':';
    DecodeSlash();
    UnescapeAppend("%3A", "%2F");
    assert "%3A" + "%2F" == "%3A%2F" && ":" + "/" == ":/";
    UnescapeAppend("%3A%2F", "%2F");
    assert "%3A%2F" + "%2F" == "%3A%2F%2F" && ":/" + "/" == "://";
  }
}
