/** Query-component percent-encoding as Go's `net/url` does it:
    `QueryUnescape` turns `%XX` into the byte `XX` (section 2.1 of RFC 3986)
    and `+` into a space (`application/x-www-form-urlencoded`), and rejects a
    `%` that is not followed by two hexadecimal digits; `QueryEscape` is the
    encoding it undoes. Each `char` stands for one byte of a Go string. */
module QueryEscaping {
  import opened Results

  /** The error Go reports for a malformed escape. It carries the text from
      the offending `%` on, cut to at most three characters. */
  datatype EscapeError = EscapeError(fragment: string)

  predicate IsHex(c: char) {
    '0' <= c <= '9' || 'a' <= c <= 'f' || 'A' <= c <= 'F'
  }

  function HexValue(c: char): (v: nat)
    requires IsHex(c)
    ensures v < 16
  {
    if '0' <= c <= '9' then c as int - '0' as int
    else if 'a' <= c <= 'f' then c as int - 'a' as int + 10
    else c as int - 'A' as int + 10
  }

  /** The digit table: each of the sixteen digits, in either case, is worth
      its position. */
  lemma HexDigits()
    ensures forall v :: 0 <= v < 16 ==> IsHex("0123456789abcdef"[v]) && HexValue("0123456789abcdef"[v]) == v
    ensures forall v :: 0 <= v < 16 ==> IsHex("0123456789ABCDEF"[v]) && HexValue("0123456789ABCDEF"[v]) == v
  {
  }

  /** The upper-case hexadecimal digit of `v`, as `QueryEscape` writes it. */
  function UpperHex(v: nat): (c: char)
    requires v < 16
    ensures IsHex(c) && HexValue(c) == v
  {
    if v < 10 then ('0' as int + v) as char else ('A' as int + v - 10) as char
  }

  /** The `%` at index `i` is not followed by two hexadecimal digits. */
  predicate BadEscapeAt(s: string, i: int) {
    0 <= i < |s| && s[i] == '%' && !(i + 2 < |s| && IsHex(s[i + 1]) && IsHex(s[i + 2]))
  }

  /** Every `%` in `s` starts a well-formed escape. The two digits of an
      escape are never `%`, so every `%` in the string is the start of one. */
  predicate WellFormedEscapes(s: string) {
    forall i :: 0 <= i < |s| ==> !BadEscapeAt(s, i)
  }

  /** The text Go quotes in its error: from index `i` on, at most three characters. */
  function Fragment(s: string, i: nat): string
    requires i <= |s|
  {
    var rest := s[i..];
    if |rest| > 3 then rest[..3] else rest
  }

  /** `url.QueryUnescape`. It succeeds exactly when every escape is well
      formed, and the decoded text is never longer than the input. */
  function Unescape(s: string): (r: Result<string, EscapeError>)
    ensures r.Ok? <==> WellFormedEscapes(s)
    ensures r.Ok? ==> |r.value| <= |s|
    decreases |s|
  {
    if |s| == 0 then Ok("")
    else if s[0] == '%' then
      if |s| < 3 || !IsHex(s[1]) || !IsHex(s[2]) then
        assert BadEscapeAt(s, 0);
        Err(EscapeError(Fragment(s, 0)))
      else
        ShiftBadEscape(s, 3);
        match Unescape(s[3..])
        case Ok(t) => Ok([(16 * HexValue(s[1]) + HexValue(s[2])) as char] + t)
        case Err(e) => Err(e)
    else
      ShiftBadEscape(s, 1);
      match Unescape(s[1..])
      case Ok(t) => Ok([if s[0] == '+' then ' ' else s[0]] + t)
      case Err(e) => Err(e)
  }

  /** Bad escapes of `s` at or after `n` are those of `s[n..]`, shifted by `n`;
      when the characters before `n` are a plain character or one escape,
      there are no others. */
  lemma ShiftBadEscape(s: string, n: nat)
    requires 1 <= n <= |s|
    requires n == 1 ==> s[0] != '%'
    requires n == 3 ==> s[0] == '%' && IsHex(s[1]) && IsHex(s[2])
    requires n == 1 || n == 3
    ensures WellFormedEscapes(s) <==> WellFormedEscapes(s[n..])
    ensures forall i :: n <= i < |s| ==> (BadEscapeAt(s, i) <==> BadEscapeAt(s[n..], i - n))
    ensures forall i :: 0 <= i < n ==> !BadEscapeAt(s, i)
  {
    assert forall i :: n <= i < |s| ==> s[i] == s[n..][i - n];
    if !WellFormedEscapes(s[n..]) {
      var k :| 0 <= k < |s[n..]| && BadEscapeAt(s[n..], k);
      assert BadEscapeAt(s, k + n);
    } else {
      forall i | 0 <= i < |s|
        ensures !BadEscapeAt(s, i)
      {
        if i >= n {
          assert !BadEscapeAt(s[n..], i - n);
        }
      }
    }
  }

  /** The error names the FIRST malformed escape: decoding fails with the
      fragment that starts at the leftmost bad `%`, whatever follows it. */
  lemma {:induction false} UnescapeFailsAtFirstBadEscape(s: string, i: nat)
    requires BadEscapeAt(s, i)
    requires forall j :: 0 <= j < i ==> !BadEscapeAt(s, j)
    ensures Unescape(s) == Err(EscapeError(Fragment(s, i)))
    decreases |s|
  {
    if i > 0 {
      var n := if s[0] == '%' then 3 else 1;
      assert !BadEscapeAt(s, 0);
      if n == 3 {
        assert s[1] != '%' && s[2] != '%';
        assert i >= 3;
      }
      ShiftBadEscape(s, n);
      forall j | 0 <= j < i - n
        ensures !BadEscapeAt(s[n..], j)
      {
        assert !BadEscapeAt(s, j + n);
      }
      UnescapeFailsAtFirstBadEscape(s[n..], i - n);
      assert s[n..][i - n..] == s[i..];
    }
  }

  /** The characters `QueryEscape` writes as they are. */
  predicate Unreserved(c: char) {
    'a' <= c <= 'z' || 'A' <= c <= 'Z' || '0' <= c <= '9' || c == '-' || c == '_' || c == '.' || c == '~'
  }

  /** Every character stands for a byte. */
  predicate IsByteString(s: string) {
    forall i :: 0 <= i < |s| ==> s[i] as int < 256
  }

  /** How `QueryEscape` writes one byte: unreserved as is, a space as `+`,
      anything else as `%` and two upper-case hexadecimal digits. */
  function EscapeByte(c: char): string
    requires c as int < 256
  {
    if Unreserved(c) then [c]
    else if c == ' ' then "+"
    else ['%', UpperHex(c as int / 16), UpperHex(c as int % 16)]
  }

  /** `url.QueryEscape`, the encoding whose output the uploader decodes. */
  function Escape(s: string): string
    requires IsByteString(s)
  {
    if |s| == 0 then "" else EscapeByte(s[0]) + Escape(s[1..])
  }

  /** Decoding undoes encoding: every byte string survives the round trip. */
  lemma {:induction false} UnescapeEscape(s: string)
    requires IsByteString(s)
    ensures Unescape(Escape(s)) == Ok(s)
  {
    if |s| > 0 {
      var c, rest := s[0], Escape(s[1..]);
      var e := Escape(s);
      UnescapeEscape(s[1..]);
      if Unreserved(c) {
        assert e == [c] + rest;
        assert e[1..] == rest;
      } else if c == ' ' {
        assert e == "+" + rest;
        assert e[1..] == rest;
      } else {
        assert e == ['%', UpperHex(c as int / 16), UpperHex(c as int % 16)] + rest;
        assert e[3..] == rest;
        assert (16 * (c as int / 16) + c as int % 16) as char == c;
      }
      assert [c] + s[1..] == s;
    }
  }

  /** Decoding works piece by piece: two decodable strings decode, side by
      side, to their decodings side by side. */
  lemma {:induction false} UnescapeAppend(a: string, b: string)
    requires Unescape(a).Ok? && Unescape(b).Ok?
    ensures Unescape(a + b) == Ok(Unescape(a).value + Unescape(b).value)
    decreases |a|
  {
    if |a| == 0 {
      assert a + b == b;
      assert Unescape(a).value + Unescape(b).value == Unescape(b).value;
    } else {
      var s := a + b;
      var n := StepWidth(a);
      assert !BadEscapeAt(a, 0);
      assert s[..n] == a[..n];
      assert StepWidth(s) == n && DecodedHead(s) == DecodedHead(a);
      assert s[n..] == a[n..] + b;
      UnescapeAppend(a[n..], b);
      UnescapeStep(a);
      UnescapeStep(s);
      var c, x, y := DecodedHead(a), Unescape(a[n..]).value, Unescape(b).value;
      assert [c] + (x + y) == ([c] + x) + y;
    }
  }

  /** How many characters the first decoding step consumes. */
  function StepWidth(s: string): nat
    requires |s| > 0
  {
    if s[0] == '%' then 3 else 1
  }

  /** The character the first decoding step produces. */
  function DecodedHead(s: string): char
    requires |s| > 0 && !BadEscapeAt(s, 0)
  {
    if s[0] == '%' then (16 * HexValue(s[1]) + HexValue(s[2])) as char
    else if s[0] == '+' then ' ' else s[0]
  }

  /** One decoding step: a plain character or one well-formed escape at the
      front decodes to one character, followed by the decoding of the rest. */
  lemma UnescapeStep(s: string)
    requires |s| > 0 && !BadEscapeAt(s, 0)
    ensures StepWidth(s) <= |s|
    ensures Unescape(s).Ok? <==> Unescape(s[StepWidth(s)..]).Ok?
    ensures Unescape(s).Ok? ==> Unescape(s).value == [DecodedHead(s)] + Unescape(s[StepWidth(s)..]).value
  {
  }

  /** One escape decodes to the byte its two digits spell. */
  lemma UnescapeOne(s: string)
    requires |s| == 3 && s[0] == '%' && IsHex(s[1]) && IsHex(s[2])
    ensures Unescape(s) == Ok([(16 * HexValue(s[1]) + HexValue(s[2])) as char])
  {
    var c := (16 * HexValue(s[1]) + HexValue(s[2])) as char;
    assert s[3..] == "";
    assert Unescape(s[3..]) == Ok("");
    assert [c] + "" == [c];
  }

  /** Text without `%` and `+` decodes to itself. */
  lemma {:induction false} UnescapePlain(s: string)
    requires '%' !in s && '+' !in s
    ensures Unescape(s) == Ok(s)
  {
    if |s| > 0 {
      UnescapePlain(s[1..]);
      assert [s[0]] + s[1..] == s;
    }
  }
}
