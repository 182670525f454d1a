/** String helpers the handlers rely on: Python's `str.strip()` (used on passwords at
    registration) and the case-insensitive substring match behind SQL `ILIKE '%term%'`
    (used by the author, location and search filters). */
module Text {

  /** The characters Python's `str.isspace()` accepts, which `str.strip()` removes. */
  predicate IsSpace(c: char) {
    || ('\t' <= c <= '\r')              // tab, line feed, vertical tab, form feed, carriage return
    || ('\U{1C}' <= c <= '\U{1F}')      // file, group, record and unit separators
    || c == ' ' || c == '\U{85}' || c == '\U{A0}' || c == '\U{1680}'
    || ('\U{2000}' <= c <= '\U{200A}')  // en quad to hair space
    || c == '\U{2028}' || c == '\U{2029}' || c == '\U{202F}' || c == '\U{205F}' || c == '\U{3000}'
  }

  predicate AllSpace(s: string) {
    forall k :: 0 <= k < |s| ==> IsSpace(s[k])
  }

  /** The number of whitespace characters that open `s`. */
  function LeadingSpaces(s: string): (n: nat)
    ensures n <= |s|
    ensures AllSpace(s[..n])
    ensures n == |s| || !IsSpace(s[n])
  {
    if s == [] || !IsSpace(s[0]) then 0
    else
      var m := LeadingSpaces(s[1..]);
      assert s[..1 + m] == [s[0]] + s[1..][..m];
      1 + m
  }

  /** The number of whitespace characters that close `s`. */
  function TrailingSpaces(s: string): (n: nat)
    ensures n <= |s|
    ensures AllSpace(s[|s| - n..])
    ensures n == |s| || !IsSpace(s[|s| - 1 - n])
  {
    if s == [] || !IsSpace(s[|s| - 1]) then 0
    else
      var t := s[..|s| - 1];
      var m := TrailingSpaces(t);
      assert s[|s| - (1 + m)..] == t[|t| - m..] + [s[|s| - 1]];
      1 + m
  }

  /** Python's `s.strip()`: `s` without its leading and trailing whitespace. The result is
      the unique middle part of `s` that is surrounded by whitespace only and neither
      starts nor ends with whitespace. */
  function Strip(s: string): (r: string)
    ensures |r| <= |s|
    ensures var i := LeadingSpaces(s);
      && i + |r| <= |s|
      && s[i..i + |r|] == r
      && AllSpace(s[..i])
      && AllSpace(s[i + |r|..])
    ensures r == [] || (!IsSpace(r[0]) && !IsSpace(r[|r| - 1]))
  {
    var i := LeadingSpaces(s);
    var t := s[i..];
    var r := t[..|t| - TrailingSpaces(t)];
    assert s[i + |r|..] == t[|t| - TrailingSpaces(t)..];
    assert r != [] ==> r[0] == s[i];
    r
  }

  /** Stripping twice is stripping once. */
  lemma StripIdempotent(s: string)
    ensures Strip(Strip(s)) == Strip(s)
  {
    var r := Strip(s);
    StripFixesUnpadded(r);
  }

  /** `Strip` leaves a string alone exactly when it neither starts nor ends with
      whitespace. */
  lemma StripFixesUnpadded(s: string)
    ensures Strip(s) == s <==> (s == [] || (!IsSpace(s[0]) && !IsSpace(s[|s| - 1])))
  {
    if s != [] && !IsSpace(s[0]) && !IsSpace(s[|s| - 1]) {
      assert LeadingSpaces(s) == 0;
      assert TrailingSpaces(s) == 0;
      assert s[0..] == s;
    }
  }

  /** Lower-case folding of ASCII letters and of the basic Cyrillic capitals
      (U+0400 to U+042F); every other character is left as it is. */
  function Lower(c: char): (d: char)
    ensures 'A' <= c <= 'Z' ==> d as int == c as int + 32
    ensures !('A' <= c <= 'Z') && !('\U{400}' <= c <= '\U{42F}') ==> d == c
  {
    if 'A' <= c <= 'Z' then (c as int + 32) as char
    else if '\U{410}' <= c <= '\U{42F}' then (c as int + 0x20) as char
    else if '\U{400}' <= c <= '\U{40F}' then (c as int + 0x50) as char
    else c
  }

  function LowerStr(s: string): (r: string)
    ensures |r| == |s|
    ensures forall k :: 0 <= k < |s| ==> r[k] == Lower(s[k])
  {
    seq(|s|, k requires 0 <= k < |s| => Lower(s[k]))
  }

  /** Folding is idempotent. */
  lemma LowerStrIdempotent(s: string)
    ensures LowerStr(LowerStr(s)) == LowerStr(s)
  {
    forall k | 0 <= k < |s|
      ensures Lower(Lower(s[k])) == Lower(s[k])
    {
    }
  }

  /** `needle` occurs in `haystack` at position `i`. */
  predicate OccursAt(haystack: string, needle: string, i: int) {
    0 <= i && i + |needle| <= |haystack| && haystack[i..i + |needle|] == needle
  }

  /** Substring test, scanning `haystack` from the left. */
  function Contains(haystack: string, needle: string): bool
    decreases |haystack|
  {
    if |needle| > |haystack| then false
    else if haystack[..|needle|] == needle then true
    else Contains(haystack[1..], needle)
  }

  /** The scan finds `needle` exactly when it occurs somewhere in `haystack`. */
  lemma {:induction false} ContainsIff(haystack: string, needle: string)
    ensures Contains(haystack, needle) <==> exists i :: OccursAt(haystack, needle, i)
    decreases |haystack|
  {
    if |needle| > |haystack| {
    } else if haystack[..|needle|] == needle {
      assert OccursAt(haystack, needle, 0);
    } else {
      var tail := haystack[1..];
      ContainsIff(tail, needle);
      if Contains(tail, needle) {
        var i :| OccursAt(tail, needle, i);
        assert haystack[i + 1..i + 1 + |needle|] == tail[i..i + |needle|];
        assert OccursAt(haystack, needle, i + 1);
      } else {
        forall i | OccursAt(haystack, needle, i)
          ensures false
        {
          assert i != 0;
          assert tail[i - 1..i - 1 + |needle|] == haystack[i..i + |needle|];
          assert OccursAt(tail, needle, i - 1);
        }
      }
    }
  }

  /** SQL `column ILIKE '%term%'` for a non-null column, with `%` and `_` in `term`
      taken literally. */
  function ContainsIgnoreCase(haystack: string, term: string): bool {
    Contains(LowerStr(haystack), LowerStr(term))
  }

  /** The match ignores case on both sides: folding either argument first changes
      nothing. */
  lemma IgnoreCaseIsCaseBlind(haystack: string, term: string)
    ensures ContainsIgnoreCase(LowerStr(haystack), term) == ContainsIgnoreCase(haystack, term)
    ensures ContainsIgnoreCase(haystack, LowerStr(term)) == ContainsIgnoreCase(haystack, term)
  {
    LowerStrIdempotent(haystack);
    LowerStrIdempotent(term);
  }

  /** Every literal occurrence of `term` is a match. */
  lemma {:induction false} OccurrenceMatches(haystack: string, term: string, i: int)
    requires OccursAt(haystack, term, i)
    ensures ContainsIgnoreCase(haystack, term)
  {
    var h, t := LowerStr(haystack), LowerStr(term);
    assert h[i..i + |t|] == t;
    assert OccursAt(h, t, i);
    ContainsIff(h, t);
  }
}
