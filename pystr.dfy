/** Python's `str.strip()` with no argument, written out over code points. */
module PyStr {

  /** The characters for which Python's `str.isspace()` holds: those `strip()` removes. */
  predicate IsSpace(c: char) {
    || ('\t' <= c <= '\r')
    || ('\U{1C}' <= c <= '\U{1F}')
    || c == ' '
    || c == '\U{85}'
    || c == '\U{A0}'
    || c == '\U{1680}'
    || ('\U{2000}' <= c <= '\U{200A}')
    || c == '\U{2028}'
    || c == '\U{2029}'
    || c == '\U{202F}'
    || c == '\U{205F}'
    || c == '\U{3000}'
  }

  /** The number of whitespace characters at the front of `s`. */
  function LeadingSpaces(s: string): (n: nat)
    ensures n <= |s|
  {
    if s == [] || !IsSpace(s[0]) then 0 else 1 + LeadingSpaces(s[1..])
  }

  /** The number of whitespace characters at the back of `s`. */
  function TrailingSpaces(s: string): (n: nat)
    ensures n <= |s|
  {
    if s == [] || !IsSpace(s[|s| - 1]) then 0 else 1 + TrailingSpaces(s[..|s| - 1])
  }

  /** `LeadingSpaces` counts exactly the whitespace run at the front. */
  lemma {:induction false} LeadingSpacesSpec(s: string)
    ensures forall k :: 0 <= k < LeadingSpaces(s) ==> IsSpace(s[k])
    ensures LeadingSpaces(s) < |s| ==> !IsSpace(s[LeadingSpaces(s)])
    decreases |s|
  {
    if s != [] && IsSpace(s[0]) {
      LeadingSpacesSpec(s[1..]);
      forall k | 1 <= k < LeadingSpaces(s) ensures IsSpace(s[k]) {
        assert s[k] == s[1..][k - 1];
      }
    }
  }

  /** `TrailingSpaces` counts exactly the whitespace run at the back. */
  lemma {:induction false} TrailingSpacesSpec(s: string)
    ensures forall k :: |s| - TrailingSpaces(s) <= k < |s| ==> IsSpace(s[k])
    ensures TrailingSpaces(s) < |s| ==> !IsSpace(s[|s| - 1 - TrailingSpaces(s)])
    decreases |s|
  {
    if s != [] && IsSpace(s[|s| - 1]) {
      var init := s[..|s| - 1];
      TrailingSpacesSpec(init);
      forall k | |s| - TrailingSpaces(s) <= k < |s| - 1 ensures IsSpace(s[k]) {
        assert s[k] == init[k];
      }
    }
  }

  /** The half-open range of `s` that survives `strip()`: the whitespace run at the front is
      cut, then the whitespace run at the back of what remains. */
  function StripBounds(s: string): (b: (nat, nat))
    ensures b.0 <= b.1 <= |s|
  {
    var lead := LeadingSpaces(s);
    (lead, |s| - TrailingSpaces(s[lead..]))
  }

  /** Everything outside the bounds is whitespace, and the range starts and ends with a
      non-whitespace character unless it is empty, which happens only for all-whitespace `s`. */
  lemma StripBoundsSpec(s: string)
    ensures forall k :: 0 <= k < StripBounds(s).0 ==> IsSpace(s[k])
    ensures forall k :: StripBounds(s).1 <= k < |s| ==> IsSpace(s[k])
    ensures StripBounds(s).0 < StripBounds(s).1 ==>
      !IsSpace(s[StripBounds(s).0]) && !IsSpace(s[StripBounds(s).1 - 1])
    ensures StripBounds(s).0 == StripBounds(s).1 ==> forall k :: 0 <= k < |s| ==> IsSpace(s[k])
  {
    var lead := LeadingSpaces(s);
    var rest := s[lead..];
    var trail := TrailingSpaces(rest);
    assert StripBounds(s) == (lead, |s| - trail);
    LeadingSpacesSpec(s);
    TrailingSpacesSpec(rest);
    forall k | |s| - trail <= k < |s| ensures IsSpace(s[k]) {
      assert s[k] == rest[k - lead];
    }
    if trail < |rest| {
      assert s[|s| - trail - 1] == rest[|rest| - 1 - trail];
    }
  }

  /** `strip()` never cuts into a range that begins and ends with non-whitespace. */
  lemma StripKeepsNonSpace(s: string, i: nat, j: nat)
    requires i < j <= |s| && !IsSpace(s[i]) && !IsSpace(s[j - 1])
    ensures StripBounds(s).0 <= i && j <= StripBounds(s).1
  {
    StripBoundsSpec(s);
  }

  /** `s.strip()`. */
  function Strip(s: string): (r: string)
    ensures |r| <= |s|
  {
    var b := StripBounds(s);
    s[b.0..b.1]
  }

  /** `strip()` gives the empty string exactly for all-whitespace input, and otherwise a
      string that starts and ends with a non-whitespace character. */
  lemma StripSpec(s: string)
    ensures Strip(s) == [] <==> forall k :: 0 <= k < |s| ==> IsSpace(s[k])
    ensures Strip(s) != [] ==> !IsSpace(Strip(s)[0]) && !IsSpace(Strip(s)[|Strip(s)| - 1])
  {
    StripBoundsSpec(s);
  }

  /** A string without surrounding whitespace is its own strip. */
  lemma StripOfTrimmed(s: string)
    requires s != [] ==> !IsSpace(s[0]) && !IsSpace(s[|s| - 1])
    ensures Strip(s) == s
  {
    if s != [] {
      assert LeadingSpaces(s) == 0;
      assert s[0..] == s;
      assert TrailingSpaces(s) == 0;
    }
  }

  /** Stripping twice is stripping once. */
  lemma StripIdempotent(s: string)
    ensures Strip(Strip(s)) == Strip(s)
  {
    StripSpec(s);
    StripOfTrimmed(Strip(s));
  }

}
