/** Character-level text operations the search relies on: Python's
    `str.strip()`, the upper-casing that a case-insensitive pandas
    `str.contains` applies to both sides, and literal substring search. */
module Text {

  /** The characters Python's `str.isspace` accepts, which is the set
      `str.strip()` removes from both ends of a string. */
  predicate IsSpace(c: char) {
    var n := c as int;
    || 0x09 <= n <= 0x0D
    || 0x1C <= n <= 0x20
    || n == 0x85 || n == 0xA0 || n == 0x1680
    || 0x2000 <= n <= 0x200A
    || n == 0x2028 || n == 0x2029 || n == 0x202F || n == 0x205F || n == 0x3000
  }

  predicate AllSpace(s: string) {
    forall k :: 0 <= k < |s| ==> IsSpace(s[k])
  }

  /** Neither the first nor the last character is whitespace. */
  predicate IsStripped(s: string) {
    s == [] || (!IsSpace(s[0]) && !IsSpace(s[|s| - 1]))
  }

  /** The index of the first non-space character at or after `i`, or `|s|`. */
  function SkipSpaces(s: string, i: nat): (j: nat)
    requires i <= |s|
    ensures i <= j <= |s|
    ensures forall k :: i <= k < j ==> IsSpace(s[k])
    ensures j < |s| ==> !IsSpace(s[j])
    decreases |s| - i
  {
    if i == |s| || !IsSpace(s[i]) then i else SkipSpaces(s, i + 1)
  }

  /** The index just past the last non-space character in `s[i..j]`, or `i`. */
  function SkipSpacesBack(s: string, i: nat, j: nat): (e: nat)
    requires i <= j <= |s|
    ensures i <= e <= j
    ensures forall k :: e <= k < j ==> IsSpace(s[k])
    ensures e > i ==> !IsSpace(s[e - 1])
    decreases j
  {
    if j == i || !IsSpace(s[j - 1]) then j else SkipSpacesBack(s, i, j - 1)
  }

  /** Python's `str.strip()` with no argument: `s` with its leading and
      trailing whitespace removed. */
  function Strip(s: string): (r: string)
    ensures IsStripped(r)
  {
    var i := SkipSpaces(s, 0);
    var j := SkipSpacesBack(s, i, |s|);
    s[i..j]
  }

  /** What `Strip` removes is whitespace only: the input is the result
      framed by two runs of whitespace. */
  lemma StripFrame(s: string)
    ensures exists i, j :: 0 <= i <= j <= |s| && s[i..j] == Strip(s) && AllSpace(s[..i]) && AllSpace(s[j..])
  {
    var i := SkipSpaces(s, 0);
    var j := SkipSpacesBack(s, i, |s|);
    assert AllSpace(s[..i]) && AllSpace(s[j..]);
  }

  /** Stripping has only one possible answer: whenever `s` is a stripped
      infix framed by whitespace on both sides, that infix is `Strip(s)`. */
  lemma StripUnique(s: string, i: nat, j: nat)
    requires i <= j <= |s|
    requires AllSpace(s[..i]) && AllSpace(s[j..]) && IsStripped(s[i..j])
    ensures Strip(s) == s[i..j]
  {
  }

  /** A string equals its own strip exactly when it is stripped. */
  lemma StripFixedIff(s: string)
    ensures Strip(s) == s <==> IsStripped(s)
  {
  }

  /** Stripping twice is stripping once. */
  lemma StripIdempotent(s: string)
    ensures Strip(Strip(s)) == Strip(s)
  {
  }

  /** Python's `str.upper` on one character, for the Latin letters `a`..`z`;
      every other character, Tamil script included, is its own upper case. */
  function UpperChar(c: char): char {
    if 'a' <= c <= 'z' then (c as int - 32) as char else c
  }

  function Upper(s: string): string {
    seq(|s|, k requires 0 <= k < |s| => UpperChar(s[k]))
  }

  /** `p` occurs in `s` starting at index `i`. */
  ghost predicate OccursAt(s: string, p: string, i: nat) {
    i + |p| <= |s| && s[i..i + |p|] == p
  }

  /** Python's `p in s`: literal substring containment, no pattern syntax. */
  function Contains(s: string, p: string): (b: bool)
    ensures b <==> exists i: nat :: OccursAt(s, p, i)
    decreases |s|
  {
    if |p| > |s| then
      false
    else if p <= s then
      assert OccursAt(s, p, 0);
      true
    else
      var b := Contains(s[1..], p);
      ContainsShift(s, p);
      b
  }

  /** `p` occurs in `s` past its first character exactly when it occurs in `s[1..]`. */
  lemma ContainsShift(s: string, p: string)
    requires |s| > 0 && !(p <= s)
    ensures (exists i: nat :: OccursAt(s, p, i)) <==> (exists i: nat :: OccursAt(s[1..], p, i))
  {
    if i: nat :| OccursAt(s, p, i) {
      assert i != 0 by { assert s[0..|p|] == s[..|p|]; }
      assert s[1..][i - 1..i - 1 + |p|] == s[i..i + |p|];
      assert OccursAt(s[1..], p, i - 1);
    }
    if i: nat :| OccursAt(s[1..], p, i) {
      assert s[1..][i..i + |p|] == s[i + 1..i + 1 + |p|];
      assert OccursAt(s, p, i + 1);
    }
  }

  /** pandas' `Series.str.contains(p, case=False, regex=False)` on one value:
      `p.upper() in s.upper()`. */
  function ContainsIgnoreCase(s: string, p: string): bool {
    Contains(Upper(s), Upper(p))
  }

  /** Case-insensitive containment does not depend on the case of either
      side: upper-casing the value, the fragment, or both first changes nothing. */
  lemma ContainsIgnoreCaseUpper(s: string, p: string)
    ensures ContainsIgnoreCase(s, p) == ContainsIgnoreCase(Upper(s), p)
    ensures ContainsIgnoreCase(s, p) == ContainsIgnoreCase(s, Upper(p))
    ensures ContainsIgnoreCase(s, p) == ContainsIgnoreCase(Upper(s), Upper(p))
  {
    assert Upper(Upper(s)) == Upper(s);
    assert Upper(Upper(p)) == Upper(p);
  }

  /** Every string contains itself, whatever its case, and contains every
      fragment of itself. */
  lemma ContainsIgnoreCaseInfix(s: string, i: nat, j: nat)
    requires i <= j <= |s|
    ensures ContainsIgnoreCase(s, s[i..j])
  {
    assert Upper(s)[i..i + (j - i)] == Upper(s[i..j]);
    assert OccursAt(Upper(s), Upper(s[i..j]), i);
  }
}
