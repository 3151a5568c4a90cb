/** `String.prototype.trim` as the category form uses it. JavaScript removes
    from both ends every character of its WhiteSpace and LineTerminator
    classes (section 12.2 and 12.3 of ECMA-262): tab, vertical tab, form feed,
    space, no-break space, the byte order mark, the Unicode space separators,
    line feed, carriage return and the line and paragraph separators. */
module JsString {

  predicate IsWhiteSpace(c: char)
  {
    var k := c as int;
    k == 0x09 || k == 0x0A || k == 0x0B || k == 0x0C || k == 0x0D || k == 0x20
    || k == 0xA0 || k == 0x1680 || (0x2000 <= k <= 0x200A) || k == 0x2028
    || k == 0x2029 || k == 0x202F || k == 0x205F || k == 0x3000 || k == 0xFEFF
  }

  /** A string that `trim` empties: every character is white space. */
  predicate IsBlank(s: string)
  {
    forall k :: 0 <= k < |s| ==> IsWhiteSpace(s[k])
  }

  /** The length of the white-space prefix of `s`. */
  function LeadingWhite(s: string): (n: nat)
    ensures n <= |s|
    ensures forall k :: 0 <= k < n ==> IsWhiteSpace(s[k])
    ensures n < |s| ==> !IsWhiteSpace(s[n])
  {
    if s == [] || !IsWhiteSpace(s[0]) then 0 else 1 + LeadingWhite(s[1..])
  }

  /** The length of the white-space suffix of `s`. */
  function TrailingWhite(s: string): (n: nat)
    ensures n <= |s|
    ensures forall k :: |s| - n <= k < |s| ==> IsWhiteSpace(s[k])
    ensures n < |s| ==> !IsWhiteSpace(s[|s| - 1 - n])
  {
    if s == [] || !IsWhiteSpace(s[|s| - 1]) then 0 else 1 + TrailingWhite(s[..|s| - 1])
  }

  /** `s.trim()`: `s` without its white-space prefix and suffix; it is
      empty exactly when `s` is blank. */
  function Trim(s: string): (r: string)
    ensures |r| <= |s|
    ensures r == [] <==> IsBlank(s)
  {
    var rest := s[LeadingWhite(s)..];
    assert IsBlank(s) ==> LeadingWhite(s) == |s|;
    assert rest != [] ==> !IsWhiteSpace(rest[0]);
    rest[..|rest| - TrailingWhite(rest)]
  }

  /** `trim` cuts only white space: the result is the infix of `s` after its
      white-space prefix, whatever follows it in `s` is white space, and it
      neither starts nor ends with white space. */
  lemma TrimCutsWhiteSpace(s: string)
    ensures LeadingWhite(s) + |Trim(s)| <= |s|
    ensures s[LeadingWhite(s)..LeadingWhite(s) + |Trim(s)|] == Trim(s)
    ensures forall k :: LeadingWhite(s) + |Trim(s)| <= k < |s| ==> IsWhiteSpace(s[k])
    ensures Trim(s) != [] ==> !IsWhiteSpace(Trim(s)[0]) && !IsWhiteSpace(Trim(s)[|Trim(s)| - 1])
  {
    var rest := s[LeadingWhite(s)..];
    var r := Trim(s);
    assert r == rest[..|rest| - TrailingWhite(rest)];
    if r != [] {
      assert r[0] == rest[0];
    }
  }

  /** Trimming twice is trimming once. */
  lemma TrimIdempotent(s: string)
    ensures Trim(Trim(s)) == Trim(s)
  {
    var r := Trim(s);
    TrimCutsWhiteSpace(s);
    assert LeadingWhite(r) == 0;
    assert TrailingWhite(r) == 0;
  }
}
