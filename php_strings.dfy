/**
 * The two PHP string built-ins the argument scanner applies to each
 * argument: `strtolower` (ASCII letters only, as in PHP 8.2 and later) and
 * `trim` with its default character list (space, tab, line feed, carriage
 * return, NUL and vertical tab).
 */
module PhpStrings {

  predicate IsUpper(c: char) { 'A' <= c <= 'Z' }

  /** strtolower on one character. */
  function LowerChar(c: char): (r: char)
    ensures !IsUpper(r)
    ensures IsUpper(c) ==> r as int == c as int + 32
    ensures !IsUpper(c) ==> r == c
  {
    if IsUpper(c) then (c as int + 32) as char else c
  }

  /** strtolower: every ASCII capital letter becomes lower case, nothing else changes. */
  function ToLower(s: string): (r: string)
    ensures |r| == |s|
    ensures forall i :: 0 <= i < |r| ==> !IsUpper(r[i])
    ensures forall i :: 0 <= i < |s| && !IsUpper(s[i]) ==> r[i] == s[i]
    ensures forall i :: 0 <= i < |s| && IsUpper(s[i]) ==> r[i] as int == s[i] as int + 32
  {
    seq(|s|, i requires 0 <= i < |s| => LowerChar(s[i]))
  }

  /** The characters `trim` removes by default. */
  predicate IsTrimmed(c: char) {
    c == ' ' || c == '\t' || c == '\n' || c == '\r' || c == '\0' || c as int == 0x0B
  }

  /** The first position at or after i whose character trim keeps, or |s|. */
  function SkipLeading(s: string, i: nat): (k: nat)
    requires i <= |s|
    ensures i <= k <= |s|
    ensures forall j :: i <= j < k ==> IsTrimmed(s[j])
    ensures k < |s| ==> !IsTrimmed(s[k])
    decreases |s| - i
  {
    if i < |s| && IsTrimmed(s[i]) then SkipLeading(s, i + 1) else i
  }

  /** The end of the kept part when scanning back from j, not passing lo. */
  function SkipTrailing(s: string, lo: nat, j: nat): (k: nat)
    requires lo <= j <= |s|
    ensures lo <= k <= j
    ensures forall m :: k <= m < j ==> IsTrimmed(s[m])
    ensures k > lo ==> !IsTrimmed(s[k - 1])
    decreases j
  {
    if j > lo && IsTrimmed(s[j - 1]) then SkipTrailing(s, lo, j - 1) else j
  }

  /** trim: s without its leading and trailing trimmed characters. */
  function Trim(s: string): (r: string)
    ensures r == [] || (!IsTrimmed(r[0]) && !IsTrimmed(r[|r| - 1]))
    ensures var lo := SkipLeading(s, 0);
      && lo + |r| <= |s| && r == s[lo..lo + |r|]
      && (forall i :: 0 <= i < lo ==> IsTrimmed(s[i]))
      && (forall i :: lo + |r| <= i < |s| ==> IsTrimmed(s[i]))
  {
    var lo := SkipLeading(s, 0);
    var hi := SkipTrailing(s, lo, |s|);
    assert lo < hi ==> !IsTrimmed(s[lo]);
    s[lo..hi]
  }
}
