/** The few java.lang.String operations the search relies on, over `seq<char>`:
    lower-casing (ASCII only), trim, indexOf and contains. */
module Text {

  /** Character.toLowerCase restricted to ASCII: 'A'..'Z' become 'a'..'z', every other
      character is kept as it is. */
  function LowerChar(c: char): (r: char)
    ensures 'A' <= c <= 'Z' ==> r as int == c as int + 32
    ensures !('A' <= c <= 'Z') ==> r == c
    ensures !('A' <= r <= 'Z')
  {
    if 'A' <= c <= 'Z' then (c as int + 32) as char else c
  }

  /** String.toLowerCase on ASCII text: a character-by-character map, so the length is kept
      and every index of the result lines up with the same index of the input. */
  function ToLower(s: string): (r: string)
    ensures |r| == |s|
    ensures forall i :: 0 <= i < |s| ==> r[i] == LowerChar(s[i])
  {
    seq(|s|, i requires 0 <= i < |s| => LowerChar(s[i]))
  }

  /** String.trim treats every character up to U+0020 as removable space. */
  predicate IsSpace(c: char) {
    c <= ' '
  }

  /** The number of space characters at the front of `s`. */
  function LeadingSpaces(s: string): (n: nat)
    ensures n <= |s|
    ensures forall i :: 0 <= i < n ==> IsSpace(s[i])
    ensures n < |s| ==> !IsSpace(s[n])
  {
    if s != [] && IsSpace(s[0]) then 1 + LeadingSpaces(s[1..]) else 0
  }

  /** The end of `s` once the trailing spaces are dropped, never going below `lo`. */
  function TrailingEnd(s: string, lo: nat): (n: nat)
    requires lo <= |s|
    ensures lo <= n <= |s|
    ensures forall i :: n <= i < |s| ==> IsSpace(s[i])
    ensures n > lo ==> !IsSpace(s[n - 1])
  {
    if |s| > lo && IsSpace(s[|s| - 1]) then TrailingEnd(s[..|s| - 1], lo) else |s|
  }

  /** String.trim: `s` without its leading and trailing space characters. The result is a
      slice of `s`, only space characters lie outside that slice, and the result neither
      starts nor ends with a space. */
  function Trim(s: string): (r: string)
    ensures LeadingSpaces(s) + |r| <= |s|
    ensures r == s[LeadingSpaces(s)..LeadingSpaces(s) + |r|]
    ensures forall i :: 0 <= i < LeadingSpaces(s) ==> IsSpace(s[i])
    ensures forall i :: LeadingSpaces(s) + |r| <= i < |s| ==> IsSpace(s[i])
    ensures r != [] ==> !IsSpace(r[0]) && !IsSpace(r[|r| - 1])
  {
    var st := LeadingSpaces(s);
    s[st..TrailingEnd(s, st)]
  }

  /** `query.trim().isEmpty()` holds exactly of the strings made only of space characters. */
  lemma TrimEmptyIffBlank(s: string)
    ensures Trim(s) == [] <==> forall i :: 0 <= i < |s| ==> IsSpace(s[i])
  {
    var st := LeadingSpaces(s);
    if forall i :: 0 <= i < |s| ==> IsSpace(s[i]) {
      assert st == |s|;
    }
  }

  /** Trimming twice is trimming once. */
  lemma TrimIdempotent(s: string)
    ensures Trim(Trim(s)) == Trim(s)
  {
    var t := Trim(s);
    if t != [] {
      assert LeadingSpaces(t) == 0;
      assert TrailingEnd(t, 0) == |t|;
    }
  }

  /** `pat` occurs in `text` starting at index `k`. */
  predicate OccursAt(text: string, pat: string, k: int) {
    0 <= k && k + |pat| <= |text| && text[k..k + |pat|] == pat
  }

  /** The first occurrence of `pat` in `text` at or after `k`, or -1 when there is none. */
  function IndexFrom(text: string, pat: string, k: nat): (r: int)
    requires k <= |text|
    ensures r == -1 || (k <= r && OccursAt(text, pat, r))
    ensures forall j :: k <= j && (r == -1 || j < r) ==> !OccursAt(text, pat, j)
    decreases |text| - k
  {
    if k + |pat| > |text| then -1
    else if text[k..k + |pat|] == pat then k
    else IndexFrom(text, pat, k + 1)
  }

  /** String.indexOf: the first index at which `pat` occurs in `text`, or -1. */
  function IndexOf(text: string, pat: string): (r: int)
    ensures r == -1 || OccursAt(text, pat, r)
    ensures forall j :: 0 <= j && (r == -1 || j < r) ==> !OccursAt(text, pat, j)
  {
    IndexFrom(text, pat, 0)
  }

  /** String.contains, which the JDK defines as `indexOf(pat) >= 0`. */
  predicate Contains(text: string, pat: string) {
    IndexOf(text, pat) >= 0
  }

  /** `text` contains `pat` exactly when `pat` occurs in it at some index. */
  lemma ContainsIffOccurs(text: string, pat: string)
    ensures Contains(text, pat) <==> exists k :: OccursAt(text, pat, k)
  {
  }
}
