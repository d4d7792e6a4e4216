/** String helpers standing in for the JavaScript built-ins the scanner calls:
    `substring`, `trim`, `replaceAll`, `startsWith` and `toLowerCase`. Strings are
    `seq<char>`; the scanner only ever passes non-negative offsets. */
module Strings {

  datatype Option<T> = None | Some(value: T) {
    function GetOr(default: T): T {
      match this
      case Some(v) => v
      case None => default
    }
  }

  function Min(a: nat, b: nat): nat { if a <= b then a else b }
  function Max(a: nat, b: nat): nat { if a <= b then b else a }

  /** The four characters the scanner's `switch` statements treat as spaces. */
  predicate IsSpace(c: char) {
    c == ' ' || c == '\t' || c == '\r' || c == '\n'
  }

  /** The characters `String.prototype.trim` strips: ECMAScript WhiteSpace
      (TAB, VT, FF, ZWNBSP and the Zs space separators) and LineTerminator. */
  predicate IsTrimSpace(c: char) {
    || c == '\t' || c == '\n' || c == '\U{000B}' || c == '\U{000C}' || c == '\r'
    || c == ' ' || c == '\U{00A0}' || c == '\U{1680}'
    || ('\U{2000}' <= c <= '\U{200A}')
    || c == '\U{2028}' || c == '\U{2029}' || c == '\U{202F}' || c == '\U{205F}'
    || c == '\U{3000}' || c == '\U{FEFF}'
  }

  /** `s.substring(a, b)`: both offsets are clamped to the string's length and
      swapped when the first exceeds the second. */
  function Substring(s: string, a: nat, b: nat): (r: string)
    ensures a <= b <= |s| ==> r == s[a..b]
    ensures a <= |s| < b ==> r == s[a..]
    ensures b < a <= |s| ==> r == s[b..a]
    ensures b <= |s| < a ==> r == s[b..]
    ensures |s| <= a && |s| <= b ==> r == []
  {
    var lo := Min(Min(a, b), |s|);
    var hi := Min(Max(a, b), |s|);
    s[lo..hi]
  }

  /** True when `p` occurs in `s` starting at offset `k`. */
  predicate OccursAt(s: string, p: string, k: nat) {
    k + |p| <= |s| && s[k..k + |p|] == p
  }

  /** True when `p` occurs anywhere in `s`. */
  predicate Contains(s: string, p: string) {
    exists k: nat | k <= |s| :: OccursAt(s, p, k)
  }

  predicate StartsWith(s: string, p: string) {
    OccursAt(s, p, 0)
  }

  /** Lower-cases an ASCII capital; any other character is kept. */
  function LowerAscii(c: char): (r: char)
    ensures 'A' <= c <= 'Z' ==> r as int == c as int + 32
    ensures !('A' <= c <= 'Z') ==> r == c
  {
    if 'A' <= c <= 'Z' then (c as int + 32) as char else c
  }

  /** Lower-cases the ASCII capitals only. */
  function ToLowerAscii(s: string): (r: string)
    ensures |r| == |s|
    ensures forall k :: 0 <= k < |s| ==> r[k] == LowerAscii(s[k])
  {
    if s == [] then [] else [LowerAscii(s[0])] + ToLowerAscii(s[1..])
  }

  /** Every character of `x` is trim whitespace. */
  predicate AllTrimSpace(x: string) {
    forall k :: 0 <= k < |x| ==> IsTrimSpace(x[k])
  }

  /** How many characters of trim whitespace `s` starts with. */
  function LeadingSpaces(s: string): (n: nat)
    ensures n <= |s| && AllTrimSpace(s[..n])
    ensures n < |s| ==> !IsTrimSpace(s[n])
  {
    if s != [] && IsTrimSpace(s[0]) then
      var m := LeadingSpaces(s[1..]);
      assert s[..m + 1] == [s[0]] + s[1..][..m];
      m + 1
    else 0
  }

  /** Where the trim whitespace that `s` ends with begins. */
  function TrailingSpacesFrom(s: string): (n: nat)
    ensures n <= |s| && AllTrimSpace(s[n..])
    ensures 0 < n ==> !IsTrimSpace(s[n - 1])
  {
    if s != [] && IsTrimSpace(s[|s| - 1]) then
      var m := TrailingSpacesFrom(s[..|s| - 1]);
      assert s[m..] == s[..|s| - 1][m..] + [s[|s| - 1]];
      m
    else |s|
  }

  /** `s.trimStart()`: the longest suffix of `s` that does not begin with trim whitespace. */
  function TrimStart(s: string): (r: string)
    ensures |r| <= |s| && r == s[|s| - |r|..]
    ensures AllTrimSpace(s[..|s| - |r|])
    ensures r != [] ==> !IsTrimSpace(r[0])
  {
    s[LeadingSpaces(s)..]
  }

  /** `s.trimEnd()`: the longest prefix of `s` that does not end with trim whitespace. */
  function TrimEnd(s: string): (r: string)
    ensures |r| <= |s| && r == s[..|r|]
    ensures AllTrimSpace(s[|r|..])
    ensures r != [] ==> !IsTrimSpace(r[|r| - 1])
  {
    s[..TrailingSpacesFrom(s)]
  }

  /** `r` is the slice `s[a..b]` and only trim whitespace lies outside it. */
  predicate TrimmedBetween(s: string, r: string, a: nat, b: nat) {
    a <= b <= |s| && r == s[a..b] && AllTrimSpace(s[..a]) && AllTrimSpace(s[b..])
  }

  /** A prefix `r` of a suffix `t` of `s`, with only trim whitespace cut off at
      either side and none left at the ends, is a trimmed slice of `s`. */
  lemma TrimmedSlice(s: string, t: string, r: string)
    requires |t| <= |s| && t == s[|s| - |t|..] && AllTrimSpace(s[..|s| - |t|])
    requires t != [] ==> !IsTrimSpace(t[0])
    requires |r| <= |t| && r == t[..|r|] && AllTrimSpace(t[|r|..])
    requires r != [] ==> !IsTrimSpace(r[|r| - 1])
    ensures TrimmedBetween(s, r, |s| - |t|, |s| - |t| + |r|)
    ensures r != [] ==> !IsTrimSpace(r[0]) && !IsTrimSpace(r[|r| - 1])
  {
    assert s[|s| - |t| + |r|..] == t[|r|..];
    if r != [] {
      assert r[0] == t[0];
    }
  }

  /** `s.trim()`: the slice of `s` left once the trim whitespace at both ends is
      dropped. */
  function Trim(s: string): (r: string)
    ensures TrimmedBetween(s, r, LeadingSpaces(s), LeadingSpaces(s) + |r|)
    ensures r != [] ==> !IsTrimSpace(r[0]) && !IsTrimSpace(r[|r| - 1])
  {
    var t := TrimStart(s);
    var r := TrimEnd(t);
    TrimmedSlice(s, t, r);
    r
  }

  /** `trim()` leaves nothing exactly when every character is trim whitespace. */
  lemma TrimEmptyIff(s: string)
    ensures Trim(s) == [] <==> forall k :: 0 <= k < |s| ==> IsTrimSpace(s[k])
  {
    var t := TrimStart(s);
    if Trim(s) == [] {
      // TrimStart never leaves leading whitespace, so an empty trim means t is empty.
      assert t == [];
    } else {
      var r := Trim(s);
      assert r == TrimEnd(t) && r == t[..|r|];
      assert s[|s| - |t|] == r[0];
    }
  }

  /** Trimming twice changes nothing more than trimming once. */
  lemma TrimIdempotent(s: string)
    ensures Trim(Trim(s)) == Trim(s)
  {
    var r := Trim(s);
    assert TrimStart(r) == r;
    assert TrimEnd(r) == r;
  }

  /** A string with no trim whitespace at either end is its own trim. */
  lemma TrimUnpadded(s: string)
    requires s != [] ==> !IsTrimSpace(s[0]) && !IsTrimSpace(s[|s| - 1])
    ensures Trim(s) == s
  {
    assert TrimStart(s) == s;
    assert TrimEnd(s) == s;
  }

  /** `s.replaceAll(pat, rep)` for a non-empty string pattern: occurrences are found
      left to right and do not overlap; the replacement is never re-scanned. */
  function ReplaceAll(s: string, pat: string, rep: string): (r: string)
    requires pat != []
    ensures !Contains(s, pat) ==> r == s
    ensures |rep| <= |pat| ==> |r| <= |s|
    ensures forall c :: c in r ==> c in s || c in rep
    decreases |s|
  {
    if |s| < |pat| then s
    else if s[..|pat|] == pat then
      assert OccursAt(s, pat, 0);
      rep + ReplaceAll(s[|pat|..], pat, rep)
    else
      var tail := ReplaceAll(s[1..], pat, rep);
      assert !Contains(s, pat) ==> !Contains(s[1..], pat) by {
        if Contains(s[1..], pat) {
          var k: nat :| k <= |s[1..]| && OccursAt(s[1..], pat, k);
          assert s[k + 1..k + 1 + |pat|] == s[1..][k..k + |pat|];
          assert OccursAt(s, pat, k + 1);
        }
      }
      [s[0]] + tail
  }

  /** An occurrence in the tail is an occurrence one place further on. */
  lemma OccursAfterHead(s: string, pat: string, j: nat)
    requires s != []
    ensures OccursAt(s[1..], pat, j) <==> OccursAt(s, pat, j + 1)
  {
    if j + |pat| <= |s[1..]| {
      assert s[1..][j..j + |pat|] == s[j + 1..j + 1 + |pat|];
    }
  }

  /** Where the pattern does not start the text, `replaceAll` keeps the first
      character and goes on from the second. */
  lemma ReplaceAllSkipsHead(s: string, pat: string, rep: string)
    requires pat != [] && s != [] && !OccursAt(s, pat, 0)
    ensures ReplaceAll(s, pat, rep) == [s[0]] + ReplaceAll(s[1..], pat, rep)
  {
    if |s| >= |pat| {
      assert s[..|pat|] != pat;
    }
  }

  /** The first occurrence at `k > 0` is, in the tail, the first occurrence at
      `k - 1`. */
  lemma FirstOccurrenceInTail(s: string, pat: string, k: nat)
    requires 0 < k && s != [] && OccursAt(s, pat, k)
    requires forall j :: 0 <= j < k ==> !OccursAt(s, pat, j)
    ensures OccursAt(s[1..], pat, k - 1)
    ensures forall j :: 0 <= j < k - 1 ==> !OccursAt(s[1..], pat, j)
  {
    OccursAfterHead(s, pat, k - 1);
    forall j | 0 <= j < k - 1
      ensures !OccursAt(s[1..], pat, j)
    {
      OccursAfterHead(s, pat, j);
    }
  }

  /** `replaceAll` replaces the first occurrence of the pattern and then carries
      on after it: everything in front of that occurrence is kept as it is. */
  lemma {:induction false} ReplaceAllAtFirst(s: string, pat: string, rep: string, k: nat)
    requires pat != [] && OccursAt(s, pat, k)
    requires forall j :: 0 <= j < k ==> !OccursAt(s, pat, j)
    ensures ReplaceAll(s, pat, rep) == s[..k] + rep + ReplaceAll(s[k + |pat|..], pat, rep)
    decreases k, 1
  {
    if k == 0 {
      ReplaceAllAtStart(s, pat, rep);
    } else {
      ReplaceAllAfterHead(s, pat, rep, k);
    }
  }

  /** The first occurrence lies after the first character: the head is kept and
      the tail is replaced from its own first occurrence on. */
  lemma {:induction false} ReplaceAllAfterHead(s: string, pat: string, rep: string, k: nat)
    requires pat != [] && 0 < k && OccursAt(s, pat, k)
    requires forall j :: 0 <= j < k ==> !OccursAt(s, pat, j)
    ensures ReplaceAll(s, pat, rep) == s[..k] + rep + ReplaceAll(s[k + |pat|..], pat, rep)
    decreases k, 0
  {
    var t, j := s[1..], k - 1;
    FirstOccurrenceInTail(s, pat, k);
    ReplaceAllAtFirst(t, pat, rep, j);
    ReplaceAllSameInput(t[j + |pat|..], s[k + |pat|..], pat, rep);
    assert !OccursAt(s, pat, 0);
    ReplaceAllSkipsHead(s, pat, rep);
    PrefixOfTail(s, k);
    Assemble(ReplaceAll(s, pat, rep), ReplaceAll(t, pat, rep), [s[0]], t[..j], rep,
      ReplaceAll(t[j + |pat|..], pat, rep), ReplaceAll(s[k + |pat|..], pat, rep), s[..k]);
  }

  /** Equal inputs are replaced alike. */
  lemma ReplaceAllSameInput(a: string, b: string, pat: string, rep: string)
    requires pat != [] && a == b
    ensures ReplaceAll(a, pat, rep) == ReplaceAll(b, pat, rep)
  {
  }

  /** A pattern at the very start is replaced, and the rest is replaced after it. */
  lemma ReplaceAllAtStart(s: string, pat: string, rep: string)
    requires pat != [] && OccursAt(s, pat, 0)
    ensures ReplaceAll(s, pat, rep) == s[..0] + rep + ReplaceAll(s[|pat|..], pat, rep)
  {
    assert s[..|pat|] == pat;
    assert s[..0] + rep == rep;
  }

  /** A head before a tail that equals `x + y`, regrouped as `(h + x) + y`. */
  lemma Prepend(a: string, b: string, c: string, h: string, x: string, y: string, w: string)
    requires a == h + b && b == c && c == x + y && w == h + x
    ensures a == w + y
  {
  }

  /** A head before a replaced tail, regrouped around the replacement. */
  lemma Assemble(a: string, b: string, h: string, x: string, rep: string, y: string, z: string, p: string)
    requires a == h + b && b == x + rep + y && y == z && p == h + x
    ensures a == p + rep + z
  {
  }

  /** The first `k` characters are the head followed by the tail's first `k - 1`. */
  lemma PrefixOfTail(s: string, k: nat)
    requires 0 < k <= |s|
    ensures s[..k] == [s[0]] + s[1..][..k - 1]
  {
  }


}
