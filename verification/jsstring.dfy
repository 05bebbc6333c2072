/**
 * The JavaScript string and array primitives the site relies on, over
 * strings modelled as sequences of characters: `indexOf`, `slice`, `trim`,
 * the `\s` character class and ASCII lower-casing.
 */
module JsString {
  import opened Wrappers

  /** The characters `\s` and `String.prototype.trim` treat as white space:
      ECMAScript's WhiteSpace and LineTerminator productions. */
  predicate IsSpace(c: char) {
    || c == '\t' || c == '\n' || c == '\U{000B}' || c == '\U{000C}' || c == '\r'
    || c == ' ' || c == '\U{00A0}' || c == '\U{1680}'
    || ('\U{2000}' <= c <= '\U{200A}')
    || c == '\U{2028}' || c == '\U{2029}' || c == '\U{202F}' || c == '\U{205F}'
    || c == '\U{3000}' || c == '\U{FEFF}'
  }

  predicate AllSpace(s: string) {
    forall k :: 0 <= k < |s| ==> IsSpace(s[k])
  }

  predicate NoSpace(s: string) {
    forall k :: 0 <= k < |s| ==> !IsSpace(s[k])
  }

  /** The non-white-space characters of `s`, in order. */
  function NonSpaceChars(s: string): string
  {
    if s == [] then []
    else if IsSpace(s[0]) then NonSpaceChars(s[1..])
    else [s[0]] + NonSpaceChars(s[1..])
  }

  lemma {:induction false} NonSpaceCharsAppend(a: string, b: string)
    ensures NonSpaceChars(a + b) == NonSpaceChars(a) + NonSpaceChars(b)
    decreases |a|
  {
    if a == [] {
      assert a + b == b;
    } else {
      assert (a + b)[1..] == a[1..] + b;
      NonSpaceCharsAppend(a[1..], b);
    }
  }

  lemma {:induction false} NonSpaceCharsOfSpaces(s: string)
    requires AllSpace(s)
    ensures NonSpaceChars(s) == []
    decreases |s|
  {
    if s != [] {
      NonSpaceCharsOfSpaces(s[1..]);
    }
  }

  /** Cutting a run of white space out of `s` keeps its visible characters. */
  lemma NonSpaceCharsAround(s: string, i: nat, j: nat)
    requires i <= j <= |s| && AllSpace(s[i..j])
    ensures NonSpaceChars(s) == NonSpaceChars(s[..i]) + NonSpaceChars(s[j..])
  {
    assert s == s[..i] + s[i..j] + s[j..];
    NonSpaceCharsOfGap(s[..i], s[i..j], s[j..]);
  }

  lemma NonSpaceCharsOfGap(a: string, gap: string, b: string)
    requires AllSpace(gap)
    ensures NonSpaceChars(a + gap + b) == NonSpaceChars(a) + NonSpaceChars(b)
  {
    NonSpaceCharsAppend(a + gap, b);
    NonSpaceCharsAppend(a, gap);
    NonSpaceCharsOfSpaces(gap);
  }

  /** The concatenation of a list of strings, in order. */
  function Concat(ss: seq<string>): string
  {
    if ss == [] then [] else ss[0] + Concat(ss[1..])
  }

  lemma {:induction false} ConcatAppend(a: seq<string>, b: seq<string>)
    ensures Concat(a + b) == Concat(a) + Concat(b)
    decreases |a|
  {
    if a == [] {
      assert a + b == b;
    } else {
      assert (a + b)[1..] == a[1..] + b;
      ConcatAppend(a[1..], b);
    }
  }

  // ---------------------------------------------------------------------
  // indexOf
  // ---------------------------------------------------------------------

  /** `pat` occurs in `text` starting at index `k`. */
  predicate OccursAt(text: string, pat: string, k: nat) {
    k + |pat| <= |text| && text[k..k + |pat|] == pat
  }

  /** Where `indexOf(pat, from)` starts looking: `from` clamped to the text. */
  function SearchStart(text: string, from: nat): (r: nat)
    ensures r <= |text|
    ensures from <= |text| ==> r == from
  {
    if from <= |text| then from else |text|
  }

  /** `k` is the leftmost occurrence of `pat` at or after `from`. */
  ghost predicate IsFirstFrom(text: string, pat: string, from: nat, k: nat) {
    && SearchStart(text, from) <= k
    && OccursAt(text, pat, k)
    && forall j :: SearchStart(text, from) <= j < k ==> !OccursAt(text, pat, j)
  }

  /** `pat` occurs somewhere at or after `from`. */
  ghost predicate OccursFrom(text: string, pat: string, from: nat) {
    exists k :: SearchStart(text, from) <= k && OccursAt(text, pat, k)
  }

  lemma FirstFromUnique(text: string, pat: string, from: nat, k1: nat, k2: nat)
    requires IsFirstFrom(text, pat, from, k1) && IsFirstFrom(text, pat, from, k2)
    ensures k1 == k2
  {
  }

  /**
   * `text.indexOf(pat, from)`: the leftmost occurrence of `pat` at an index
   * at or after `min(from, |text|)`, with None for JavaScript's `-1`. An
   * empty `pat` is found at the search start itself.
   */
  function IndexOf(text: string, pat: string, from: nat): (r: Option<nat>)
    ensures r.Some? <==> OccursFrom(text, pat, from)
    ensures r.Some? ==> IsFirstFrom(text, pat, from, r.value)
    decreases |text| - SearchStart(text, from)
  {
    var i := SearchStart(text, from);
    if OccursAt(text, pat, i) then Some(i)
    else if i + |pat| >= |text| then
      assert forall k :: i <= k ==> !OccursAt(text, pat, k) by {
        forall k | i < k ensures !OccursAt(text, pat, k) {
        }
      }
      None
    else
      var r := IndexOf(text, pat, i + 1);
      assert r.Some? ==> IsFirstFrom(text, pat, from, r.value) by {
        if r.Some? {
          forall j | i <= j < r.value ensures !OccursAt(text, pat, j) {
            if j > i {
              assert SearchStart(text, i + 1) <= j;
            }
          }
        }
      }
      r
  }

  /** The leftmost index of a character satisfying `p`, if any. */
  function FindFirst(s: string, p: char -> bool): (r: Option<nat>)
    ensures r.None? <==> forall k :: 0 <= k < |s| ==> !p(s[k])
    ensures r.Some? ==> r.value < |s| && p(s[r.value]) && forall k :: 0 <= k < r.value ==> !p(s[k])
  {
    if s == [] then None
    else if p(s[0]) then Some(0)
    else match FindFirst(s[1..], p)
      case None => None
      case Some(k) => Some(k + 1)
  }

  /** The end of the run of characters satisfying `p` that starts at `i`. */
  function SkipWhile(s: string, i: nat, p: char -> bool): (j: nat)
    requires i <= |s|
    ensures i <= j <= |s|
    ensures forall k :: i <= k < j ==> p(s[k])
    ensures j == |s| || !p(s[j])
    decreases |s| - i
  {
    if i < |s| && p(s[i]) then SkipWhile(s, i + 1, p) else i
  }

  /** A run of `p` characters followed by a non-`p` character (or the end)
      ends where that character is. */
  lemma SkipWhileAt(s: string, i: nat, j: nat, p: char -> bool)
    requires i <= j <= |s|
    requires forall k :: i <= k < j ==> p(s[k])
    requires j == |s| || !p(s[j])
    ensures SkipWhile(s, i, p) == j
  {
  }

  // ---------------------------------------------------------------------
  // trim
  // ---------------------------------------------------------------------

  /** The start of the run of characters satisfying `p` that ends at `j`,
      looking no further back than `lo`. */
  function SkipBackWhile(s: string, lo: nat, j: nat, p: char -> bool): (i: nat)
    requires lo <= j <= |s|
    ensures lo <= i <= j
    ensures forall k :: i <= k < j ==> p(s[k])
    ensures i == lo || !p(s[i - 1])
    decreases j - lo
  {
    if lo < j && p(s[j - 1]) then SkipBackWhile(s, lo, j - 1, p) else j
  }

  /** The number of white-space characters `trim` removes from the front. */
  function LeadingSpace(s: string): (a: nat)
    ensures a <= |s| && forall k :: 0 <= k < a ==> IsSpace(s[k])
    ensures a < |s| ==> !IsSpace(s[a])
  {
    SkipWhile(s, 0, IsSpace)
  }

  /** Where `trim` cuts the end off: the start of the trailing white space,
      no earlier than `LeadingSpace(s)`. */
  function TrailingStart(s: string): (b: nat)
    ensures LeadingSpace(s) <= b <= |s|
    ensures forall k :: b <= k < |s| ==> IsSpace(s[k])
    ensures b == LeadingSpace(s) || !IsSpace(s[b - 1])
  {
    SkipBackWhile(s, LeadingSpace(s), |s|, IsSpace)
  }

  /**
   * `s.trim()`: `s` without its leading and trailing white space, which is
   * the infix of `s` at `LeadingSpace(s)`; it is empty exactly when `s` is
   * all white space.
   */
  function Trim(s: string): (r: string)
    ensures r == [] || (!IsSpace(r[0]) && !IsSpace(r[|r| - 1]))
    ensures r == [] <==> AllSpace(s)
    ensures LeadingSpace(s) + |r| <= |s| && r == s[LeadingSpace(s)..LeadingSpace(s) + |r|]
  {
    var a, b := LeadingSpace(s), TrailingStart(s);
    assert a < b ==> !IsSpace(s[a]);
    s[a..b]
  }

  /** `trim` removes only white space: what follows the result is white
      space, and the visible characters are all kept. */
  lemma TrimKeepsVisible(s: string)
    ensures var a, r := LeadingSpace(s), Trim(s);
      && AllSpace(s[a + |r|..])
      && NonSpaceChars(r) == NonSpaceChars(s)
  {
    var a, b := LeadingSpace(s), TrailingStart(s);
    assert AllSpace(s[..a]) by {
      forall k | 0 <= k < a ensures IsSpace(s[..a][k]) {
        assert s[..a][k] == s[k];
      }
    }
    assert AllSpace(s[b..]) by {
      forall k | 0 <= k < |s| - b ensures IsSpace(s[b..][k]) {
        assert s[b..][k] == s[b + k];
      }
    }
    SplitNonSpace(s, a, Trim(s));
  }

  lemma SplitNonSpace(s: string, a: nat, r: string)
    requires a + |r| <= |s| && r == s[a..a + |r|]
    requires AllSpace(s[..a]) && AllSpace(s[a + |r|..])
    ensures NonSpaceChars(r) == NonSpaceChars(s)
  {
    var rest := s[a + |r|..];
    assert s == s[..a] + (r + rest);
    NonSpaceCharsAppend(s[..a], r + rest);
    NonSpaceCharsAppend(r, rest);
    NonSpaceCharsOfSpaces(s[..a]);
    NonSpaceCharsOfSpaces(rest);
  }

  lemma TrimOfTrimmed(s: string)
    requires s == [] || (!IsSpace(s[0]) && !IsSpace(s[|s| - 1]))
    ensures Trim(s) == s
  {
  }

  // ---------------------------------------------------------------------
  // slice
  // ---------------------------------------------------------------------

  /** How `slice` resolves a relative index: negative counts from the end,
      and the result is clamped to `[0, len]`. */
  function RelativeIndex(rel: int, len: nat): (r: nat)
    ensures r <= len
    ensures 0 <= rel <= len ==> r == rel
    ensures rel > len ==> r == len
    ensures rel < 0 ==> r == if len + rel < 0 then 0 else len + rel
  {
    if rel < 0 then (if len + rel < 0 then 0 else len + rel)
    else if rel > len then len
    else rel
  }

  /** `s.slice(start, end)` for strings and arrays alike. */
  function Slice<T>(s: seq<T>, start: int, end: int): (r: seq<T>)
    ensures var a, b := RelativeIndex(start, |s|), RelativeIndex(end, |s|);
      |r| == (if a <= b then b - a else 0) && forall k :: 0 <= k < |r| ==> r[k] == s[a + k]
    ensures 0 <= start <= end <= |s| ==> r == s[start..end]
  {
    var a, b := RelativeIndex(start, |s|), RelativeIndex(end, |s|);
    if a <= b then s[a..b] else []
  }

  // ---------------------------------------------------------------------
  // toLowerCase (ASCII)
  // ---------------------------------------------------------------------

  predicate IsAsciiUpper(c: char) { 'A' <= c <= 'Z' }

  function ToLowerChar(c: char): (r: char)
    ensures !IsAsciiUpper(r)
    ensures !IsAsciiUpper(c) ==> r == c
    ensures IsAsciiUpper(c) ==> r as int - c as int == 32
  {
    if IsAsciiUpper(c) then (c as int + 32) as char else c
  }

  /** `s.toLowerCase()` restricted to the ASCII letters. */
  function ToLower(s: string): (r: string)
    ensures |r| == |s|
    ensures forall k :: 0 <= k < |s| ==> r[k] == ToLowerChar(s[k])
  {
    if s == [] then [] else [ToLowerChar(s[0])] + ToLower(s[1..])
  }
}
