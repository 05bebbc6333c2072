/**
 * Reading-time estimate: the content is split on runs of white space and
 * the number of pieces is divided by 200 words per minute, rounding up.
 */
module Utils {
  import opened Wrappers
  import opened JsString

  const WordsPerMinute: nat := 200

  /**
   * `content.split(/\s+/)`: the pieces between maximal runs of white space.
   * A run at the very start or end yields an empty piece there, and the
   * empty string yields one empty piece.
   */
  function SpaceSplit(s: string): (r: seq<string>)
    ensures |r| >= 1
    ensures forall i :: 0 <= i < |r| ==> NoSpace(r[i])
    decreases |s|
  {
    match FindFirst(s, IsSpace)
    case None => [s]
    case Some(i) =>
      var j := SkipWhile(s, i, IsSpace);
      [s[..i]] + SpaceSplit(s[j..])
  }

  /** `Math.ceil(words / 200)` for the number of split pieces. */
  function EstimateReadingTime(content: string): (minutes: nat)
    ensures minutes >= 1
    ensures (minutes - 1) * WordsPerMinute < |SpaceSplit(content)| <= minutes * WordsPerMinute
  {
    var words := |SpaceSplit(content)|;
    (words + WordsPerMinute - 1) / WordsPerMinute
  }

  // ---------------------------------------------------------------------
  // Reference count: one piece more than there are runs of white space
  // ---------------------------------------------------------------------

  /** The number of maximal runs of white space, counted at their last
      character. */
  function SpaceRuns(s: string): nat
    decreases |s|
  {
    if s == [] then 0
    else (if IsSpace(s[0]) && (|s| == 1 || !IsSpace(s[1])) then 1 else 0) + SpaceRuns(s[1..])
  }

  /** The split yields exactly one piece more than there are white-space runs. */
  lemma {:induction false} SplitCount(s: string)
    ensures |SpaceSplit(s)| == SpaceRuns(s) + 1
    decreases |s|
  {
    match FindFirst(s, IsSpace)
    case None =>
      RunsOfWord(s, |s|);
    case Some(i) =>
      var j := SkipWhile(s, i, IsSpace);
      SplitCount(s[j..]);
      RunsOfWord(s, i);
      RunsOfGap(s[i..], j - i);
      assert s[i..][j - i..] == s[j..];
  }

  /** A prefix without white space contributes no run. */
  lemma {:induction false} RunsOfWord(s: string, i: nat)
    requires i <= |s| && NoSpace(s[..i])
    ensures SpaceRuns(s) == SpaceRuns(s[i..])
    decreases i
  {
    if i > 0 {
      assert !IsSpace(s[..i][0]);
      var t := s[1..][..i - 1];
      assert NoSpace(t) by {
        forall k | 0 <= k < |t| ensures !IsSpace(t[k]) {
          assert t[k] == s[..i][k + 1];
        }
      }
      RunsOfWord(s[1..], i - 1);
      assert s[1..][i - 1..] == s[i..];
    }
  }

  /** A maximal run of white space at the start contributes exactly one run. */
  lemma {:induction false} RunsOfGap(s: string, n: nat)
    requires 0 < n <= |s|
    requires forall k :: 0 <= k < n ==> IsSpace(s[k])
    requires n == |s| || !IsSpace(s[n])
    ensures SpaceRuns(s) == 1 + SpaceRuns(s[n..])
    decreases n
  {
    if n > 1 {
      RunsOfGap(s[1..], n - 1);
      assert s[1..][n - 1..] == s[n..];
    }
  }

  /** The pieces hold exactly the non-white-space characters, in order:
      the split only removes white space. */
  lemma {:induction false} SplitKeepsText(s: string)
    ensures Concat(SpaceSplit(s)) == NonSpaceChars(s)
    decreases |s|
  {
    match FindFirst(s, IsSpace)
    case None =>
      NonSpaceCharsOfWord(s);
      assert Concat([s]) == s + Concat([]);
    case Some(i) =>
      var j := SkipWhile(s, i, IsSpace);
      SplitKeepsText(s[j..]);
      assert SpaceSplit(s) == [s[..i]] + SpaceSplit(s[j..]);
      WordThenGap(s, i, j, SpaceSplit(s[j..]));
  }

  /** One step of the split: a word, a run of white space, then pieces that
      keep the rest's visible characters. */
  lemma WordThenGap(s: string, i: nat, j: nat, rest: seq<string>)
    requires i <= j <= |s|
    requires forall k :: 0 <= k < i ==> !IsSpace(s[k])
    requires forall k :: i <= k < j ==> IsSpace(s[k])
    requires Concat(rest) == NonSpaceChars(s[j..])
    ensures Concat([s[..i]] + rest) == NonSpaceChars(s)
  {
    assert ([s[..i]] + rest)[1..] == rest;
    assert AllSpace(s[i..j]) by {
      forall k | 0 <= k < j - i ensures IsSpace(s[i..j][k]) {
        assert s[i..j][k] == s[i + k];
      }
    }
    NonSpaceCharsAround(s, i, j);
    NonSpaceCharsOfWord(s[..i]);
  }

  lemma {:induction false} NonSpaceCharsOfWord(s: string)
    requires NoSpace(s)
    ensures NonSpaceChars(s) == s
    decreases |s|
  {
    if s != [] {
      NonSpaceCharsOfWord(s[1..]);
    }
  }

  // ---------------------------------------------------------------------
  // Round trip and the documented examples
  // ---------------------------------------------------------------------

  /** Words joined with single spaces. */
  function JoinSpace(ws: seq<string>): string
    decreases |ws|
  {
    if ws == [] then []
    else if |ws| == 1 then ws[0]
    else ws[0] + " " + JoinSpace(ws[1..])
  }

  /** Splitting non-empty words joined by single spaces gives the words back. */
  lemma {:induction false} SplitJoin(ws: seq<string>)
    requires ws != []
    requires forall i :: 0 <= i < |ws| ==> ws[i] != [] && NoSpace(ws[i])
    ensures SpaceSplit(JoinSpace(ws)) == ws
    decreases |ws|
  {
    if |ws| == 1 {
      assert FindFirst(ws[0], IsSpace) == None;
    } else {
      SplitJoin(ws[1..]);
      JoinSpaceStarts(ws[1..]);
      SplitAtSpace(ws[0], JoinSpace(ws[1..]));
    }
  }

  /** A word, one space and text starting with a non-space split at that space. */
  lemma SplitAtSpace(w: string, rest: string)
    requires NoSpace(w)
    requires rest != [] && !IsSpace(rest[0])
    ensures SpaceSplit(w + " " + rest) == [w] + SpaceSplit(rest)
  {
    var s := w + " " + rest;
    assert FindFirst(s, IsSpace) == Some(|w|) by {
      assert s[|w|] == ' ';
      assert forall k :: 0 <= k < |w| ==> s[k] == w[k];
    }
    assert s[|w| + 1] == rest[0];
    SkipWhileAt(s, |w|, |w| + 1, IsSpace);
    assert s[|w| + 1..] == rest;
    assert s[..|w|] == w;
  }

  lemma {:induction false} JoinSpaceStarts(ws: seq<string>)
    requires ws != []
    requires forall i :: 0 <= i < |ws| ==> ws[i] != [] && NoSpace(ws[i])
    ensures JoinSpace(ws) != [] && !IsSpace(JoinSpace(ws)[0])
  {
    if |ws| > 1 {
      assert JoinSpace(ws)[0] == ws[0][0];
    }
  }

  /** `n` copies of `w`. */
  function Repeat(w: string, n: nat): (r: seq<string>)
    ensures |r| == n
    ensures forall i :: 0 <= i < n ==> r[i] == w
  {
    if n == 0 then [] else [w] + Repeat(w, n - 1)
  }

  /** Text of `n` space-separated words: `n` words, so 400 words read in two
      minutes and 250 words round up to two. */
  lemma RepeatedWords(w: string, n: nat)
    requires n >= 1 && w != [] && NoSpace(w)
    ensures EstimateReadingTime(JoinSpace(Repeat(w, n))) == (n + 199) / 200
  {
    SplitJoin(Repeat(w, n));
  }

  lemma FourHundredAndTwoHundredFiftyWords(w: string)
    requires w == "word"
    ensures EstimateReadingTime(JoinSpace(Repeat(w, 400))) == 2
    ensures EstimateReadingTime(JoinSpace(Repeat(w, 250))) == 2
  {
    RepeatedWords(w, 400);
    RepeatedWords(w, 250);
  }

  // ---------------------------------------------------------------------
  // Edge behaviour
  // ---------------------------------------------------------------------

  /** The empty content counts as one word, so the estimate is one minute. */
  lemma EmptyContent()
    ensures SpaceSplit("") == [""]
    ensures EstimateReadingTime("") == 1
  {
  }

  /** White space at the start or the end adds an empty piece there. */
  lemma {:induction false} EdgeSpaceAddsEmptyPiece(s: string)
    requires s != []
    ensures IsSpace(s[0]) ==> SpaceSplit(s)[0] == ""
    ensures IsSpace(s[|s| - 1]) ==> SpaceSplit(s)[|SpaceSplit(s)| - 1] == ""
    decreases |s|
  {
    match FindFirst(s, IsSpace)
    case None =>
    case Some(i) =>
      var j := SkipWhile(s, i, IsSpace);
      var t := s[j..];
      var rest := SpaceSplit(t);
      assert SpaceSplit(s) == [s[..i]] + rest;
      if t != [] {
        EdgeSpaceAddsEmptyPiece(t);
        assert t[|t| - 1] == s[|s| - 1];
      } else {
        assert rest == [""];
      }
  }

  /** Appending text never lowers the estimate. */
  lemma AppendMonotone(s: string, t: string)
    ensures EstimateReadingTime(s + t) >= EstimateReadingTime(s)
  {
    SplitCount(s);
    SplitCount(s + t);
    RunsMonotone(s, t);
  }

  lemma {:induction false} RunsMonotone(s: string, t: string)
    ensures SpaceRuns(s + t) >= SpaceRuns(s)
    decreases |s|
  {
    if s != [] {
      assert (s + t)[1..] == s[1..] + t;
      RunsMonotone(s[1..], t);
      if |s| == 1 && IsSpace(s[0]) && t != [] && IsSpace(t[0]) {
        assert s[1..] + t == t;
        RunsPositive(t);
      }
    }
  }

  /** Text that starts with white space has at least one run. */
  lemma {:induction false} RunsPositive(s: string)
    requires s != [] && IsSpace(s[0])
    ensures SpaceRuns(s) >= 1
    decreases |s|
  {
    if |s| > 1 && IsSpace(s[1]) {
      RunsPositive(s[1..]);
    }
  }
}
