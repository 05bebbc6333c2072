/**
 * The annotated-article view: the source text is cut into paragraphs at
 * blank lines, each paragraph is segmented on its own by
 * `BuildAnnotatedSegments`, and each highlight carries a small state (is its
 * note open?) that decides where the note is shown.
 */
module AnnotatedArticle {
  import opened Wrappers
  import opened JsString
  import opened Annotations

  // ---------------------------------------------------------------------
  // Paragraphs
  // ---------------------------------------------------------------------

  predicate IsNewline(c: char) { c == '\n' }

  /** Two newlines in a row start at index `k`: a blank line. */
  predicate BreakAt(s: string, k: nat) {
    k + 1 < |s| && s[k] == '\n' && s[k + 1] == '\n'
  }

  predicate NoBreak(s: string) {
    forall k :: 0 <= k < |s| ==> !BreakAt(s, k)
  }

  /** A paragraph as the page renders it: non-empty, trimmed, and without
      a blank line inside. */
  predicate IsParagraph(p: string) {
    p != [] && !IsSpace(p[0]) && !IsSpace(p[|p| - 1]) && NoBreak(p)
  }

  /** The leftmost blank line at or after `i`. */
  function FindBreak(s: string, i: nat): (r: Option<nat>)
    ensures r.None? <==> forall k :: i <= k < |s| ==> !BreakAt(s, k)
    ensures r.Some? ==> i <= r.value && BreakAt(s, r.value) && forall k :: i <= k < r.value ==> !BreakAt(s, k)
    decreases |s| - i
  {
    if i + 1 >= |s| then None
    else if BreakAt(s, i) then Some(i)
    else FindBreak(s, i + 1)
  }

  /**
   * `split(/\n\n+/)`: the pieces between maximal runs of two or more
   * newlines. The leftmost match starts at the leftmost blank line and,
   * the `+` being greedy, runs over every newline that follows.
   */
  function SplitParagraphs(s: string): (r: seq<string>)
    ensures |r| >= 1
    ensures forall i :: 0 <= i < |r| ==> NoBreak(r[i])
    decreases |s|
  {
    match FindBreak(s, 0)
    case None => [s]
    case Some(i) =>
      var j := SkipWhile(s, i, IsNewline);
      assert j >= i + 2 by {
        assert IsNewline(s[i]) && IsNewline(s[i + 1]);
      }
      assert NoBreak(s[..i]) by {
        forall k | 0 <= k < i ensures !BreakAt(s[..i], k) {
          assert !BreakAt(s, k);
        }
      }
      [s[..i]] + SplitParagraphs(s[j..])
  }

  /** `.map(p => p.trim()).filter(p => p.length > 0)`. */
  function TrimNonEmpty(pieces: seq<string>): (r: seq<string>)
    ensures |r| <= |pieces|
    ensures forall i :: 0 <= i < |r| ==> r[i] != [] && !IsSpace(r[i][0]) && !IsSpace(r[i][|r[i]| - 1])
  {
    if pieces == [] then []
    else
      var t := Trim(pieces[0]);
      (if t == [] then [] else [t]) + TrimNonEmpty(pieces[1..])
  }

  /** The paragraphs of the article, in source order. */
  function Paragraphs(source: string): (r: seq<string>)
    ensures forall i :: 0 <= i < |r| ==> IsParagraph(r[i])
  {
    var pieces := SplitParagraphs(source);
    TrimNonEmptyNoBreak(pieces);
    TrimNonEmpty(pieces)
  }

  /** Trimming cannot create a blank line. */
  lemma {:induction false} TrimNonEmptyNoBreak(pieces: seq<string>)
    requires forall i :: 0 <= i < |pieces| ==> NoBreak(pieces[i])
    ensures forall i :: 0 <= i < |TrimNonEmpty(pieces)| ==> NoBreak(TrimNonEmpty(pieces)[i])
    decreases |pieces|
  {
    if pieces != [] {
      var t := Trim(pieces[0]);
      TrimNoBreak(pieces[0]);
      TrimNonEmptyNoBreak(pieces[1..]);
      assert TrimNonEmpty(pieces) == (if t == [] then [] else [t]) + TrimNonEmpty(pieces[1..]);
    }
  }

  lemma TrimNoBreak(piece: string)
    requires NoBreak(piece)
    ensures NoBreak(Trim(piece))
  {
    var a := LeadingSpace(piece);
    var t := Trim(piece);
    forall k | 0 <= k < |t| ensures !BreakAt(t, k) {
      assert !BreakAt(piece, a + k);
    }
  }

  lemma NoBreakInside(s: string, a: nat, b: nat)
    requires NoBreak(s) && a <= b <= |s|
    ensures NoBreak(s[a..b])
  {
    forall k | 0 <= k < b - a ensures !BreakAt(s[a..b], k) {
      assert !BreakAt(s, a + k);
    }
  }

  /** Cutting into paragraphs loses only white space: the paragraphs hold
      the article's visible characters, all of them, in source order. */
  lemma ParagraphsKeepText(source: string)
    ensures NonSpaceChars(Concat(Paragraphs(source))) == NonSpaceChars(source)
  {
    SplitKeepsText(source);
    TrimKeepsText(SplitParagraphs(source));
  }

  lemma {:induction false} SplitKeepsText(s: string)
    ensures NonSpaceChars(Concat(SplitParagraphs(s))) == NonSpaceChars(s)
    decreases |s|
  {
    match FindBreak(s, 0)
    case None =>
      assert SplitParagraphs(s) == [s];
      assert [s][1..] == [];
      assert Concat([s]) == s;
    case Some(i) =>
      var j := SkipWhile(s, i, IsNewline);
      var rest := SplitParagraphs(s[j..]);
      SplitKeepsText(s[j..]);
      assert SplitParagraphs(s) == [s[..i]] + rest;
      PieceThenBreak(s, i, j, rest);
  }

  /** One step of the split: a piece, a run of newlines, then pieces that
      keep the rest's visible characters. */
  lemma PieceThenBreak(s: string, i: nat, j: nat, rest: seq<string>)
    requires i <= j <= |s|
    requires forall k :: i <= k < j ==> IsNewline(s[k])
    requires NonSpaceChars(Concat(rest)) == NonSpaceChars(s[j..])
    ensures NonSpaceChars(Concat([s[..i]] + rest)) == NonSpaceChars(s)
  {
    assert ([s[..i]] + rest)[1..] == rest;
    NonSpaceCharsAppend(s[..i], Concat(rest));
    assert AllSpace(s[i..j]) by {
      forall k | 0 <= k < j - i ensures IsSpace(s[i..j][k]) {
        assert IsNewline(s[i + k]);
      }
    }
    NonSpaceCharsAround(s, i, j);
  }

  lemma {:induction false} TrimKeepsText(pieces: seq<string>)
    ensures NonSpaceChars(Concat(TrimNonEmpty(pieces))) == NonSpaceChars(Concat(pieces))
    decreases |pieces|
  {
    if pieces != [] {
      var t := Trim(pieces[0]);
      var rest := TrimNonEmpty(pieces[1..]);
      TrimKeepsText(pieces[1..]);
      TrimKeepsVisible(pieces[0]);
      NonSpaceCharsAppend(pieces[0], Concat(pieces[1..]));
      if t == [] {
        assert TrimNonEmpty(pieces) == rest;
      } else {
        assert TrimNonEmpty(pieces) == [t] + rest;
        assert Concat([t] + rest) == t + Concat(rest);
        NonSpaceCharsAppend(t, Concat(rest));
      }
    }
  }

  /** Paragraphs joined with one blank line between them. */
  function JoinParagraphs(ps: seq<string>): string
    decreases |ps|
  {
    if ps == [] then []
    else if |ps| == 1 then ps[0]
    else ps[0] + "\n\n" + JoinParagraphs(ps[1..])
  }

  /** Paragraphs written out with blank lines between them are read back
      exactly, in the same order. */
  lemma ParagraphsRoundTrip(ps: seq<string>)
    requires forall i :: 0 <= i < |ps| ==> IsParagraph(ps[i])
    ensures Paragraphs(JoinParagraphs(ps)) == ps
  {
    if ps == [] {
      assert SplitParagraphs("") == [""];
    } else {
      SplitJoin(ps);
    }
    TrimNonEmptyOfParagraphs(ps);
  }

  lemma {:induction false} SplitJoin(ps: seq<string>)
    requires ps != []
    requires forall i :: 0 <= i < |ps| ==> IsParagraph(ps[i])
    ensures SplitParagraphs(JoinParagraphs(ps)) == ps
    decreases |ps|
  {
    if |ps| == 1 {
      assert FindBreak(ps[0], 0).None?;
    } else {
      SplitJoin(ps[1..]);
      JoinStarts(ps[1..]);
      SplitAtBreak(ps[0], JoinParagraphs(ps[1..]));
    }
  }

  /** A paragraph, a blank line and text starting with a non-newline split
      at that blank line. */
  lemma SplitAtBreak(p: string, rest: string)
    requires IsParagraph(p)
    requires rest != [] && rest[0] != '\n'
    ensures SplitParagraphs(p + "\n\n" + rest) == [p] + SplitParagraphs(rest)
  {
    var s := p + "\n\n" + rest;
    var n := |p|;
    FirstBreakAfter(p, rest);
    assert s[n + 2] == rest[0];
    SkipWhileAt(s, n, n + 2, IsNewline);
    assert s[n + 2..] == rest;
    assert s[..n] == p;
  }

  /** The first blank line is the one right after the paragraph. */
  lemma FirstBreakAfter(p: string, rest: string)
    requires IsParagraph(p)
    ensures FindBreak(p + "\n\n" + rest, 0) == Some(|p|)
  {
    var s := p + "\n\n" + rest;
    var n := |p|;
    assert BreakAt(s, n);
    forall k | 0 <= k < n ensures !BreakAt(s, k) {
      if k + 1 < n {
        assert !BreakAt(p, k);
      } else {
        assert s[k] == p[n - 1];
      }
    }
  }

  lemma {:induction false} JoinStarts(ps: seq<string>)
    requires ps != []
    requires forall i :: 0 <= i < |ps| ==> IsParagraph(ps[i])
    ensures JoinParagraphs(ps) != [] && !IsSpace(JoinParagraphs(ps)[0])
  {
    if |ps| > 1 {
      assert JoinParagraphs(ps)[0] == ps[0][0];
    }
  }

  lemma {:induction false} TrimNonEmptyOfParagraphs(ps: seq<string>)
    requires forall i :: 0 <= i < |ps| ==> IsParagraph(ps[i])
    ensures TrimNonEmpty(ps) == ps
    decreases |ps|
  {
    if ps != [] {
      TrimOfTrimmed(ps[0]);
      TrimNonEmptyOfParagraphs(ps[1..]);
    }
  }

  // ---------------------------------------------------------------------
  // Segments per paragraph
  // ---------------------------------------------------------------------

  /** Each paragraph segmented on its own against every annotation: a
      paragraph has a highlight exactly when some annotation is found in it,
      and its highlights are the spans kept for that paragraph alone. */
  function ArticleSegments(source: string, annotations: seq<Annotation>): (r: seq<seq<Segment>>)
    ensures |r| == |Paragraphs(source)|
    ensures forall i :: 0 <= i < |r| ==> Joined(r[i]) == Paragraphs(source)[i]
    ensures forall i, s :: 0 <= i < |r| && s in r[i] && s.Highlight? ==>
      s.content == s.annotation.anchor && s.annotation in annotations
    ensures forall i :: 0 <= i < |r| ==>
      ((exists s :: s in r[i] && s.Highlight?) <==>
       (exists k :: 0 <= k < |annotations| && Found(Paragraphs(source)[i], annotations[k])))
    ensures forall i :: 0 <= i < |r| ==> Marks(r[i], 0) == ToMarks(Kept(Paragraphs(source)[i], annotations))
  {
    var paras := Paragraphs(source);
    seq(|paras|, i requires 0 <= i < |paras| => BuildAnnotatedSegments(paras[i], annotations))
  }

  /** One annotation is highlighted once in every paragraph that contains
      its anchor (after its context, when it has one), and nowhere else. */
  lemma AnnotationOncePerParagraph(source: string, a: Annotation, i: nat)
    requires i < |Paragraphs(source)|
    ensures var r := ArticleSegments(source, [a]);
      && (Found(Paragraphs(source)[i], a) ==>
            |Highlights(r[i])| == 1 && Highlights(r[i])[0] == Highlight(a.anchor, a))
      && (!Found(Paragraphs(source)[i], a) ==> Highlights(r[i]) == [])
  {
    SingleAnnotationOnce(Paragraphs(source)[i], a);
  }

  /** No segment of the page, plain or highlighted, spans a blank line. */
  lemma SegmentsWithinParagraphs(source: string, annotations: seq<Annotation>)
    ensures var r := ArticleSegments(source, annotations);
      forall i, s :: 0 <= i < |r| && s in r[i] ==> NoBreak(s.content)
  {
    var r := ArticleSegments(source, annotations);
    forall i | 0 <= i < |r| ensures forall s: Segment :: s in r[i] ==> NoBreak(s.content) {
      SegmentsNoBreak(r[i]);
    }
  }

  /** Hence an annotation whose anchor contains a blank line is never
      highlighted, even though its anchor occurs in the source. */
  lemma AnchorAcrossBlankLineIgnored(source: string, annotations: seq<Annotation>, a: Annotation)
    requires !NoBreak(a.anchor)
    ensures var r := ArticleSegments(source, annotations);
      forall i, s :: 0 <= i < |r| && s in r[i] && s.Highlight? ==> s.annotation != a
  {
    SegmentsWithinParagraphs(source, annotations);
  }

  lemma {:induction false} SegmentsNoBreak(segs: seq<Segment>)
    requires NoBreak(Joined(segs))
    ensures forall s: Segment :: s in segs ==> NoBreak(s.content)
    decreases |segs|
  {
    if segs != [] {
      var j := Joined(segs);
      var c := segs[0].content;
      assert j == c + Joined(segs[1..]);
      NoBreakInside(j, 0, |c|);
      assert j[..|c|] == c;
      NoBreakInside(j, |c|, |j|);
      assert j[|c|..|j|] == Joined(segs[1..]);
      SegmentsNoBreak(segs[1..]);
    }
  }

  // ---------------------------------------------------------------------
  // One highlight
  // ---------------------------------------------------------------------

  /** The highlight's accessible name: the first 50 characters of the note
      after "Annotation: ", and "..." whether or not anything was cut. */
  function AriaLabel(note: string): (r: string)
    ensures r == "Annotation: " + (if |note| <= 50 then note else note[..50]) + "..."
  {
    "Annotation: " + Slice(note, 0, 50) + "..."
  }

  /** The label is at most 65 characters and starts with the note's opening. */
  lemma AriaLabelShape(note: string)
    ensures |AriaLabel(note)| <= 65
    ensures |note| <= 50 ==> |AriaLabel(note)| == |note| + 15
    ensures var cut := if |note| <= 50 then |note| else 50;
      AriaLabel(note)[12..12 + cut] == note[..cut]
  {
  }

  datatype HighlightEvent = Click | KeyDown(key: string) | Close

  /** The keys that act like a click on a focused highlight. */
  predicate Activates(key: string) { key == "Enter" || key == " " }

  /** The open/closed state of a highlight's note: a click, Enter or space
      flips it; the popover's close button closes it; other keys do nothing. */
  function Popover(open: bool, ev: HighlightEvent): (r: bool)
    ensures ev.Click? || (ev.KeyDown? && Activates(ev.key)) ==> r == !open
    ensures ev.Close? ==> !r
    ensures ev.KeyDown? && !Activates(ev.key) ==> r == open
  {
    match ev
    case Click => !open
    case KeyDown(key) => if Activates(key) then !open else open
    case Close => false
  }

  /** Activating a highlight twice leaves it as it was. */
  lemma ActivateTwice(open: bool, ev: HighlightEvent, ev': HighlightEvent)
    requires ev.Click? || (ev.KeyDown? && Activates(ev.key))
    requires ev'.Click? || (ev'.KeyDown? && Activates(ev'.key))
    ensures Popover(Popover(open, ev), ev') == open
  {
  }

  /** Where a highlight's note is shown. */
  datatype Shown = Shown(marginNote: bool, popover: bool, inlineNote: bool)

  /** A margin annotation always has its side note (wide screens) and, while
      open, a popover (narrow screens); an inline annotation shows its note
      below the text only while open. */
  function NotePlaces(noteType: NoteType, open: bool): (r: Shown)
    ensures r.marginNote <==> noteType == Margin
    ensures r.popover <==> noteType == Margin && open
    ensures r.inlineNote <==> noteType == Inline && open
  {
    Shown(noteType == Margin, open && noteType == Margin, open && noteType == Inline)
  }

  /** A closed inline highlight shows nothing; opening it with a click
      shows its note, and closing it again hides it. */
  lemma InlineNoteFollowsClicks(open: bool)
    ensures NotePlaces(Inline, false) == Shown(false, false, false)
    ensures NotePlaces(Inline, Popover(false, Click)).inlineNote
    ensures !NotePlaces(Inline, Popover(Popover(false, Click), Click)).inlineNote
  {
  }

  /** Closing the popover of a margin annotation keeps its side note. */
  lemma CloseKeepsMarginNote(open: bool)
    ensures NotePlaces(Margin, Popover(open, Close)) == Shown(true, false, false)
  {
  }
}
