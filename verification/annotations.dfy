/**
 * Anchor matching and segment building for annotated articles: each
 * annotation names a literal substring (its anchor), optionally after a
 * context string; the builder locates every annotation, keeps the
 * non-overlapping ones by start position, and partitions the text into
 * plain and highlighted segments that concatenate back to the text.
 */
module Annotations {
  import opened Wrappers
  import opened JsString
  import StableSort

  datatype NoteType = Margin | Inline

  datatype Annotation = Annotation(
    id: string,
    anchor: string,
    startContext: Option<string>,
    noteType: NoteType,
    note: string)

  /** A half-open span `[start, end)` of the text. */
  datatype AnchorPosition = AnchorPosition(start: nat, end: nat)

  /** An output unit: plain text, or highlighted text with its annotation. */
  datatype Segment =
    | Text(content: string)
    | Highlight(content: string, annotation: Annotation)

  /** A located annotation. `index` is its position in the input list: the
      source tells located records apart by object identity. */
  datatype Positioned = Positioned(annotation: Annotation, index: nat, start: nat, end: nat)

  /** A highlighted span of the output, with its offset in the text. */
  datatype Mark = Mark(annotation: Annotation, start: nat, end: nat)

  // ---------------------------------------------------------------------
  // Anchor locator
  // ---------------------------------------------------------------------

  /** `if (startContext)`: an absent or empty context is ignored. */
  predicate HasContext(startContext: Option<string>) {
    startContext.Some? && startContext.value != []
  }

  /**
   * `findAnchorPosition`: without a context, the first occurrence of the
   * anchor; with one, the first occurrence at or after the end of the first
   * occurrence of the context. `FindAnchorPositionIsLeftmost` states which
   * occurrence that is.
   */
  function FindAnchorPosition(text: string, anchor: string, startContext: Option<string>): (r: Option<AnchorPosition>)
    ensures r.Some? ==> r.value.end == r.value.start + |anchor| && OccursAt(text, anchor, r.value.start)
  {
    if HasContext(startContext) then
      var context := startContext.value;
      match IndexOf(text, context, 0)
      case None => None
      case Some(c) =>
        match IndexOf(text, anchor, c + |context|)
        case None => None
        case Some(k) => Some(AnchorPosition(k, k + |anchor|))
    else
      match IndexOf(text, anchor, 0)
      case None => None
      case Some(k) => Some(AnchorPosition(k, k + |anchor|))
  }

  /**
   * Which occurrence the locator reports. Without a context (absent or
   * empty): the leftmost occurrence of the anchor, and nothing exactly when
   * the anchor does not occur. With a context: the leftmost anchor at or
   * after the end of the FIRST occurrence of the context, and nothing when
   * the context is absent or no anchor follows it; later occurrences of the
   * context are never tried.
   */
  lemma FindAnchorPositionIsLeftmost(text: string, anchor: string, startContext: Option<string>)
    ensures var r := FindAnchorPosition(text, anchor, startContext);
      && (!HasContext(startContext) ==> (r.Some? <==> OccursFrom(text, anchor, 0)))
      && (!HasContext(startContext) && r.Some? ==> IsFirstFrom(text, anchor, 0, r.value.start))
      && (HasContext(startContext) ==>
            (r.Some? <==> exists c: nat :: IsFirstFrom(text, startContext.value, 0, c)
                                          && OccursFrom(text, anchor, c + |startContext.value|)))
      && (HasContext(startContext) && r.Some? ==>
            exists c: nat :: IsFirstFrom(text, startContext.value, 0, c)
                          && IsFirstFrom(text, anchor, c + |startContext.value|, r.value.start))
  {
    if HasContext(startContext) {
      var context := startContext.value;
      match IndexOf(text, context, 0)
      case None =>
      case Some(c) =>
        forall c': nat | IsFirstFrom(text, context, 0, c') ensures c' == c {
          FirstFromUnique(text, context, 0, c, c');
        }
    }
  }
  /** Conversely, first occurrences determine the answer: with a context
      whose first occurrence ends at `c + |context|`, and the first anchor
      from there at `k`, the anchor is reported at `k`. */
  lemma {:induction false} ContextAnswer(text: string, anchor: string, context: string, c: nat, k: nat)
    requires context != []
    requires IsFirstFrom(text, context, 0, c) && IsFirstFrom(text, anchor, c + |context|, k)
    ensures FindAnchorPosition(text, anchor, Some(context)) == Some(AnchorPosition(k, k + |anchor|))
  {
    ContextSearches(text, anchor, context, c, k);
    ContextSteps(text, anchor, context, c, k);
  }

  /** The two searches of the context branch answer the first occurrences. */
  lemma {:induction false} ContextSearches(text: string, anchor: string, context: string, c: nat, k: nat)
    requires IsFirstFrom(text, context, 0, c) && IsFirstFrom(text, anchor, c + |context|, k)
    ensures IndexOf(text, context, 0) == Some(c) && IndexOf(text, anchor, c + |context|) == Some(k)
  {
    IndexOfFirst(text, context, 0, c);
    IndexOfFirst(text, anchor, c + |context|, k);
  }

  /** The context branch, given the answers of its two searches. */
  lemma {:induction false} ContextSteps(text: string, anchor: string, context: string, c: nat, k: nat)
    requires context != []
    requires IndexOf(text, context, 0) == Some(c) && IndexOf(text, anchor, c + |context|) == Some(k)
    ensures FindAnchorPosition(text, anchor, Some(context)) == Some(AnchorPosition(k, k + |anchor|))
  {
  }

  /** `indexOf` answers the first occurrence from `from`. */
  lemma {:induction false} IndexOfFirst(text: string, pat: string, from: nat, k: nat)
    requires IsFirstFrom(text, pat, from, k)
    ensures IndexOf(text, pat, from) == Some(k)
  {
    assert OccursFrom(text, pat, from) by {
      assert SearchStart(text, from) <= k && OccursAt(text, pat, k);
    }
    FirstFromUnique(text, pat, from, k, IndexOf(text, pat, from).value);
  }

  /** The disambiguation example: in "foo bar foo baz foo" the anchor "foo"
      after the context "baz" is the last "foo", at 16..19. */
  lemma ContextPicksLaterAnchor()
    ensures FindAnchorPosition("foo bar foo baz foo", "foo", Some("baz")) == Some(AnchorPosition(16, 19))
  {
    var text := "foo bar foo baz foo";
    FirstBazAt12(text);
    FirstFooFrom15(text);
    ContextAnswer(text, "foo", "baz", 12, 16);
  }

  lemma FirstBazAt12(text: string)
    requires text == "foo bar foo baz foo"
    ensures IsFirstFrom(text, "baz", 0, 12)
  {
    assert text[12..15] == "baz";
    forall j | 0 <= j < 12 ensures !OccursAt(text, "baz", j) {
      var w := text[j..j + 3];
      assert w[0] == text[j] && w[2] == text[j + 2];
      assert text[j] != 'b' || text[j + 2] != 'z';
      assert w[0] != "baz"[0] || w[2] != "baz"[2];
    }
  }

  lemma FirstFooFrom15(text: string)
    requires text == "foo bar foo baz foo"
    ensures IsFirstFrom(text, "foo", 15, 16)
  {
    assert text[16..19] == "foo";
    assert text[15] == ' ';
  }

  /** The locator finds `a` in `text`. */
  predicate Found(text: string, a: Annotation) {
    FindAnchorPosition(text, a.anchor, a.startContext).Some?
  }

  // ---------------------------------------------------------------------
  // Step 1: locate every annotation
  // ---------------------------------------------------------------------

  /** `p` records where the locator found the annotation at `p.index`. */
  predicate IsLocation(text: string, annotations: seq<Annotation>, p: Positioned) {
    && p.index < |annotations|
    && p.annotation == annotations[p.index]
    && FindAnchorPosition(text, p.annotation.anchor, p.annotation.startContext) == Some(AnchorPosition(p.start, p.end))
  }

  predicate IndicesIncrease(ps: seq<Positioned>) {
    forall i, j :: 0 <= i < j < |ps| ==> ps[i].index < ps[j].index
  }

  /** The located annotations, in input order; unmatched ones are skipped. */
  function Locate(text: string, annotations: seq<Annotation>): (r: seq<Positioned>)
    ensures forall p :: p in r ==> IsLocation(text, annotations, p)
    ensures forall i :: 0 <= i < |annotations| && Found(text, annotations[i]) ==> exists p :: p in r && p.index == i
    ensures IndicesIncrease(r)
    decreases |annotations|
  {
    if annotations == [] then []
    else
      var n := |annotations| - 1;
      var prior := Locate(text, annotations[..n]);
      LocatePrefix(text, annotations, prior);
      var a := annotations[n];
      match FindAnchorPosition(text, a.anchor, a.startContext)
      case None => prior
      case Some(pos) =>
        var r := prior + [Positioned(a, n, pos.start, pos.end)];
        assert r[|r| - 1].index == n;
        r
  }

  /** What was located in all but the last annotation is still located, at
      the same input position, in the whole list. */
  lemma LocatePrefix(text: string, annotations: seq<Annotation>, prior: seq<Positioned>)
    requires annotations != []
    requires var n := |annotations| - 1;
      && (forall p :: p in prior ==> IsLocation(text, annotations[..n], p))
      && (forall i :: 0 <= i < n && Found(text, annotations[..n][i]) ==> exists p :: p in prior && p.index == i)
    ensures forall p :: p in prior ==> IsLocation(text, annotations, p) && p.index < |annotations| - 1
    ensures forall i :: 0 <= i < |annotations| - 1 && Found(text, annotations[i]) ==> exists p :: p in prior && p.index == i
  {
    var n := |annotations| - 1;
    forall p | p in prior ensures IsLocation(text, annotations, p) && p.index < n {
      assert IsLocation(text, annotations[..n], p);
      assert annotations[..n][p.index] == annotations[p.index];
    }
    forall i | 0 <= i < n && Found(text, annotations[i]) ensures exists p :: p in prior && p.index == i {
      assert annotations[..n][i] == annotations[i];
    }
  }

  // ---------------------------------------------------------------------
  // Step 2: stable sort by start
  // ---------------------------------------------------------------------

  /** The comparator `(a, b) => a.start - b.start`. */
  predicate StartsBefore(a: Positioned, b: Positioned) {
    a.start < b.start
  }

  lemma StartsBeforeIsStrictWeakOrder()
    ensures StableSort.StrictWeakOrder(StartsBefore)
  {
  }

  function SortByStart(ps: seq<Positioned>): seq<Positioned> {
    StableSort.Sort(ps, StartsBefore)
  }

  /** Ascending start; among equal starts, ascending input position. */
  predicate InStartOrder(ps: seq<Positioned>) {
    forall i, j :: 0 <= i < j < |ps| ==> Precedes(ps[i], ps[j])
  }

  /** `a` comes first: a smaller start, or the same start and earlier in
      the input. */
  predicate Precedes(a: Positioned, b: Positioned) {
    a.start < b.start || (a.start == b.start && a.index < b.index)
  }

  predicate SortedByStart(ps: seq<Positioned>) {
    forall i, j :: 0 <= i < j < |ps| ==> ps[i].start <= ps[j].start
  }

  /**
   * The sort is stable: sorting located annotations (whose input positions
   * increase) orders them by start and, for equal starts, by input order.
   * It is also a permutation.
   */
  lemma {:induction false} SortByStartIsStable(ps: seq<Positioned>)
    requires IndicesIncrease(ps)
    ensures InStartOrder(SortByStart(ps))
    ensures multiset(SortByStart(ps)) == multiset(ps)
    decreases |ps|
  {
    StableSort.SortPermutes(ps, StartsBefore);
    if ps != [] {
      var x, rest := ps[0], ps[1..];
      var s := SortByStart(rest);
      SortByStartIsStable(rest);
      forall k | 0 <= k < |s| ensures x.index < s[k].index {
        assert s[k] in multiset(rest);
        var m :| 0 <= m < |rest| && rest[m] == s[k];
        assert ps[m + 1] == s[k];
      }
      InsertInStartOrder(x, s);
    }
  }

  /** Inserting a span that precedes all others in input order keeps the
      start-then-input order. */
  lemma InsertInStartOrder(x: Positioned, s: seq<Positioned>)
    requires InStartOrder(s)
    requires forall k :: 0 <= k < |s| ==> x.index < s[k].index
    ensures InStartOrder(StableSort.Insert(x, s, StartsBefore))
  {
    var p := StableSort.InsertShape(x, s, StartsBefore);
    var r := StableSort.Insert(x, s, StartsBefore);
    assert |r| == |s| + 1;
    assert forall k :: 0 <= k < p ==> r[k] == s[k];
    assert r[p] == x;
    assert forall k :: p < k < |r| ==> r[k] == s[k - 1];
    forall i, j | 0 <= i < j < |r|
      ensures Precedes(r[i], r[j])
    {
      if i == p {
        assert x.start <= s[p].start <= s[j - 1].start;
      } else if j == p {
        assert StartsBefore(s[i], x);
      }
    }
  }

  // ---------------------------------------------------------------------
  // Step 3: drop overlaps
  // ---------------------------------------------------------------------

  /** Each span starts at or after the end of the one before it, and the
      first at or after `lastEnd`. */
  predicate Chained(ps: seq<Positioned>, lastEnd: nat) {
    ps == [] || (lastEnd <= ps[0].start && Chained(ps[1..], ps[0].end))
  }

  /**
   * The overlap filter: walks the sorted list keeping a span only when it
   * starts at or after the end of the last kept one, so what is kept is a
   * chain of non-overlapping spans taken from the input.
   */
  function DropOverlaps(ps: seq<Positioned>, lastEnd: nat): seq<Positioned>
  {
    if ps == [] then []
    else
      var p := ps[0];
      if p.start >= lastEnd then [p] + DropOverlaps(ps[1..], p.end)
      else DropOverlaps(ps[1..], lastEnd)
  }

  /** The survivors are taken from the input and form a chain after `lastEnd`. */
  lemma {:induction false} DropOverlapsFacts(ps: seq<Positioned>, lastEnd: nat)
    ensures forall p :: p in DropOverlaps(ps, lastEnd) ==> p in ps
    ensures Chained(DropOverlaps(ps, lastEnd), lastEnd)
    decreases |ps|
  {
    if ps != [] {
      if ps[0].start >= lastEnd {
        DropOverlapsFacts(ps[1..], ps[0].end);
      } else {
        DropOverlapsFacts(ps[1..], lastEnd);
      }
    }
  }

  /** Nothing is dropped without cause: in a list sorted by start, a dropped
      span starts before `lastEnd` or inside a kept span that starts no later. */
  lemma {:induction false} DroppedOnlyWhenOverlapping(ps: seq<Positioned>, lastEnd: nat)
    requires SortedByStart(ps)
    ensures var r := DropOverlaps(ps, lastEnd);
      forall p :: p in ps && p !in r ==> p.start < lastEnd || exists q :: q in r && q.start <= p.start < q.end
    decreases |ps|
  {
    if ps != [] {
      var p := ps[0];
      var r := DropOverlaps(ps, lastEnd);
      assert SortedByStart(ps[1..]);
      if p.start >= lastEnd {
        DroppedOnlyWhenOverlapping(ps[1..], p.end);
        forall x | x in ps && x !in r
          ensures x.start < lastEnd || exists q :: q in r && q.start <= x.start < q.end
        {
          assert x in ps[1..];
          assert p.start <= x.start;
        }
      } else {
        DroppedOnlyWhenOverlapping(ps[1..], lastEnd);
      }
    }
  }

  /** The same in start-then-input order: the kept span that covers a
      dropped one also precedes it, so on equal starts the annotation
      earlier in the input is the one kept. */
  lemma {:induction false} DroppedOnlyWhenPreceded(ps: seq<Positioned>, lastEnd: nat)
    requires InStartOrder(ps)
    ensures var r := DropOverlaps(ps, lastEnd);
      forall p :: p in ps && p !in r ==>
        p.start < lastEnd || exists q :: q in r && Precedes(q, p) && q.start <= p.start < q.end
    decreases |ps|
  {
    if ps != [] {
      var p := ps[0];
      var r := DropOverlaps(ps, lastEnd);
      assert InStartOrder(ps[1..]);
      if p.start >= lastEnd {
        DroppedOnlyWhenPreceded(ps[1..], p.end);
        forall x | x in ps && x !in r
          ensures x.start < lastEnd || exists q :: q in r && Precedes(q, x) && q.start <= x.start < q.end
        {
          var j :| 0 <= j < |ps[1..]| && ps[1..][j] == x;
          assert Precedes(ps[0], ps[j + 1]);
        }
      } else {
        DroppedOnlyWhenPreceded(ps[1..], lastEnd);
      }
    }
  }

  predicate WellFormed(ps: seq<Positioned>) {
    forall p :: p in ps ==> p.start <= p.end
  }

  lemma {:induction false} ChainedStartsAfter(ps: seq<Positioned>, lastEnd: nat)
    requires WellFormed(ps)
    requires Chained(ps, lastEnd)
    ensures forall p :: p in ps ==> lastEnd <= p.start
    decreases |ps|
  {
    if ps != [] {
      ChainedStartsAfter(ps[1..], ps[0].end);
    }
  }

  /** A list that is already a chain loses nothing. */
  lemma {:induction false} ChainKeepsAll(ps: seq<Positioned>, lastEnd: nat)
    requires Chained(ps, lastEnd)
    ensures DropOverlaps(ps, lastEnd) == ps
    decreases |ps|
  {
    if ps != [] {
      ChainKeepsAll(ps[1..], ps[0].end);
    }
  }

  /**
   * Of two spans where the later one starts before the earlier one ends,
   * at most one survives, and the one that survives is never the later one
   * while the earlier one is kept.
   */
  lemma {:induction false} EarlierOverlapWinsFrom(ps: seq<Positioned>, lastEnd: nat, i: nat, j: nat)
    requires WellFormed(ps) && StableSort.Distinct(ps)
    requires i < j < |ps| && ps[j].start < ps[i].end
    ensures ps[i] in DropOverlaps(ps, lastEnd) ==> ps[j] !in DropOverlaps(ps, lastEnd)
    decreases |ps|
  {
    var rest := ps[1..];
    assert ps[j] == rest[j - 1] && ps[j] != ps[0];
    if ps[0].start >= lastEnd {
      var tail := DropOverlaps(rest, ps[0].end);
      if i == 0 {
        DropOverlapsFacts(rest, ps[0].end);
        ChainedStartsAfter(tail, ps[0].end);
      } else {
        assert ps[i] == rest[i - 1] && ps[i] != ps[0];
        EarlierOverlapWinsFrom(rest, ps[0].end, i - 1, j - 1);
      }
    } else if i > 0 {
      assert ps[i] == rest[i - 1];
      EarlierOverlapWinsFrom(rest, lastEnd, i - 1, j - 1);
    } else {
      DropOverlapsFacts(rest, lastEnd);
      assert ps[0] !in rest;
    }
  }

  // ---------------------------------------------------------------------
  // Step 4: emit segments
  // ---------------------------------------------------------------------

  /** The contents of `segs` concatenated in order: what the page shows. */
  function Joined(segs: seq<Segment>): string {
    if segs == [] then [] else segs[0].content + Joined(segs[1..])
  }

  lemma {:induction false} JoinedAppend(a: seq<Segment>, b: seq<Segment>)
    ensures Joined(a + b) == Joined(a) + Joined(b)
    decreases |a|
  {
    if a == [] {
      assert a + b == b;
    } else {
      assert (a + b)[1..] == a[1..] + b;
      JoinedAppend(a[1..], b);
    }
  }

  /** The highlighted spans of `segs`, each with its offset in the text the
      segments spell, counting from `offset`. */
  function Marks(segs: seq<Segment>, offset: nat): seq<Mark>
    decreases |segs|
  {
    if segs == [] then []
    else
      var next := offset + |segs[0].content|;
      (if segs[0].Highlight? then [Mark(segs[0].annotation, offset, next)] else [])
      + Marks(segs[1..], next)
  }

  function ToMarks(ps: seq<Positioned>): (r: seq<Mark>)
    ensures |r| == |ps|
    ensures forall k :: 0 <= k < |ps| ==> r[k] == Mark(ps[k].annotation, ps[k].start, ps[k].end)
  {
    if ps == [] then [] else [Mark(ps[0].annotation, ps[0].start, ps[0].end)] + ToMarks(ps[1..])
  }

  /**
   * The cursor walk: a text segment for each non-empty gap, a highlight for
   * each kept span, and a text segment for any remainder. The segments spell
   * `text[cursor..]`, no text segment is empty, and the highlights sit
   * exactly at the kept spans.
   */
  function Emit(text: string, kept: seq<Positioned>, cursor: nat): (r: seq<Segment>)
    requires cursor <= |text|
    requires Chained(kept, cursor)
    requires forall p :: p in kept ==> p.start <= p.end <= |text|
    ensures Joined(r) == text[cursor..]
    ensures forall s :: s in r && s.Text? ==> s.content != []
    ensures Marks(r, cursor) == ToMarks(kept)
    ensures forall s :: s in r && s.Highlight? ==>
      exists p :: p in kept && s.content == text[p.start..p.end] && s.annotation == p.annotation
    decreases |kept|
  {
    if kept == [] then
      if cursor < |text| then
        assert Joined([Text(text[cursor..])]) == text[cursor..];
        [Text(text[cursor..])]
      else []
    else
      var p := kept[0];
      var rest := Emit(text, kept[1..], p.end);
      EmitStep(text, cursor, p, rest);
      Step(text, cursor, p, rest)
  }

  /** One iteration of the walk: the gap before `p`, if any, then `p`. */
  function Step(text: string, cursor: nat, p: Positioned, rest: seq<Segment>): seq<Segment>
    requires cursor <= p.start <= p.end <= |text|
  {
    (if p.start > cursor then [Text(text[cursor..p.start])] else [])
    + [Highlight(text[p.start..p.end], p.annotation)]
    + rest
  }

  lemma EmitStep(text: string, cursor: nat, p: Positioned, rest: seq<Segment>)
    requires cursor <= p.start <= p.end <= |text|
    requires Joined(rest) == text[p.end..]
    requires forall s :: s in rest && s.Text? ==> s.content != []
    ensures Joined(Step(text, cursor, p, rest)) == text[cursor..]
    ensures forall s :: s in Step(text, cursor, p, rest) && s.Text? ==> s.content != []
    ensures forall s :: s in Step(text, cursor, p, rest) && s.Highlight? ==>
      s == Highlight(text[p.start..p.end], p.annotation) || s in rest
    ensures Marks(Step(text, cursor, p, rest), cursor) == [Mark(p.annotation, p.start, p.end)] + Marks(rest, p.end)
  {
    var gap: seq<Segment> := if p.start > cursor then [Text(text[cursor..p.start])] else [];
    var head := gap + [Highlight(text[p.start..p.end], p.annotation)];
    StepHead(text, cursor, p, gap, head);
    StepJoined(text, cursor, p, rest, head);
    StepMembers(text, cursor, p, rest, gap);
    StepMarks(text, cursor, p, rest, gap, head);
  }

  /** The segments a step puts before the rest spell `text[cursor..p.end]`. */
  lemma StepHead(text: string, cursor: nat, p: Positioned, gap: seq<Segment>, head: seq<Segment>)
    requires cursor <= p.start <= p.end <= |text|
    requires gap == if p.start > cursor then [Text(text[cursor..p.start])] else []
    requires head == gap + [Highlight(text[p.start..p.end], p.annotation)]
    ensures Joined(head) == text[cursor..p.end]
  {
    JoinedAppend(gap, [Highlight(text[p.start..p.end], p.annotation)]);
    assert text[cursor..p.end] == text[cursor..p.start] + text[p.start..p.end];
  }

  lemma StepJoined(text: string, cursor: nat, p: Positioned, rest: seq<Segment>, head: seq<Segment>)
    requires cursor <= p.start <= p.end <= |text|
    requires Joined(rest) == text[p.end..]
    requires head == Step(text, cursor, p, [])
    requires Joined(head) == text[cursor..p.end]
    ensures Joined(Step(text, cursor, p, rest)) == text[cursor..]
  {
    assert Step(text, cursor, p, rest) == head + rest;
    JoinedAppend(head, rest);
    assert text[cursor..] == text[cursor..p.end] + text[p.end..];
  }

  lemma StepMembers(text: string, cursor: nat, p: Positioned, rest: seq<Segment>, gap: seq<Segment>)
    requires cursor <= p.start <= p.end <= |text|
    requires forall s :: s in rest && s.Text? ==> s.content != []
    requires gap == if p.start > cursor then [Text(text[cursor..p.start])] else []
    ensures forall s :: s in Step(text, cursor, p, rest) && s.Text? ==> s.content != []
    ensures forall s :: s in Step(text, cursor, p, rest) && s.Highlight? ==>
      s == Highlight(text[p.start..p.end], p.annotation) || s in rest
  {
    assert Step(text, cursor, p, rest) == gap + [Highlight(text[p.start..p.end], p.annotation)] + rest;
  }


  lemma StepMarks(text: string, cursor: nat, p: Positioned, rest: seq<Segment>, gap: seq<Segment>, head: seq<Segment>)
    requires cursor <= p.start <= p.end <= |text|
    requires gap == if p.start > cursor then [Text(text[cursor..p.start])] else []
    requires head == gap + [Highlight(text[p.start..p.end], p.annotation)]
    requires Joined(head) == text[cursor..p.end]
    ensures Marks(Step(text, cursor, p, rest), cursor) == [Mark(p.annotation, p.start, p.end)] + Marks(rest, p.end)
  {
    assert Step(text, cursor, p, rest) == head + rest;
    MarksAppend(head, rest, cursor);
    HeadMarks(text, cursor, p, gap, head);
  }

  /** The segments before the rest carry exactly the new span's mark. */
  lemma HeadMarks(text: string, cursor: nat, p: Positioned, gap: seq<Segment>, head: seq<Segment>)
    requires cursor <= p.start <= p.end <= |text|
    requires gap == if p.start > cursor then [Text(text[cursor..p.start])] else []
    requires head == gap + [Highlight(text[p.start..p.end], p.annotation)]
    ensures Marks(head, cursor) == [Mark(p.annotation, p.start, p.end)]
  {
    var h := Highlight(text[p.start..p.end], p.annotation);
    MarksAppend(gap, [h], cursor);
    if gap != [] {
      assert Joined(gap) == text[cursor..p.start];
      assert Marks(gap, cursor) == [];
    }
    assert Marks([h], p.start) == [Mark(p.annotation, p.start, p.end)];
  }


  lemma {:induction false} MarksAppend(a: seq<Segment>, b: seq<Segment>, offset: nat)
    ensures Marks(a + b, offset) == Marks(a, offset) + Marks(b, offset + |Joined(a)|)
    decreases |a|
  {
    if a == [] {
      assert a + b == b;
    } else {
      assert (a + b)[1..] == a[1..] + b;
      MarksAppend(a[1..], b, offset + |a[0].content|);
    }
  }

  // ---------------------------------------------------------------------
  // The builder
  // ---------------------------------------------------------------------

  /** The spans that become highlights: located, sorted, overlaps dropped. */
  function Kept(text: string, annotations: seq<Annotation>): seq<Positioned> {
    DropOverlaps(SortByStart(Locate(text, annotations)), 0)
  }

  /** Each mark lies inside the text, follows the previous one, and is the
      span the locator reports for its annotation. */
  predicate MarksFaithful(text: string, annotations: seq<Annotation>, ms: seq<Mark>) {
    && (forall k :: 0 <= k < |ms| ==> MarkFaithful(text, annotations, ms[k]))
    && (forall k :: 0 <= k < |ms| - 1 ==> ms[k].end <= ms[k + 1].start)
  }

  /** One highlight: an input annotation's anchor, at the position the
      locator reports for it. */
  predicate MarkFaithful(text: string, annotations: seq<Annotation>, m: Mark) {
    && m.annotation in annotations
    && m.start <= m.end <= |text|
    && text[m.start..m.end] == m.annotation.anchor
    && FindAnchorPosition(text, m.annotation.anchor, m.annotation.startContext)
         == Some(AnchorPosition(m.start, m.end))
  }

  /**
   * `buildAnnotatedSegments`: the segments spell the text exactly; every
   * highlight is its annotation's anchor at the position the locator
   * reports, in ascending non-overlapping order; a highlight appears exactly
   * when some annotation is located, and otherwise the result is the whole
   * text as one plain segment.
   */
  function BuildAnnotatedSegments(text: string, annotations: seq<Annotation>): (r: seq<Segment>)
    ensures Joined(r) == text
    ensures r != []
    ensures (forall i :: 0 <= i < |annotations| ==> !Found(text, annotations[i])) ==> r == [Text(text)]
    ensures (exists i :: 0 <= i < |annotations| && Found(text, annotations[i])) <==> (exists s :: s in r && s.Highlight?)
    ensures forall s :: s in r && s.Highlight? ==> s.content == s.annotation.anchor && s.annotation in annotations
    ensures MarksFaithful(text, annotations, Marks(r, 0))
    ensures Marks(r, 0) == ToMarks(Kept(text, annotations))
    ensures Kept(text, annotations) != [] ==> forall s :: s in r && s.Text? ==> s.content != []
  {
    var kept := Kept(text, annotations);
    KeptFacts(text, annotations);
    KeptIffFound(text, annotations);
    AssembleFacts(text, annotations, kept);
    Assemble(text, kept)
  }

  /** Step 4 and its empty case: the whole text when nothing is kept. */
  function Assemble(text: string, kept: seq<Positioned>): seq<Segment>
    requires Chained(kept, 0)
    requires forall p :: p in kept ==> p.start <= p.end <= |text|
  {
    if kept == [] then [Text(text)] else Emit(text, kept, 0)
  }

  lemma AssembleFacts(text: string, annotations: seq<Annotation>, kept: seq<Positioned>)
    requires Chained(kept, 0)
    requires forall p :: p in kept ==> p.start <= p.end <= |text| && IsLocation(text, annotations, p)
    ensures var r := Assemble(text, kept);
      && Joined(r) == text
      && r != []
      && (kept == [] ==> r == [Text(text)])
      && (kept != [] <==> exists s :: s in r && s.Highlight?)
      && (forall s :: s in r && s.Highlight? ==> s.content == s.annotation.anchor && s.annotation in annotations)
      && MarksFaithful(text, annotations, Marks(r, 0))
      && Marks(r, 0) == ToMarks(kept)
      && (kept != [] ==> forall s :: s in r && s.Text? ==> s.content != [])
  {
    if kept == [] {
      var r := Assemble(text, kept);
      assert Joined(r) == text;
      assert Marks(r, 0) == [];
    } else {
      EmittedFacts(text, annotations, kept);
    }
  }

  lemma EmittedFacts(text: string, annotations: seq<Annotation>, kept: seq<Positioned>)
    requires kept != [] && Chained(kept, 0)
    requires forall p :: p in kept ==> p.start <= p.end <= |text| && IsLocation(text, annotations, p)
    ensures var r := Emit(text, kept, 0);
      && Joined(r) == text
      && (exists s :: s in r && s.Highlight?)
      && (forall s :: s in r && s.Highlight? ==> s.content == s.annotation.anchor && s.annotation in annotations)
      && MarksFaithful(text, annotations, Marks(r, 0))
  {
    var r := Emit(text, kept, 0);
    assert text[0..] == text;
    HighlightOfMark(r, 0);
    assert Marks(r, 0) != [] by { assert |ToMarks(kept)| == |kept|; }
    EmittedHighlights(text, annotations, kept);
    MarksOfLocations(text, annotations, kept);
  }

  lemma EmittedHighlights(text: string, annotations: seq<Annotation>, kept: seq<Positioned>)
    requires Chained(kept, 0)
    requires forall p :: p in kept ==> p.start <= p.end <= |text| && IsLocation(text, annotations, p)
    ensures forall s :: s in Emit(text, kept, 0) && s.Highlight? ==>
      s.content == s.annotation.anchor && s.annotation in annotations
  {
    var r := Emit(text, kept, 0);
    forall s | s in r && s.Highlight? ensures s.content == s.annotation.anchor && s.annotation in annotations {
      var p :| p in kept && s.content == text[p.start..p.end] && s.annotation == p.annotation;
      assert IsLocation(text, annotations, p);
    }
  }

  lemma MarksOfLocations(text: string, annotations: seq<Annotation>, kept: seq<Positioned>)
    requires Chained(kept, 0)
    requires forall p :: p in kept ==> p.start <= p.end <= |text| && IsLocation(text, annotations, p)
    ensures MarksFaithful(text, annotations, ToMarks(kept))
  {
    var ms := ToMarks(kept);
    ChainedConsecutive(kept, 0);
    forall k | 0 <= k < |ms| ensures MarkFaithful(text, annotations, ms[k]) {
      assert kept[k] in kept;
      LocationIsFaithful(text, annotations, kept[k]);
    }
  }

  lemma LocationIsFaithful(text: string, annotations: seq<Annotation>, p: Positioned)
    requires p.start <= p.end <= |text| && IsLocation(text, annotations, p)
    ensures MarkFaithful(text, annotations, Mark(p.annotation, p.start, p.end))
  {
    assert annotations[p.index] in annotations;
  }

  /** Consecutive kept spans do not overlap. */
  lemma {:induction false} ChainedConsecutive(ps: seq<Positioned>, lastEnd: nat)
    requires Chained(ps, lastEnd)
    ensures forall k :: 0 <= k < |ps| - 1 ==> ps[k].end <= ps[k + 1].start
    decreases |ps|
  {
    if ps != [] {
      ChainedConsecutive(ps[1..], ps[0].end);
      forall k | 0 <= k < |ps| - 1 ensures ps[k].end <= ps[k + 1].start {
        if k > 0 {
          assert ps[k] == ps[1..][k - 1] && ps[k + 1] == ps[1..][k];
        }
      }
    }
  }

  /** A list with a mark has a highlight segment. */
  lemma {:induction false} HighlightOfMark(segs: seq<Segment>, offset: nat)
    ensures Marks(segs, offset) != [] ==> exists s :: s in segs && s.Highlight?
    decreases |segs|
  {
    if segs != [] && !segs[0].Highlight? {
      HighlightOfMark(segs[1..], offset + |segs[0].content|);
      if Marks(segs, offset) != [] {
        var s :| s in segs[1..] && s.Highlight?;
        assert s in segs;
      }
    }
  }

  /** The kept spans are locations of the input annotations, inside the
      text, and form a chain. */
  lemma KeptFacts(text: string, annotations: seq<Annotation>)
    ensures forall p :: p in Kept(text, annotations) ==>
      IsLocation(text, annotations, p) && p.start <= p.end <= |text|
    ensures Chained(Kept(text, annotations), 0)
  {
    var located := Locate(text, annotations);
    var sorted := SortByStart(located);
    StableSort.SortPermutes(located, StartsBefore);
    DropOverlapsFacts(sorted, 0);
    forall p | p in Kept(text, annotations)
      ensures IsLocation(text, annotations, p) && p.start <= p.end <= |text|
    {
      assert p in sorted;
      assert p in multiset(sorted);
      assert p in located;
    }
  }

  /** Every kept span is one of the located ones. */
  lemma KeptIsLocated(text: string, annotations: seq<Annotation>, p: Positioned)
    ensures p in Kept(text, annotations) ==> p in Locate(text, annotations)
  {
    var located := Locate(text, annotations);
    var sorted := SortByStart(located);
    if p in Kept(text, annotations) {
      StableSort.SortPermutes(located, StartsBefore);
      DropOverlapsFacts(sorted, 0);
      assert p in multiset(sorted);
    }
  }

  /** Something is kept exactly when some annotation is located: the first
      span of the sorted list always survives. */
  lemma KeptIffFound(text: string, annotations: seq<Annotation>)
    ensures (exists i :: 0 <= i < |annotations| && Found(text, annotations[i])) <==> Kept(text, annotations) != []
  {
    var located := Locate(text, annotations);
    var sorted := SortByStart(located);
    StableSort.SortPermutes(located, StartsBefore);
    if exists i :: 0 <= i < |annotations| && Found(text, annotations[i]) {
      var i :| 0 <= i < |annotations| && Found(text, annotations[i]);
      var p :| p in located && p.index == i;
      assert p in multiset(sorted);
      assert sorted != [];
    }
    if Kept(text, annotations) != [] {
      var p := Kept(text, annotations)[0];
      assert p in sorted;
      assert p in multiset(located);
      assert IsLocation(text, annotations, p);
      assert Found(text, annotations[p.index]);
    }
  }

  // ---------------------------------------------------------------------
  // Overlap resolution, stated on the builder's input
  // ---------------------------------------------------------------------

  /** Located spans in the order the builder walks them: by start, ties in
      input order, a permutation of the located spans. */
  lemma LocatedInStartOrder(text: string, annotations: seq<Annotation>)
    ensures var sorted := SortByStart(Locate(text, annotations));
      && InStartOrder(sorted)
      && multiset(sorted) == multiset(Locate(text, annotations))
  {
    SortByStartIsStable(Locate(text, annotations));
  }

  /** Strict start-then-input order leaves no repeated entry. */
  lemma InStartOrderDistinct(ps: seq<Positioned>)
    requires InStartOrder(ps)
    ensures StableSort.Distinct(ps)
  {
    forall i, j | 0 <= i < j < |ps| ensures ps[i] != ps[j] {
    }
  }

  /**
   * The earlier of two overlapping annotations wins: when two located
   * annotations overlap and `p` comes first (smaller start, or the same
   * start and earlier in the input), `q` is not highlighted while `p` is.
   */
  lemma EarlierOverlapWins(text: string, annotations: seq<Annotation>, p: Positioned, q: Positioned)
    ensures p in Locate(text, annotations) && q in Locate(text, annotations) && Precedes(p, q) && q.start < p.end ==>
      (p in Kept(text, annotations) ==> q !in Kept(text, annotations))
  {
    var located := Locate(text, annotations);
    if p in located && q in located && Precedes(p, q) && q.start < p.end {
      var sorted := SortByStart(located);
      StableSort.SortPermutes(located, StartsBefore);
      LocatedInStartOrder(text, annotations);
      assert p in multiset(sorted) && q in multiset(sorted);
      var i :| 0 <= i < |sorted| && sorted[i] == p;
      var j :| 0 <= j < |sorted| && sorted[j] == q;
      assert i != j;
      InStartOrderDistinct(sorted);
      SortedWellFormed(text, annotations);
      EarlierOverlapWinsFrom(sorted, 0, i, j);
    }
  }


  /** Every located span, once sorted, still ends no earlier than it starts. */
  lemma SortedWellFormed(text: string, annotations: seq<Annotation>)
    ensures WellFormed(SortByStart(Locate(text, annotations)))
  {
    var located := Locate(text, annotations);
    var sorted := SortByStart(located);
    StableSort.SortPermutes(located, StartsBefore);
    forall x | x in sorted ensures x.start <= x.end {
      assert x in multiset(located);
      assert IsLocation(text, annotations, x);
    }
  }

  /** Nothing located is dropped without cause: a located annotation that is
      not highlighted starts inside a highlighted one that precedes it (starts
      earlier, or at the same place and earlier in the input). */
  lemma DroppedOnlyByOverlap(text: string, annotations: seq<Annotation>, p: Positioned)
    ensures p in Locate(text, annotations) && p !in Kept(text, annotations) ==>
      exists q :: q in Kept(text, annotations) && Precedes(q, p) && q.start <= p.start < q.end
  {
    if p in Locate(text, annotations) {
      var sorted := SortByStart(Locate(text, annotations));
      LocatedInStartOrder(text, annotations);
      assert p in multiset(sorted);
      DroppedOnlyWhenPreceded(sorted, 0);
    }
  }

  /** On equal starts the annotation declared first wins: a later-declared
      annotation located at the same start as a non-empty earlier one is
      never highlighted, whether or not the earlier one is. */
  lemma TieGoesToFirstDeclared(text: string, annotations: seq<Annotation>, p: Positioned, q: Positioned)
    ensures p in Locate(text, annotations) && q in Locate(text, annotations)
            && p.start == q.start && p.index < q.index && p.start < p.end ==>
      q !in Kept(text, annotations)
  {
    var located := Locate(text, annotations);
    if p in located && q in located && p.start == q.start && p.index < q.index && p.start < p.end {
      if p in Kept(text, annotations) {
        EarlierOverlapWins(text, annotations, p, q);
      } else {
        DroppedOnlyByOverlap(text, annotations, p);
        var w :| w in Kept(text, annotations) && Precedes(w, p) && w.start <= p.start < w.end;
        KeptIsLocated(text, annotations, w);
        EarlierOverlapWins(text, annotations, w, q);
      }
    }
  }

  // ---------------------------------------------------------------------
  // Counting highlights
  // ---------------------------------------------------------------------

  predicate IsHighlight(s: Segment) {
    s.Highlight?
  }

  /** The highlighted segments, in order. */
  function Highlights(segs: seq<Segment>): seq<Segment> {
    StableSort.Filter(segs, IsHighlight)
  }

  /** There is one mark per highlighted segment, carrying its annotation. */
  lemma {:induction false} MarksOfHighlights(segs: seq<Segment>, offset: nat)
    ensures |Marks(segs, offset)| == |Highlights(segs)|
    ensures forall k :: 0 <= k < |Highlights(segs)| ==>
      Highlights(segs)[k].Highlight? && Marks(segs, offset)[k].annotation == Highlights(segs)[k].annotation
    decreases |segs|
  {
    if segs != [] {
      var next := offset + |segs[0].content|;
      MarksOfHighlights(segs[1..], next);
      if segs[0].Highlight? {
        assert Highlights(segs) == [segs[0]] + Highlights(segs[1..]);
        assert Marks(segs, offset) == [Mark(segs[0].annotation, offset, next)] + Marks(segs[1..], next);
      } else {
        assert Highlights(segs) == Highlights(segs[1..]);
        assert Marks(segs, offset) == Marks(segs[1..], next);
      }
    }
  }

  /** With a single annotation, the builder highlights it exactly once when
      its anchor is found, at the located span, and never otherwise. */
  lemma SingleAnnotationOnce(text: string, a: Annotation)
    ensures var r := BuildAnnotatedSegments(text, [a]);
      && (Found(text, a) ==>
            var pos := FindAnchorPosition(text, a.anchor, a.startContext).value;
            && |Highlights(r)| == 1
            && Highlights(r)[0] == Highlight(a.anchor, a)
            && Marks(r, 0) == [Mark(a, pos.start, pos.end)])
      && (!Found(text, a) ==> Highlights(r) == [])
  {
    var r := BuildAnnotatedSegments(text, [a]);
    if Found(text, a) {
      var pos := FindAnchorPosition(text, a.anchor, a.startContext).value;
      SingleKept(text, a);
      assert Marks(r, 0) == [Mark(a, pos.start, pos.end)];
      SoleHighlight(text, [a], r);
    } else {
      assert forall k :: 0 <= k < |[a]| ==> !Found(text, [a][k]);
      PlainHasNoHighlight(text);
    }
  }

  /** A single plain segment holds no highlight. */
  lemma PlainHasNoHighlight(text: string)
    ensures Highlights([Text(text)]) == []
  {
    var segs := [Text(text)];
    assert segs[1..] == [];
    assert !IsHighlight(segs[0]);
    assert StableSort.Filter(segs[1..], IsHighlight) == [];
  }

  /** A single located annotation is kept, at the located span. */
  lemma SingleKept(text: string, a: Annotation)
    requires Found(text, a)
    ensures var pos := FindAnchorPosition(text, a.anchor, a.startContext).value;
      Kept(text, [a]) == [Positioned(a, 0, pos.start, pos.end)]
  {
    LocateSingle(text, a);
    var pos := FindAnchorPosition(text, a.anchor, a.startContext).value;
    KeepSingleton(Positioned(a, 0, pos.start, pos.end));
  }

  /** One found annotation is located at index 0. */
  lemma LocateSingle(text: string, a: Annotation)
    requires Found(text, a)
    ensures var pos := FindAnchorPosition(text, a.anchor, a.startContext).value;
      Locate(text, [a]) == [Positioned(a, 0, pos.start, pos.end)]
  {
    assert [a][..0] == [];
  }

  /** Sorting and the overlap filter keep a lone span. */
  lemma KeepSingleton(p: Positioned)
    ensures DropOverlaps(SortByStart([p]), 0) == [p]
  {
    assert [p][1..] == [];
    assert StableSort.Sort([p], StartsBefore) == [p];
  }

  /** A list of segments with one mark has one highlight, the mark's
      annotation over its anchor. */
  lemma SoleHighlight(text: string, annotations: seq<Annotation>, r: seq<Segment>)
    requires r == BuildAnnotatedSegments(text, annotations)
    requires |Marks(r, 0)| == 1
    ensures |Highlights(r)| == 1
    ensures Highlights(r)[0] == Highlight(Marks(r, 0)[0].annotation.anchor, Marks(r, 0)[0].annotation)
  {
    MarksOfHighlights(r, 0);
    var h := Highlights(r)[0];
    StableSort.FilterMembers(r, IsHighlight);
    assert h in r && h.Highlight?;
  }

  /** An anchor that does not occur leaves the paragraph as one plain
      segment: "nonexistent" in "Hello world". */
  lemma UnmatchedAnchorIsPlainText(a: Annotation)
    requires a.anchor == "nonexistent" && a.startContext == None
    ensures BuildAnnotatedSegments("Hello world", [a]) == [Text("Hello world")]
  {
    var text := "Hello world";
    NonexistentAbsent(text);
    assert !Found(text, [a][0]);
  }

  lemma NonexistentAbsent(text: string)
    requires text == "Hello world"
    ensures !OccursFrom(text, "nonexistent", 0)
  {
    forall j | 0 <= j ensures !OccursAt(text, "nonexistent", j) {
      if j + 11 <= |text| {
        assert text[j] != 'n';
      }
    }
  }
}
