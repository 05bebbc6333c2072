/**
 * Slugs for fetched articles: a title becomes a URL path segment of
 * lower-case letters, digits and single hyphens.
 */
module ArticleFetcher {
  import opened JsString
  import StableSort

  /** The class `[a-z0-9]`. */
  predicate IsSlugChar(c: char) {
    ('a' <= c <= 'z') || ('0' <= c <= '9')
  }

  predicate NotSlugChar(c: char) {
    !IsSlugChar(c)
  }

  predicate IsHyphen(c: char) {
    c == '-'
  }

  /** The class `['’]`: a straight apostrophe or a right single quote. */
  predicate IsApostrophe(c: char) {
    c == '\'' || c == '\U{2019}'
  }

  predicate NotApostrophe(c: char) {
    !IsApostrophe(c)
  }

  /** What a slug looks like: only `[a-z0-9-]`, no hyphen at either end and
      never two hyphens in a row. */
  predicate IsSlug(s: string) {
    && (forall k :: 0 <= k < |s| ==> IsSlugChar(s[k]) || s[k] == '-')
    && (s == [] || (s[0] != '-' && s[|s| - 1] != '-'))
    && (forall k :: 0 <= k < |s| - 1 ==> !(s[k] == '-' && s[k + 1] == '-'))
  }

  predicate AllSlugChars(w: string) {
    forall k :: 0 <= k < |w| ==> IsSlugChar(w[k])
  }

  // ---------------------------------------------------------------------
  // The three replacements
  // ---------------------------------------------------------------------

  /** `.replace(/['’]/g, "")`. */
  function StripApostrophes(s: string): string
  {
    if s == [] then []
    else if IsApostrophe(s[0]) then StripApostrophes(s[1..])
    else [s[0]] + StripApostrophes(s[1..])
  }

  /** Deleting the apostrophes in place keeps every other character, in
      order and as often as it occurs: the result is the subsequence of
      non-apostrophes. */
  lemma {:induction false} StripApostrophesIsFilter(s: string)
    ensures StripApostrophes(s) == StableSort.Filter(s, NotApostrophe)
    decreases |s|
  {
    if s != [] {
      StripApostrophesIsFilter(s[1..]);
    }
  }

  /** No apostrophe remains, every other character is kept, and nothing
      else is added. */
  lemma {:induction false} StripApostrophesChars(s: string)
    ensures var r := StripApostrophes(s);
      && (forall k :: 0 <= k < |r| ==> !IsApostrophe(r[k]) && r[k] in s)
      && (forall k :: 0 <= k < |s| && !IsApostrophe(s[k]) ==> s[k] in r)
    decreases |s|
  {
    if s != [] {
      StripApostrophesChars(s[1..]);
      var r, t := StripApostrophes(s), StripApostrophes(s[1..]);
      forall k | 0 <= k < |s| && !IsApostrophe(s[k]) ensures s[k] in r {
        if k > 0 {
          assert s[k] == s[1..][k - 1];
        }
      }
      forall k | 0 <= k < |r| ensures r[k] in s {
        if !IsApostrophe(s[0]) && k > 0 {
          assert r[k] == t[k - 1];
        }
        assert forall c :: c in s[1..] ==> c in s;
      }
    }
  }

  /** `.replace(/[^a-z0-9]+/g, "-")`: every maximal run of other characters
      becomes one hyphen; runs of slug characters are copied. */
  function Hyphenate(s: string): string
    decreases |s|
  {
    if s == [] then []
    else if IsSlugChar(s[0]) then
      var j := SkipWhile(s, 0, IsSlugChar);
      s[..j] + Hyphenate(s[j..])
    else
      var j := SkipWhile(s, 0, NotSlugChar);
      "-" + Hyphenate(s[j..])
  }

  /** `.replace(/^-+|-+$/g, "")`: hyphens at either end are removed. */
  function TrimHyphens(s: string): string {
    DropTrailingHyphens(s[SkipWhile(s, 0, IsHyphen)..])
  }

  function DropTrailingHyphens(s: string): (r: string)
    ensures |r| <= |s| && r == s[..|r|]
    ensures r == [] || r[|r| - 1] != '-'
  {
    if s != [] && s[|s| - 1] == '-' then DropTrailingHyphens(s[..|s| - 1]) else s
  }

  /** Lower-casing followed by the apostrophe deletion. */
  function Prepare(s: string): string {
    StripApostrophes(ToLower(s))
  }

  /** The last two replacements. */
  function Slugify(s: string): string {
    TrimHyphens(Hyphenate(Prepare(s)))
  }

  /**
   * `generateSlug`: "untitled" for a title that is empty or only white
   * space; otherwise the words of the lower-cased, apostrophe-free title
   * (its maximal runs of `[a-z0-9]`) joined by single hyphens.
   * `GenerateSlugIsSlug` states the shape of the result.
   */
  function GenerateSlug(title: string): (r: string)
    ensures AllSpace(title) ==> r == "untitled"
    ensures !AllSpace(title) ==> r == JoinHyphen(Words(Prepare(title)))
  {
    if Trim(title) == [] then "untitled"
    else
      SlugifyIsJoin(title);
      Slugify(title)
  }

  /** Every slug, "untitled" included, is made of `[a-z0-9-]` with no hyphen
      at either end and no two hyphens in a row. */
  lemma GenerateSlugIsSlug(title: string)
    ensures IsSlug(GenerateSlug(title))
  {
    if !AllSpace(title) {
      WordsAreSlugWords(Prepare(title));
      JoinIsSlug(Words(Prepare(title)));
    } else {
      var r := GenerateSlug(title);
      assert r == "untitled";
      forall k | 0 <= k < |r| ensures IsSlugChar(r[k]) {
      }
    }
  }

  // ---------------------------------------------------------------------
  // Reference definition: the words joined by hyphens
  // ---------------------------------------------------------------------

  /** The maximal runs of `[a-z0-9]` in `s`, in order. */
  function Words(s: string): seq<string>
    decreases |s|
  {
    if s == [] then []
    else if IsSlugChar(s[0]) then
      var j := SkipWhile(s, 0, IsSlugChar);
      [s[..j]] + Words(s[j..])
    else
      Words(s[SkipWhile(s, 0, NotSlugChar)..])
  }

  /** Every word is a non-empty run of `[a-z0-9]`. */
  lemma {:induction false} WordsAreSlugWords(s: string)
    ensures forall i :: 0 <= i < |Words(s)| ==> Words(s)[i] != [] && AllSlugChars(Words(s)[i])
    decreases |s|
  {
    if s != [] {
      if IsSlugChar(s[0]) {
        var j := SkipWhile(s, 0, IsSlugChar);
        WordsAreSlugWords(s[j..]);
        var ws := Words(s);
        assert ws == [s[..j]] + Words(s[j..]);
        forall i | 0 < i < |ws| ensures ws[i] == Words(s[j..])[i - 1] { }
      } else {
        WordsAreSlugWords(s[SkipWhile(s, 0, NotSlugChar)..]);
      }
    }
  }

  /** The words separated by single hyphens. */
  function JoinHyphen(ws: seq<string>): string
    decreases |ws|
  {
    if ws == [] then []
    else if |ws| == 1 then ws[0]
    else ws[0] + "-" + JoinHyphen(ws[1..])
  }

  /** The slug of a non-blank title is its words joined by single hyphens. */
  lemma SlugifyIsJoin(title: string)
    ensures Slugify(title) == JoinHyphen(Words(Prepare(title)))
  {
    var s := Prepare(title);
    HyphenateShape(s);
    WordsAreSlugWords(s);
    JoinIsSlug(Words(s));
    TrimAroundJoin(Lead(s), JoinHyphen(Words(s)), Trail(s));
  }

  function Lead(s: string): string {
    if s != [] && !IsSlugChar(s[0]) then "-" else ""
  }

  function Trail(s: string): string {
    if Words(s) != [] && !IsSlugChar(s[|s| - 1]) then "-" else ""
  }

  /** Before the ends are trimmed: a hyphen for a leading run of other
      characters, the joined words, and a hyphen for a trailing run (which
      coincides with the leading one when there are no words). */
  lemma {:induction false} HyphenateShape(s: string)
    ensures Hyphenate(s) == Lead(s) + JoinHyphen(Words(s)) + Trail(s)
    decreases |s|
  {
    if s != [] {
      if IsSlugChar(s[0]) {
        var j := SkipWhile(s, 0, IsSlugChar);
        HyphenateShape(s[j..]);
        WordThenRest(s, j);
      } else {
        var j := SkipWhile(s, 0, NotSlugChar);
        HyphenateShape(s[j..]);
        GapThenRest(s, j);
      }
    }
  }

  /** The shape after a leading word, given the shape of the rest. */
  lemma WordThenRest(s: string, j: nat)
    requires s != [] && IsSlugChar(s[0]) && j == SkipWhile(s, 0, IsSlugChar)
    requires Hyphenate(s[j..]) == Lead(s[j..]) + JoinHyphen(Words(s[j..])) + Trail(s[j..])
    ensures Hyphenate(s) == Lead(s) + JoinHyphen(Words(s)) + Trail(s)
  {
    HyphenateAtWord(s, j);
    if s[j..] == [] {
      WordOnly(s, j);
    } else if Words(s[j..]) == [] {
      WordThenGapOnly(s, j);
    } else {
      WordThenWords(s, j);
    }
  }

  /** The whole string is one word. */
  lemma WordOnly(s: string, j: nat)
    requires s != [] && IsSlugChar(s[0]) && j == SkipWhile(s, 0, IsSlugChar)
    requires s[j..] == []
    ensures Hyphenate(s) == Lead(s) + JoinHyphen(Words(s)) + Trail(s)
  {
    HyphenateAtWord(s, j);
    assert s[..j] == s;
    assert Hyphenate(s) == s;
    assert Words(s) == [s];
    assert Trail(s) == "";
  }

  /** A word followed only by other characters. */
  lemma WordThenGapOnly(s: string, j: nat)
    requires s != [] && IsSlugChar(s[0]) && j == SkipWhile(s, 0, IsSlugChar)
    requires s[j..] != [] && Words(s[j..]) == []
    requires Hyphenate(s[j..]) == Lead(s[j..]) + JoinHyphen(Words(s[j..])) + Trail(s[j..])
    ensures Hyphenate(s) == Lead(s) + JoinHyphen(Words(s)) + Trail(s)
  {
    HyphenateAtWord(s, j);
    TrailAfterLastWord(s, j);
    SuffixHyphen(Hyphenate(s), s[..j], Hyphenate(s[j..]), Lead(s), JoinHyphen(Words(s)), Trail(s));
  }

  /** After the last word only other characters follow, so the replacement
      ends in one hyphen and the words join to that word alone. */
  lemma TrailAfterLastWord(s: string, j: nat)
    requires s != [] && IsSlugChar(s[0]) && j == SkipWhile(s, 0, IsSlugChar)
    requires s[j..] != [] && Words(s[j..]) == []
    requires Hyphenate(s[j..]) == Lead(s[j..]) + JoinHyphen(Words(s[j..])) + Trail(s[j..])
    ensures Hyphenate(s[j..]) == "-" && Trail(s) == "-" && JoinHyphen(Words(s)) == s[..j]
  {
    var t := s[j..];
    HyphenateAtWord(s, j);
    LastOfTail(s, j);
    WordsEmpty(t);
  }

  lemma SuffixHyphen(h: string, w: string, ht: string, lead: string, js: string, trail: string)
    requires h == w + ht && ht == "-" && lead == "" && js == w && trail == "-"
    ensures h == lead + js + trail
  {
  }

  /** A word followed by further words. */
  lemma WordThenWords(s: string, j: nat)
    requires s != [] && IsSlugChar(s[0]) && j == SkipWhile(s, 0, IsSlugChar)
    requires s[j..] != [] && Words(s[j..]) != []
    requires Hyphenate(s[j..]) == Lead(s[j..]) + JoinHyphen(Words(s[j..])) + Trail(s[j..])
    ensures Hyphenate(s) == Lead(s) + JoinHyphen(Words(s)) + Trail(s)
  {
    var w, t := s[..j], s[j..];
    HyphenateAtWord(s, j);
    var jt, tr := JoinHyphen(Words(t)), Trail(t);
    JoinCons(w, Words(t));
    LastOfTail(s, j);
    assert Trail(s) == tr;
    Regroup(w, jt, tr);
  }

  lemma Regroup(w: string, jt: string, tr: string)
    ensures w + ("-" + jt + tr) == "" + (w + "-" + jt) + tr
  {
  }

  /** One step of `Hyphenate` and `Words` over a leading word. */
  lemma HyphenateAtWord(s: string, j: nat)
    requires s != [] && IsSlugChar(s[0]) && j == SkipWhile(s, 0, IsSlugChar)
    ensures Hyphenate(s) == s[..j] + Hyphenate(s[j..])
    ensures Words(s) == [s[..j]] + Words(s[j..])
    ensures Lead(s) == ""
    ensures s[j..] != [] ==> !IsSlugChar(s[j..][0]) && Lead(s[j..]) == "-"
  {
  }

  lemma LastOfTail(s: string, j: nat)
    requires j < |s|
    ensures s[j..][|s[j..]| - 1] == s[|s| - 1]
  {
  }

  lemma JoinCons(w: string, ws: seq<string>)
    requires ws != []
    ensures JoinHyphen([w] + ws) == w + "-" + JoinHyphen(ws)
  {
    assert ([w] + ws)[1..] == ws;
  }

  /** The shape after a leading run of other characters. */
  lemma GapThenRest(s: string, j: nat)
    requires s != [] && !IsSlugChar(s[0]) && j == SkipWhile(s, 0, NotSlugChar)
    requires Hyphenate(s[j..]) == Lead(s[j..]) + JoinHyphen(Words(s[j..])) + Trail(s[j..])
    ensures Hyphenate(s) == Lead(s) + JoinHyphen(Words(s)) + Trail(s)
  {
    if j == |s| {
      GapOnly(s, j);
    } else {
      GapThenWords(s, j);
    }
  }

  /** Only other characters. */
  lemma GapOnly(s: string, j: nat)
    requires s != [] && !IsSlugChar(s[0]) && j == SkipWhile(s, 0, NotSlugChar)
    requires j == |s|
    ensures Hyphenate(s) == Lead(s) + JoinHyphen(Words(s)) + Trail(s)
  {
    HyphenateAtGap(s, j);
    assert s[j..] == [];
  }

  /** Other characters followed by at least one word. */
  lemma GapThenWords(s: string, j: nat)
    requires s != [] && !IsSlugChar(s[0]) && j == SkipWhile(s, 0, NotSlugChar)
    requires j < |s|
    requires Hyphenate(s[j..]) == Lead(s[j..]) + JoinHyphen(Words(s[j..])) + Trail(s[j..])
    ensures Hyphenate(s) == Lead(s) + JoinHyphen(Words(s)) + Trail(s)
  {
    var t := s[j..];
    HyphenateAtGap(s, j);
    TrailAtGap(s, j);
    PrefixHyphen(Hyphenate(s), Hyphenate(t), Lead(s), JoinHyphen(Words(t)), Trail(t));
  }

  lemma TrailAtGap(s: string, j: nat)
    requires s != [] && !IsSlugChar(s[0]) && j == SkipWhile(s, 0, NotSlugChar)
    requires j < |s|
    ensures Trail(s) == Trail(s[j..])
  {
    HyphenateAtGap(s, j);
    LastOfTail(s, j);
  }

  lemma PrefixHyphen(h: string, ht: string, lead: string, jt: string, tr: string)
    requires h == "-" + ht && ht == "" + jt + tr && lead == "-"
    ensures h == lead + jt + tr
  {
  }

  /** One step of `Hyphenate` and `Words` over a leading run of other
      characters. */
  lemma HyphenateAtGap(s: string, j: nat)
    requires s != [] && !IsSlugChar(s[0]) && j == SkipWhile(s, 0, NotSlugChar)
    ensures Hyphenate(s) == "-" + Hyphenate(s[j..])
    ensures Words(s) == Words(s[j..])
    ensures Lead(s) == "-"
    ensures s[j..] != [] ==> IsSlugChar(s[j..][0]) && Lead(s[j..]) == ""
  {
  }

  /** A string with no words is made only of other characters. */
  lemma {:induction false} WordsEmpty(s: string)
    requires Words(s) == []
    ensures forall k :: 0 <= k < |s| ==> !IsSlugChar(s[k])
    decreases |s|
  {
    if s != [] {
      if IsSlugChar(s[0]) {
        assert false;
      }
      var j := SkipWhile(s, 0, NotSlugChar);
      WordsEmpty(s[j..]);
    }
  }

  /** Joined non-empty words start and end with a slug character. */
  lemma {:induction false} JoinIsSlug(ws: seq<string>)
    requires forall i :: 0 <= i < |ws| ==> ws[i] != [] && AllSlugChars(ws[i])
    ensures IsSlug(JoinHyphen(ws))
    ensures JoinHyphen(ws) != [] ==> IsSlugChar(JoinHyphen(ws)[0]) && IsSlugChar(JoinHyphen(ws)[|JoinHyphen(ws)| - 1])
    ensures ws != [] <==> JoinHyphen(ws) != []
    decreases |ws|
  {
    if |ws| > 1 {
      JoinIsSlug(ws[1..]);
      var w, rest := ws[0], JoinHyphen(ws[1..]);
      var r := w + "-" + rest;
      assert rest != [];
      forall k | 0 <= k < |r| - 1 ensures !(r[k] == '-' && r[k + 1] == '-') {
        if k < |w| - 1 {
          assert r[k] == w[k];
        } else if k == |w| - 1 {
          assert r[k] == w[k];
        } else if k == |w| {
          assert r[k + 1] == rest[0];
        } else {
          assert r[k] == rest[k - |w| - 1] && r[k + 1] == rest[k - |w|];
        }
      }
      forall k | 0 <= k < |r| ensures IsSlugChar(r[k]) || r[k] == '-' {
        if k < |w| {
          assert r[k] == w[k];
        } else if k > |w| {
          assert r[k] == rest[k - |w| - 1];
        }
      }
      assert r[|r| - 1] == rest[|rest| - 1];
    }
  }

  lemma TrimAroundJoin(lead: string, j: string, trail: string)
    requires lead == "" || lead == "-"
    requires trail == "" || trail == "-"
    requires j == [] || (IsSlugChar(j[0]) && IsSlugChar(j[|j| - 1]))
    ensures TrimHyphens(lead + j + trail) == j
  {
    var s := lead + j + trail;
    if j == [] {
      SkipWhileAt(s, 0, |s|, IsHyphen);
    } else {
      assert s[|lead|] == j[0];
      SkipWhileAt(s, 0, |lead|, IsHyphen);
      assert s[|lead|..] == j + trail;
      DropTrailAfterJoin(j, trail);
    }
  }

  lemma DropTrailAfterJoin(j: string, trail: string)
    requires trail == "" || trail == "-"
    requires j != [] && IsSlugChar(j[|j| - 1])
    ensures DropTrailingHyphens(j + trail) == j
  {
    if trail == "-" {
      assert (j + trail)[..|j|] == j;
      assert DropTrailingHyphens(j) == j;
    } else {
      assert j + trail == j;
    }
  }

  // ---------------------------------------------------------------------
  // Properties
  // ---------------------------------------------------------------------

  /** Apostrophes are deleted, so contractions stay joined: inserting one
      anywhere in a non-blank title leaves the slug unchanged. */
  lemma ApostropheIgnored(a: string, q: char, b: string)
    requires IsApostrophe(q)
    requires !AllSpace(a + b)
    ensures GenerateSlug(a + [q] + b) == GenerateSlug(a + b)
  {
    assert !AllSpace(a + [q] + b) by {
      assert (a + [q] + b)[|a|] == q;
    }
    PrepareIgnoresApostrophe(a, q, b);
  }

  lemma PrepareIgnoresApostrophe(a: string, q: char, b: string)
    requires IsApostrophe(q)
    ensures Prepare(a + [q] + b) == Prepare(a + b)
  {
    LowerAppend(a, [q]);
    LowerAppend(a + [q], b);
    LowerAppend(a, b);
    StripAppend(ToLower(a), ToLower([q]));
    StripAppend(ToLower(a) + ToLower([q]), ToLower(b));
    StripAppend(ToLower(a), ToLower(b));
    assert ToLower([q]) == [q];
    assert StripApostrophes([q]) == [] by {
      assert [q][1..] == [];
    }
  }

  lemma LowerAppend(a: string, b: string)
    ensures ToLower(a + b) == ToLower(a) + ToLower(b)
  {
  }

  lemma {:induction false} StripAppend(a: string, b: string)
    ensures StripApostrophes(a + b) == StripApostrophes(a) + StripApostrophes(b)
    decreases |a|
  {
    if a == [] {
      assert a + b == b;
    } else {
      assert (a + b)[1..] == a[1..] + b;
      StripAppend(a[1..], b);
    }
  }

  predicate IsAsciiAlnum(c: char) {
    ('a' <= c <= 'z') || ('A' <= c <= 'Z') || ('0' <= c <= '9')
  }

  /** A title with visible characters but no letter or digit has the empty
      slug (it is not replaced by "untitled"). */
  lemma PunctuationOnlyIsEmpty(title: string)
    requires !AllSpace(title)
    requires forall k :: 0 <= k < |title| ==> !IsAsciiAlnum(title[k])
    ensures GenerateSlug(title) == ""
  {
    var lower := ToLower(title);
    assert forall k :: 0 <= k < |lower| ==> !IsSlugChar(lower[k]) by {
      forall k | 0 <= k < |lower| ensures !IsSlugChar(lower[k]) {
        assert lower[k] == ToLowerChar(title[k]);
      }
    }
    StripKeepsNoSlug(lower);
    var s := Prepare(title);
    assert forall k :: 0 <= k < |s| ==> !IsSlugChar(s[k]) by {
      forall k | 0 <= k < |s| ensures !IsSlugChar(s[k]) {
        assert s[k] in s;
      }
    }
    NoSlugNoWords(s);
  }

  lemma {:induction false} StripKeepsNoSlug(s: string)
    requires forall k :: 0 <= k < |s| ==> !IsSlugChar(s[k])
    ensures forall c :: c in StripApostrophes(s) ==> !IsSlugChar(c)
    decreases |s|
  {
    if s != [] {
      StripKeepsNoSlug(s[1..]);
    }
  }

  lemma {:induction false} NoSlugNoWords(s: string)
    requires forall k :: 0 <= k < |s| ==> !IsSlugChar(s[k])
    ensures Words(s) == []
    decreases |s|
  {
    if s != [] {
      var j := SkipWhile(s, 0, NotSlugChar);
      NoSlugNoWords(s[j..]);
    }
  }

  /** A non-empty slug is its own slug. */
  lemma SlugIdempotent(title: string)
    ensures GenerateSlug(title) != [] ==> GenerateSlug(GenerateSlug(title)) == GenerateSlug(title)
  {
    var r := GenerateSlug(title);
    if r != [] {
      GenerateSlugIsSlug(title);
      SlugIsFixed(r);
    }
  }

  /** A non-empty slug-shaped string is unchanged by the replacements. */
  lemma SlugIsFixed(r: string)
    requires r != [] && IsSlug(r)
    ensures GenerateSlug(r) == r
  {
    SlugNotBlank(r);
    PrepareSlug(r);
    HyphenateSlug(r);
    TrimHyphensSlug(r);
    SlugifyIsJoin(r);
  }

  lemma SlugNotBlank(r: string)
    requires r != [] && IsSlug(r)
    ensures !AllSpace(r)
  {
    assert !IsSpace(r[0]);
  }

  /** Lower-casing and dropping apostrophes leave a slug unchanged. */
  lemma PrepareSlug(r: string)
    requires IsSlug(r)
    ensures Prepare(r) == r
  {
    assert ToLower(r) == r;
    NoApostropheStrip(r);
  }

  /** A slug has no hyphen at either end to trim. */
  lemma TrimHyphensSlug(r: string)
    requires r != [] && IsSlug(r)
    ensures TrimHyphens(r) == r
  {
    SkipWhileAt(r, 0, 0, IsHyphen);
    assert r[0..] == r;
  }

  lemma {:induction false} NoApostropheStrip(s: string)
    requires forall k :: 0 <= k < |s| ==> !IsApostrophe(s[k])
    ensures StripApostrophes(s) == s
    decreases |s|
  {
    if s != [] {
      NoApostropheStrip(s[1..]);
    }
  }

  /** `Hyphenate` leaves alone a string of slug characters and single hyphens. */
  lemma {:induction false} HyphenateSlug(s: string)
    requires forall k :: 0 <= k < |s| ==> IsSlugChar(s[k]) || s[k] == '-'
    requires forall k :: 0 <= k < |s| - 1 ==> !(s[k] == '-' && s[k + 1] == '-')
    ensures Hyphenate(s) == s
    decreases |s|
  {
    if s != [] {
      if IsSlugChar(s[0]) {
        var j := SkipWhile(s, 0, IsSlugChar);
        HyphenateSlug(s[j..]);
        assert s[..j] + s[j..] == s;
      } else {
        SkipWhileAt(s, 0, 1, NotSlugChar);
        HyphenateSlug(s[1..]);
        assert "-" + s[1..] == s;
      }
    }
  }

  /** Hyphens around a single word are trimmed away: "---test---". */
  lemma DashesTrimmed()
    ensures GenerateSlug("---test---") == "test"
  {
    var t := "---test---";
    DashTestNotBlank(t);
    DashTestPrepared(t);
    DashTestWords(t);
  }

  lemma DashTestNotBlank(t: string)
    requires t == "---test---"
    ensures !AllSpace(t)
  {
    assert !IsSpace(t[0]);
  }

  lemma DashTestPrepared(t: string)
    requires t == "---test---"
    ensures Prepare(t) == t
  {
    var l := ToLower(t);
    assert l == t by {
      forall k | 0 <= k < |t| ensures l[k] == t[k] {
        assert !IsAsciiUpper(t[k]);
      }
    }
    NoApostropheStrip(t);
  }

  lemma {:induction false} DashTestWords(t: string)
    requires t == "---test---"
    ensures Words(t) == ["test"]
  {
    SkipWhileAt(t, 0, 3, NotSlugChar);
    var u := t[3..];
    SkipWhileAt(u, 0, 4, IsSlugChar);
    assert u[..4] == "test";
    NoSlugNoWords(u[4..]);
  }
}
