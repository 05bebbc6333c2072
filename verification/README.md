# Annotated blog core, modelled in Dafny

This project models the core logic of a personal web site built with Astro
and React. The site publishes articles that carry reader annotations. A
margin or inline note is attached to an anchor string of the article text,
optionally disambiguated by a start context. The model covers these parts:

- **Annotations** (`annotations.dfy`): locating an anchor (`findAnchorPosition`)
  and cutting a text into plain and highlighted segments (`buildAnnotatedSegments`).
  The builder locates, stably sorts by start, drops overlaps (the earlier span
  wins) and walks a cursor.
- **Annotated article** (`annotated_article.dfy`): the article is split into
  paragraphs at blank lines, each paragraph is segmented on its own, and each
  highlight has an open/closed note.
- **Annotation form** (`annotation_form.dfy`): the dialog that creates or edits
  an annotation, with its trimming submit, Escape/backdrop cancel and its labels.
- **Slugs** (`article_fetcher.dfy`): `generateSlug`.
- **Reading time** (`utils.dfy`): `estimateReadingTime`.
- **GitHub projects** (`github_projects.dfy`): `fetchTopRepos` after the HTTP
  call: forks out, ranked by stars then by latest push, cut to a limit.
- **Font switcher** (`font_switcher.dfy`): the font catalogue, category pills
  and keyboard navigation with wrap-around.
- **Layout gallery** (`layout_demos.dfy`): posts grouped by year, the years in
  descending order, the bottom links, the layout table with its fallback, and
  the post prefixes the layouts show.

Shared modules give the JavaScript primitives the code relies on:

- `jsstring.dfy`: `indexOf`, `slice` with negative indices, `trim` and `\s`
  over the ECMAScript white-space set, and ASCII lower-casing.
- `stable_sort.dfy`: a stable insertion sort standing in for `Array.prototype.sort`,
  which is stable.
- `wrappers.dfy`: `Option`.

Strings are `seq<char>`.

Two behaviours of the source are modelled as written and stated as such:

- The highlight's accessible name always ends in `"..."`, even when the note
  is shorter than 50 characters (`AnnotatedArticle.AriaLabel`).
- Pressing up in the font switcher while the selected font is outside the
  active category selects the category's second-to-last font, not its last
  (`FontSwitcher.OutsideCategory`). This is because the not-found position -1
  enters `(i - 1 + len) % len`.

## Model

| member | source | states |
|---|---|---|
| Annotations.FindAnchorPosition | src/lib/annotations.ts:25-42 | a reported position spans an actual occurrence of the anchor: `end = start + anchor.length` and the text there equals the anchor |
| Annotations.FindAnchorPositionIsLeftmost | src/lib/annotations.ts:25-42 | without a (non-empty) context: the leftmost occurrence, and null exactly when the anchor is absent; with one: the leftmost anchor at or after the end of the FIRST context occurrence, null when the context is absent or no anchor follows it |
| Annotations.ContextAnswer | src/lib/annotations.ts:30-36 | conversely, when the context first occurs at `c` and the anchor first occurs at `k` at or after `c + context.length`, the locator reports `k` to `k + anchor.length` |
| Annotations.ContextPicksLaterAnchor | src/lib/annotations.ts:30-36 | in "foo bar foo baz foo" the anchor "foo" with the context "baz" is reported at 16 to 19, not at the first "foo" |
| Annotations.Locate | src/lib/annotations.ts:53-61 | each entry is the locator's answer for the annotation at its input position; every annotation the locator finds is present; entries keep input order |
| Annotations.SortByStartIsStable | src/lib/annotations.ts:63-64 | sorting by `a.start - b.start` orders by start and, for equal starts, by input order, and is a permutation |
| Annotations.LocatedInStartOrder | src/lib/annotations.ts:56-64 | the located spans, sorted, are in start order with ties in input order, and none is lost |
| Annotations.DropOverlapsFacts | src/lib/annotations.ts:66-74 | the kept spans come from the input and each starts at or after the end of the previous kept one |
| Annotations.DroppedOnlyWhenOverlapping | src/lib/annotations.ts:66-74 | in a start-sorted list a span is dropped only if it starts before `lastEnd` or inside a kept span that starts no later |
| Annotations.DroppedOnlyWhenPreceded | src/lib/annotations.ts:66-74 | in a list in start-then-input order a span is dropped only if it starts before `lastEnd` or inside a kept span that precedes it in that order |
| Annotations.ChainKeepsAll | src/lib/annotations.ts:66-74 | a list that is already non-overlapping is kept whole |
| Annotations.EarlierOverlapWins | src/lib/annotations.ts:63-74 | of two located annotations that overlap, the one starting earlier (or, on equal starts, the earlier in the input) excludes the later |
| Annotations.DroppedOnlyByOverlap | src/lib/annotations.ts:63-74 | a located annotation that is not highlighted starts inside a highlighted one that precedes it: starts earlier, or at the same place and earlier in the input |
| Annotations.TieGoesToFirstDeclared | src/lib/annotations.ts:63-74 | of two located annotations with the same start, the later-declared one is never highlighted when the earlier one is non-empty |
| Annotations.Emit | src/lib/annotations.ts:81-98 | the cursor walk spells `text[cursor..]`, never emits an empty text segment, and places exactly one highlight at each kept span with that span's text and annotation |
| Annotations.BuildAnnotatedSegments | src/lib/annotations.ts:48-101 | the segments concatenate to the text; with no located annotation the result is `[text]` alone; a highlight exists iff some annotation is located; every highlight equals its annotation's anchor, sits where the locator puts it, and the highlights ascend without overlap; text segments are non-empty whenever something is highlighted |
| Annotations.SingleAnnotationOnce | src/lib/annotations.ts:48-101 | with a single annotation: when it is located, there is exactly one highlight, its anchor carrying that annotation, at the located span; when it is not, there is no highlight |
| Annotations.UnmatchedAnchorIsPlainText | src/lib/annotations.ts:56-79 | an annotation whose anchor "nonexistent" does not occur in "Hello world" leaves the text as one plain segment |
| Annotations.KeptIffFound | src/lib/annotations.ts:52-79 | the overlap-free list is empty exactly when no annotation is located, which is when the single-text-segment branch runs |
| AnnotatedArticle.SplitParagraphs | src/components/AnnotatedArticle.tsx:154-155 | `split(/\n\n+/)` gives at least one piece and no piece contains a blank line |
| AnnotatedArticle.Paragraphs | src/components/AnnotatedArticle.tsx:154-157 | every paragraph is non-empty, starts and ends with non-white-space, and contains no blank line |
| AnnotatedArticle.ParagraphsKeepText | src/components/AnnotatedArticle.tsx:154-157 | the paragraphs hold every non-white-space character of the source, in source order |
| AnnotatedArticle.ParagraphsRoundTrip | src/components/AnnotatedArticle.tsx:154-157 | paragraphs joined by blank lines are split back into exactly the same list |
| AnnotatedArticle.ArticleSegments | src/components/AnnotatedArticle.tsx:127-168 | one segment list per paragraph, each spelling its paragraph; every highlight is its annotation's anchor; a paragraph has a highlight iff some annotation is located in that paragraph, and its highlights are exactly the spans kept for that paragraph, in order |
| AnnotatedArticle.AnnotationOncePerParagraph | src/components/AnnotatedArticle.tsx:134-167 | a single annotation is highlighted exactly once in each paragraph where it is located, and nowhere else |
| AnnotatedArticle.SegmentsWithinParagraphs | src/components/AnnotatedArticle.tsx:134-165 | no rendered segment spans a blank line |
| AnnotatedArticle.AnchorAcrossBlankLineIgnored | src/components/AnnotatedArticle.tsx:134-165 | an annotation whose anchor contains a blank line is never highlighted |
| AnnotatedArticle.AriaLabel | src/components/AnnotatedArticle.tsx:102 | `"Annotation: "`, then the note cut at 50 characters, then `"..."` in every case |
| AnnotatedArticle.AriaLabelShape | src/components/AnnotatedArticle.tsx:102 | the label is at most 65 characters and quotes the opening of the note |
| AnnotatedArticle.Popover | src/components/AnnotatedArticle.tsx:89-115 | a click, Enter or space flips the note's state; close sets it closed; other keys change nothing |
| AnnotatedArticle.ActivateTwice | src/components/AnnotatedArticle.tsx:99-105 | activating a highlight twice restores its state |
| AnnotatedArticle.NotePlaces | src/components/AnnotatedArticle.tsx:109-122 | a margin note is always shown for margin annotations; the popover only for an open margin annotation; the inline note only for an open inline annotation |
| AnnotatedArticle.InlineNoteFollowsClicks | src/components/AnnotatedArticle.tsx:99-122 | a closed inline highlight shows nothing, one click shows the note, a second hides it |
| AnnotatedArticle.CloseKeepsMarginNote | src/components/AnnotatedArticle.tsx:109-117 | closing a margin popover leaves only the side note |
| JsString.TrimKeepsVisible | src/components/AnnotationForm.tsx:32-33 | `trim()` removes only white space: everything after the trimmed text is white space, and the visible characters are the same |
| AnnotationForm.InitialForm | src/components/AnnotationForm.tsx:17-20 | a new annotation starts as an empty margin note; an edit starts from the existing type and note |
| AnnotationForm.SubmitNote | src/components/AnnotationForm.tsx:30-34 | nothing is saved iff the note is all white space; otherwise the type and the trimmed note are saved: non-empty, without surrounding white space, the same visible characters |
| AnnotationForm.SubmitDisabled | src/components/AnnotationForm.tsx:129-131 | the save button is disabled iff the note is all white space |
| AnnotationForm.DisabledIffNothingSaved | src/components/AnnotationForm.tsx:30-34 | the button is disabled exactly when a submit would save nothing |
| AnnotationForm.Handle | src/components/AnnotationForm.tsx:22-34 | type and note edits change the form; a submit saves exactly the trimmed note or stays; Escape, the backdrop and the cancel button cancel; no key saves |
| AnnotationForm.ResubmitSaved | src/components/AnnotationForm.tsx:17-34 | reopening a saved annotation and submitting it unchanged saves the same type and note |
| AnnotationForm.TypeThenSubmit | src/components/AnnotationForm.tsx:17-34 | choosing a type, typing a non-blank note and submitting saves that type with the trimmed note |
| AnnotationForm.Truncated | src/components/AnnotationForm.tsx:36-37 | a selection of at most 80 characters is shown whole; a longer one as its first 80 characters plus `"..."` |
| AnnotationForm.TruncatedUnchanged | src/components/AnnotationForm.tsx:36-37 | the preview equals the selection iff it is at most 80 characters, or 83 characters ending in `"..."` |
| AnnotationForm.TruncatedBounded | src/components/AnnotationForm.tsx:36-37 | the preview is at most 83 characters and starts with the selection's first 80 |
| AnnotationForm.Heading | src/components/AnnotationForm.tsx:53 | "Edit Annotation" iff an annotation is being edited, else "New Annotation" |
| AnnotationForm.ButtonLabel | src/components/AnnotationForm.tsx:134 | "Save Changes" iff an annotation is being edited, else "Add Annotation" |
| ArticleFetcher.StripApostrophesChars | src/lib/article-fetcher.ts:16 | no apostrophe or U+2019 remains, every other character is kept, and nothing is added |
| ArticleFetcher.StripApostrophesIsFilter | src/lib/article-fetcher.ts:16 | the apostrophe deletion yields exactly the subsequence of the other characters: all of them, in order, each as often as it occurs |
| ArticleFetcher.NoApostropheStrip | src/lib/article-fetcher.ts:16 | a string without apostrophes is left unchanged |
| ArticleFetcher.HyphenateSlug | src/lib/article-fetcher.ts:17 | a string of `[a-z0-9]` and single hyphens is left unchanged by the replacement |
| ArticleFetcher.HyphenateShape | src/lib/article-fetcher.ts:17 | the replacement is an optional hyphen, the `[a-z0-9]` words joined by single hyphens, and an optional hyphen |
| ArticleFetcher.SlugifyIsJoin | src/lib/article-fetcher.ts:14-18 | after trimming hyphens the slug is exactly the words joined by single hyphens |
| ArticleFetcher.GenerateSlug | src/lib/article-fetcher.ts:12-19 | "untitled" iff the title is empty or white space; otherwise the words of the lower-cased, apostrophe-free title joined by hyphens |
| ArticleFetcher.GenerateSlugIsSlug | src/lib/article-fetcher.ts:12-19 | every slug is made of `[a-z0-9-]`, with no hyphen at either end and no two in a row |
| ArticleFetcher.ApostropheIgnored | src/lib/article-fetcher.ts:16 | inserting an apostrophe anywhere in a non-blank title does not change its slug |
| ArticleFetcher.PunctuationOnlyIsEmpty | src/lib/article-fetcher.ts:13-18 | a title with visible characters but no ASCII letter or digit gives the empty slug, not "untitled" |
| ArticleFetcher.SlugIdempotent | src/lib/article-fetcher.ts:12-19 | a non-empty slug is its own slug |
| ArticleFetcher.SlugIsFixed | src/lib/article-fetcher.ts:12-19 | any non-empty slug-shaped string is unchanged by `generateSlug` |
| ArticleFetcher.DashesTrimmed | src/lib/article-fetcher.ts:13-18 | the title "---test---" has the slug "test": the hyphens at either end are trimmed away |
| Utils.SpaceSplit | src/lib/utils.ts:10 | `split(/\s+/)` gives at least one piece and no piece contains white space |
| Utils.EstimateReadingTime | src/lib/utils.ts:9-11 | the estimate is at least one minute and is the least `m` with pieces at most `200 * m` |
| Utils.SplitCount | src/lib/utils.ts:10 | the number of pieces is the number of maximal white-space runs plus one |
| Utils.SplitKeepsText | src/lib/utils.ts:10 | the pieces hold exactly the non-white-space characters, in order |
| Utils.SplitJoin | src/lib/utils.ts:10 | non-empty words joined by single spaces split back into the same words |
| Utils.RepeatedWords | src/lib/utils.ts:9-11 | `n` space-separated words take `ceil(n / 200)` minutes |
| Utils.FourHundredAndTwoHundredFiftyWords | src/lib/utils.ts:9-11 | 400 words take two minutes and 250 words round up to two |
| Utils.EmptyContent | src/lib/utils.ts:9-11 | the empty content is one (empty) piece and one minute |
| Utils.EdgeSpaceAddsEmptyPiece | src/lib/utils.ts:10 | white space at the start or the end yields an empty first or last piece |
| Utils.AppendMonotone | src/lib/utils.ts:9-11 | appending text never lowers the estimate |
| GithubProjects.FetchTopRepos | src/lib/github-projects.ts:13-35 | a failed response gives nothing; otherwise `slice(0, limit)` of the ranked non-forks, so a non-negative limit gives `min(limit, count)` repositories, all non-fork and from the response |
| GithubProjects.RanksBeforeIsStrictWeakOrder | src/lib/github-projects.ts:28-33 | the comparator (more stars first, then later push) is a strict weak order |
| GithubProjects.TopReposOrdered | src/lib/github-projects.ts:26-34 | stars never increase along the result, and equal stars come with pushes that never get later |
| GithubProjects.TopReposAreTop | src/lib/github-projects.ts:26-34 | the result is a prefix of the ranking, and no repository left out ranks above one that was kept |
| GithubProjects.RankedIsPermutation | src/lib/github-projects.ts:26-33 | the ranking holds each non-fork repository exactly as often as the response does |
| GithubProjects.TiesKeepResponseOrder | src/lib/github-projects.ts:28-33 | repositories with equal stars and equal push times keep the response's order |
| GithubProjects.DefaultShowsSix | src/lib/github-projects.ts:13 | with the default limit at most six repositories are shown, and six when there are that many |
| FontSwitcher.FilteredIndices | src/components/FontSwitcher.tsx:120 | exactly the fonts of the active category ("All": every font), in catalogue order |
| FontSwitcher.ShownBelowFacts | src/components/FontSwitcher.tsx:120 | the fonts of the category below a position are listed once each, in ascending order, and nothing else is |
| FontSwitcher.FindByName | src/components/FontSwitcher.tsx:121 | the first filtered position with the given name, or -1 iff there is none |
| FontSwitcher.NextPosition | src/components/FontSwitcher.tsx:125 | `(i + 1) % len` is the next position, wrapping to 0, and 0 from -1 |
| FontSwitcher.PreviousPosition | src/components/FontSwitcher.tsx:130 | `(i - 1 + len) % len` with JavaScript's `%` is the previous position, wrapping to the last; from -1 it is `len - 2`, or 0 when `len` is 1 |
| FontSwitcher.HandleKey | src/components/FontSwitcher.tsx:118-139 | down/`j` and up/`k` select a font of the active category and leave open state and category alone; Escape flips the panel; other keys change nothing; validity is kept |
| FontSwitcher.DownSelectsNext | src/components/FontSwitcher.tsx:120-127 | down selects the category's next font, wrapping to its first |
| FontSwitcher.UpSelectsPrevious | src/components/FontSwitcher.tsx:120-132 | up selects the category's previous font, wrapping to its last |
| FontSwitcher.DownThenUpRestores | src/components/FontSwitcher.tsx:118-139 | down then up returns to the starting font |
| FontSwitcher.UpThenDownRestores | src/components/FontSwitcher.tsx:118-139 | up then down returns to the starting font |
| FontSwitcher.OutsideCategory | src/components/FontSwitcher.tsx:120-132 | with the selected font outside the category, down selects the category's first font and up its second-to-last (or its only one) |
| FontSwitcher.SelectFont | src/components/FontSwitcher.tsx:198-205 | clicking a listed font selects that font and keeps the state valid |
| FontSwitcher.SelectCategory | src/components/FontSwitcher.tsx:182 | a pill sets the active category and leaves the selected font and the panel alone |
| FontSwitcher.PillThenDown | src/components/FontSwitcher.tsx:118-182 | after a pill click the state stays valid with the same font selected, even one outside the new category; the next down key selects a font of that category, its first when the selected font is not listed |
| FontSwitcher.Toggle | src/components/FontSwitcher.tsx:148 | the floating button flips the panel and changes nothing else |
| FontSwitcher.PillCount | src/components/FontSwitcher.tsx:178 | a pill's count is the length of the list it selects, and "All" counts every font |
| FontSwitcher.CatalogueIsWellStocked | src/components/FontSwitcher.tsx:11-70 | font names are unique and every pill's category has at least one font |
| FontSwitcher.EventsKeepValid | src/components/FontSwitcher.tsx:84-205 | the initial state selects "Lora" in "All", and every key, pill, font click and toggle keeps the state valid |
| LayoutDemos.GroupByYear | src/components/LayoutDemos.tsx:88-96 | one group per year that occurs; each group is that year's posts in list order, never empty |
| LayoutDemos.EachPostInItsYear | src/components/LayoutDemos.tsx:88-96 | every post is in its own year's group and in no other |
| LayoutDemos.DistinctYears | src/components/LayoutDemos.tsx:384 | each year with a post appears once |
| LayoutDemos.YearsDescending | src/components/LayoutDemos.tsx:383-384 | the section years are exactly the group keys |
| LayoutDemos.YearsStrictlyDescending | src/components/LayoutDemos.tsx:383-384 | the section years run strictly from latest to earliest |
| LayoutDemos.FeedShowsEveryPost | src/components/LayoutDemos.tsx:383-411 | every post is listed under one of the section years |
| LayoutDemos.BottomLinks | src/components/LayoutDemos.tsx:419 | the navigation links other than Home and Blog |
| LayoutDemos.BottomLinksOfSite | src/components/LayoutDemos.tsx:50-55 | for the site's navigation these are Annotations then Projects |
| LayoutDemos.LayoutFor | src/components/LayoutDemos.tsx:1216 | an id outside the switcher's list falls back to the minimalist bio |
| LayoutDemos.SwitcherIsOneToOne | src/components/LayoutDemos.tsx:1204-1216 | switcher ids and layouts correspond one to one through the table |
| LayoutDemos.InitialLayoutShown | src/components/LayoutDemos.tsx:1214-1216 | the page starts on an offered id that renders the minimalist bio |
| LayoutDemos.Featured | src/components/LayoutDemos.tsx:295-302 | the hero post is the first post, absent exactly when there are no posts |
| LayoutDemos.MagazineShowsFirstFive | src/components/LayoutDemos.tsx:295-296 | the hero plus `slice(1, 5)` are the first five posts, in order, once each |
| LayoutDemos.TopPosts | src/components/LayoutDemos.tsx:440 | `slice(0, 3)` is the first three posts (fewer if there are fewer) |
| StableSort.SortPermutes | src/lib/github-projects.ts:28-33 | the sort returns a permutation of its input |
| StableSort.FilterMembers | src/lib/github-projects.ts:27 | `filter` keeps exactly the elements that pass, and is no longer than its input |
| StableSort.SortSorted | src/lib/github-projects.ts:28-33 | the sort leaves no pair out of order under a strict weak order |
| StableSort.SortIsStable | src/lib/annotations.ts:64 | the sort keeps the input order of every class of tied elements |

## Left out

- Network and I/O are not modelled. The HTTP call in `fetchTopRepos` is replaced by a `Response` value (its `ok` flag and parsed body), and the error log is left out.
- `fetchArticle`, the annotation API, the command-line scripts and Markdown rendering are outside this model.
- Dates are not parsed. A repository's `pushed_at` is an integer timestamp, and a post's year comes from a `yearOf` parameter. Unparsable dates, whose comparator or year would be `NaN`, are not modelled. `formatDate` is left out.
- React rendering, DOM measurement (margin-note positioning), font loading, heading-style effects and list scrolling are left out. Only the state each component keeps and what it shows are modelled.
- Strings are sequences of Unicode scalar values, whereas JavaScript counts UTF-16 code units. Lengths and offsets in `slice(0, 50)`, `slice(0, 80)`, `length > 80` and anchor positions differ for characters outside the Basic Multilingual Plane.
- JsString.ToLower: only ASCII letters are lower-cased. JavaScript's full mapping differs for the slug only where a character's lower case contains an ASCII letter (U+0130 and the Kelvin sign U+212A), because all other non-ASCII characters become hyphens either way.
- GithubProjects.TiesKeepResponseOrder: stability is stated for each class of tied repositories, which is what a stable sort promises.
- LayoutDemos.YearsDescending: the keys are taken in order of first appearance, not in `Object.keys` order. The order does not affect the result, because the years are distinct and the sort orders them totally.
- LayoutDemos.LayoutFor: only the table's own keys are looked up. In JavaScript an inherited name such as `"toString"` would not fall back, but the active id only ever comes from the switcher's list.
- The `!segment.annotation` branch of `HighlightedText` is not modelled. Every highlight segment here carries its annotation, so that branch cannot occur.
- The other layouts' static content (biography, social links, project and annotation cards) and the switcher panel's rendering are not modelled.
- The font switcher's header text, `fontsLoaded`, and the `importSpec` and `description` fields of a font are left out. They affect only presentation.
