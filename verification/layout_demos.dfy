/**
 * The home-page layout gallery: the post list grouped by year for the feed
 * layout, the navigation links it repeats at the bottom, the table of
 * layouts and its fallback, and the prefixes of the post list that the
 * other layouts show.
 */
module LayoutDemos {
  import opened Wrappers
  import opened JsString
  import StableSort

  datatype BlogPost = BlogPost(id: string, title: string, description: string, date: string, tags: seq<string>)

  // ---------------------------------------------------------------------
  // Posts grouped by year
  // ---------------------------------------------------------------------

  /** The posts of year `y`, where `yearOf` reads a post's year from its
      date. */
  function InYear(yearOf: BlogPost -> int, y: int): BlogPost -> bool {
    p => yearOf(p) == y
  }

  /** The years the posts fall in. */
  function YearSet(posts: seq<BlogPost>, yearOf: BlogPost -> int): set<int> {
    set p | p in posts :: yearOf(p)
  }

  /** The invariant of the walk: the groups so far are the filters by year
      of the posts so far. */
  predicate GroupsOf(posts: seq<BlogPost>, yearOf: BlogPost -> int, groups: map<int, seq<BlogPost>>) {
    && groups.Keys == YearSet(posts, yearOf)
    && forall y :: y in groups ==> groups[y] == StableSort.Filter(posts, InYear(yearOf, y)) && groups[y] != []
  }

  /**
   * `groupByYear`: one group per year that occurs, each holding that year's
   * posts in list order (each post is pushed onto its year's group as the
   * list is walked).
   */
  function GroupByYear(posts: seq<BlogPost>, yearOf: BlogPost -> int): (groups: map<int, seq<BlogPost>>)
    ensures GroupsOf(posts, yearOf, groups)
    decreases |posts|
  {
    if posts == [] then map[]
    else
      var n := |posts| - 1;
      var prior := GroupByYear(posts[..n], yearOf);
      var y := yearOf(posts[n]);
      var groups := prior[y := (if y in prior then prior[y] else []) + [posts[n]]];
      GroupStep(posts, yearOf, prior, groups);
      groups
  }

  lemma GroupStep(posts: seq<BlogPost>, yearOf: BlogPost -> int, prior: map<int, seq<BlogPost>>, groups: map<int, seq<BlogPost>>)
    requires posts != []
    requires GroupsOf(posts[..|posts| - 1], yearOf, prior)
    requires var y := yearOf(posts[|posts| - 1]);
      groups == prior[y := (if y in prior then prior[y] else []) + [posts[|posts| - 1]]]
    ensures GroupsOf(posts, yearOf, groups)
  {
    YearSetSnoc(posts, yearOf);
    forall y | y in groups ensures groups[y] == StableSort.Filter(posts, InYear(yearOf, y)) && groups[y] != [] {
      GroupEntry(posts, yearOf, prior, groups, y);
    }
  }

  lemma GroupEntry(posts: seq<BlogPost>, yearOf: BlogPost -> int, prior: map<int, seq<BlogPost>>, groups: map<int, seq<BlogPost>>, y: int)
    requires posts != []
    requires GroupsOf(posts[..|posts| - 1], yearOf, prior)
    requires var y := yearOf(posts[|posts| - 1]);
      groups == prior[y := (if y in prior then prior[y] else []) + [posts[|posts| - 1]]]
    requires y in groups
    ensures groups[y] == StableSort.Filter(posts, InYear(yearOf, y)) && groups[y] != []
  {
    var n := |posts| - 1;
    var before := if y in prior then prior[y] else [];
    if y !in prior {
      assert y !in YearSet(posts[..n], yearOf);
      NoPostsOfYear(posts[..n], yearOf, y);
    }
    GroupOfYear(posts, yearOf, y, before);
  }

  /** A year no post falls in has an empty filter. */
  lemma NoPostsOfYear(posts: seq<BlogPost>, yearOf: BlogPost -> int, y: int)
    requires y !in YearSet(posts, yearOf)
    ensures StableSort.Filter(posts, InYear(yearOf, y)) == []
  {
    forall p | p in posts ensures !InYear(yearOf, y)(p) {
      assert yearOf(p) in YearSet(posts, yearOf);
    }
    StableSort.FilterNone(posts, InYear(yearOf, y));
  }

  lemma YearSetSnoc(posts: seq<BlogPost>, yearOf: BlogPost -> int)
    requires posts != []
    ensures YearSet(posts, yearOf) == YearSet(posts[..|posts| - 1], yearOf) + {yearOf(posts[|posts| - 1])}
  {
    var n := |posts| - 1;
    assert posts == posts[..n] + [posts[n]];
  }

  /** Walking one more post extends its year's group and no other. */
  lemma GroupOfYear(posts: seq<BlogPost>, yearOf: BlogPost -> int, y: int, before: seq<BlogPost>)
    requires posts != []
    requires before == StableSort.Filter(posts[..|posts| - 1], InYear(yearOf, y))
    ensures StableSort.Filter(posts, InYear(yearOf, y))
         == before + (if yearOf(posts[|posts| - 1]) == y then [posts[|posts| - 1]] else [])
  {
    StableSort.FilterSnoc(posts, InYear(yearOf, y));
  }

  /** Every post is listed under its own year and under no other. */
  lemma EachPostInItsYear(posts: seq<BlogPost>, yearOf: BlogPost -> int, p: BlogPost, y: int)
    requires p in posts
    ensures var groups := GroupByYear(posts, yearOf);
      yearOf(p) in groups && p in groups[yearOf(p)]
      && (y in groups && p in groups[y] ==> y == yearOf(p))
  {
    StableSort.FilterMembers(posts, InYear(yearOf, yearOf(p)));
    StableSort.FilterMembers(posts, InYear(yearOf, y));
  }

  /** The years with at least one post, each once, in order of first
      appearance. */
  function DistinctYears(posts: seq<BlogPost>, yearOf: BlogPost -> int): (r: seq<int>)
    ensures StableSort.Distinct(r)
    ensures forall y :: y in r <==> y in YearSet(posts, yearOf)
    decreases |posts|
  {
    if posts == [] then []
    else
      var n := |posts| - 1;
      var prior := DistinctYears(posts[..n], yearOf);
      var y := yearOf(posts[n]);
      assert posts == posts[..n] + [posts[n]];
      if y in prior then prior else prior + [y]
  }

  /** The comparator `(a, b) => Number(b) - Number(a)`: later years first. */
  predicate Later(a: int, b: int) {
    a > b
  }

  lemma LaterIsStrictWeakOrder()
    ensures StableSort.StrictWeakOrder(Later)
  {
  }

  /**
   * `Object.keys(grouped).sort(...)`: each year once, latest first. Years
   * are distinct, so the order the keys come in does not matter.
   */
  function YearsDescending(posts: seq<BlogPost>, yearOf: BlogPost -> int): (r: seq<int>)
    ensures forall y :: y in r <==> y in GroupByYear(posts, yearOf)
  {
    var keys := DistinctYears(posts, yearOf);
    var r := StableSort.Sort(keys, Later);
    StableSort.SortPermutes(keys, Later);
    assert forall y :: y in r <==> y in keys by {
      forall y ensures y in r <==> y in keys {
        assert y in r <==> y in multiset(r);
        assert y in keys <==> y in multiset(keys);
      }
    }
    r
  }

  /** The section headings run strictly from the latest year to the
      earliest, each year once. */
  lemma YearsStrictlyDescending(posts: seq<BlogPost>, yearOf: BlogPost -> int)
    ensures var r := YearsDescending(posts, yearOf);
      forall i, j :: 0 <= i < j < |r| ==> r[i] > r[j]
  {
    var keys := DistinctYears(posts, yearOf);
    var r := YearsDescending(posts, yearOf);
    LaterIsStrictWeakOrder();
    StableSort.SortSorted(keys, Later);
    StableSort.SortPreservesDistinct(keys, Later);
    forall i, j | 0 <= i < j < |r| ensures r[i] > r[j] {
      assert !Later(r[j], r[i]);
      assert r[i] != r[j];
    }
  }

  /** Walking the sections in order lists every post exactly once: the
      groups of the sorted years hold all the posts between them. */
  lemma FeedShowsEveryPost(posts: seq<BlogPost>, yearOf: BlogPost -> int, p: BlogPost)
    requires p in posts
    ensures var groups, years := GroupByYear(posts, yearOf), YearsDescending(posts, yearOf);
      exists k :: 0 <= k < |years| && years[k] in groups && p in groups[years[k]]
  {
    var groups, years := GroupByYear(posts, yearOf), YearsDescending(posts, yearOf);
    EachPostInItsYear(posts, yearOf, p, yearOf(p));
    var k :| 0 <= k < |years| && years[k] == yearOf(p);
  }

  // ---------------------------------------------------------------------
  // Navigation links
  // ---------------------------------------------------------------------

  datatype NavLink = NavLink(href: string, caption: string)

  const NavLinks: seq<NavLink> := [
    NavLink("/", "Home"),
    NavLink("/blog", "Blog"),
    NavLink("/annotations", "Annotations"),
    NavLink("/projects", "Projects")
  ]

  predicate IsBottomLink(l: NavLink) {
    l.caption != "Home" && l.caption != "Blog"
  }

  /** The feed's bottom links: the navigation without Home and Blog. */
  function BottomLinks(links: seq<NavLink>): (r: seq<NavLink>)
    ensures forall l :: l in r <==> l in links && l.caption != "Home" && l.caption != "Blog"
  {
    StableSort.FilterMembers(links, IsBottomLink);
    StableSort.Filter(links, IsBottomLink)
  }

  /** For the site's navigation these are Annotations and then Projects. */
  lemma BottomLinksOfSite()
    ensures BottomLinks(NavLinks) == [NavLink("/annotations", "Annotations"), NavLink("/projects", "Projects")]
  {
    var l := NavLinks;
    assert !IsBottomLink(l[0]) && !IsBottomLink(l[1]) && IsBottomLink(l[2]) && IsBottomLink(l[3]);
    assert StableSort.Filter(l[3..], IsBottomLink) == [l[3]] by {
      assert l[3..][1..] == [];
    }
    assert StableSort.Filter(l[2..], IsBottomLink) == [l[2], l[3]] by {
      assert l[2..][1..] == l[3..];
    }
    assert StableSort.Filter(l[1..], IsBottomLink) == [l[2], l[3]] by {
      assert l[1..][1..] == l[2..];
    }
  }

  // ---------------------------------------------------------------------
  // The layout switcher
  // ---------------------------------------------------------------------

  datatype Layout = MinimalistBio | BentoBox | Magazine | BlogFeed | StorytellingScroll | SplitHero

  /** The ids the switcher panel offers, in its order. */
  const LayoutIds: seq<string> := ["minimalist", "bento", "magazine", "blog-feed", "storytelling", "split-hero"]

  const LayoutComponents: map<string, Layout> := map[
    "minimalist" := MinimalistBio,
    "bento" := BentoBox,
    "magazine" := Magazine,
    "blog-feed" := BlogFeed,
    "storytelling" := StorytellingScroll,
    "split-hero" := SplitHero
  ]

  /** The page starts on the minimalist layout. */
  const InitialLayout: string := "minimalist"

  /** `LAYOUT_COMPONENTS[activeLayout] ?? MinimalistBio`. */
  function LayoutFor(active: string): (r: Layout)
    ensures active !in LayoutIds ==> r == MinimalistBio
  {
    if active in LayoutComponents then LayoutComponents[active] else MinimalistBio
  }

  /** The id the switcher panel offers for a layout. */
  function LayoutId(l: Layout): (id: string)
    ensures id in LayoutIds
  {
    match l
    case MinimalistBio => "minimalist"
    case BentoBox => "bento"
    case Magazine => "magazine"
    case BlogFeed => "blog-feed"
    case StorytellingScroll => "storytelling"
    case SplitHero => "split-hero"
  }

  /** Every offered id renders its own layout and every layout is offered:
      the ids and the layouts correspond one to one. */
  lemma SwitcherIsOneToOne(l: Layout, id: string)
    ensures LayoutFor(LayoutId(l)) == l
    ensures id in LayoutIds ==> LayoutId(LayoutFor(id)) == id
  {
  }

  /** The initial layout is offered and renders the minimalist bio. */
  lemma InitialLayoutShown()
    ensures InitialLayout in LayoutIds && LayoutFor(InitialLayout) == MinimalistBio
  {
  }

  // ---------------------------------------------------------------------
  // Post prefixes
  // ---------------------------------------------------------------------

  /** The magazine's hero post: the first one, when there is one. */
  function Featured(posts: seq<BlogPost>): (r: Option<BlogPost>)
    ensures r.None? <==> posts == []
    ensures r.Some? ==> r.value == posts[0]
  {
    if posts == [] then None else Some(posts[0])
  }

  /** The magazine's other posts: `posts.slice(1, 5)`. */
  function MagazineRest(posts: seq<BlogPost>): (r: seq<BlogPost>)
    ensures |r| <= 4
  {
    Slice(posts, 1, 5)
  }

  /** The magazine shows the first five posts, in order, once each. */
  lemma MagazineShowsFirstFive(posts: seq<BlogPost>)
    ensures var shown := (if Featured(posts).Some? then [Featured(posts).value] else []) + MagazineRest(posts);
      shown == posts[..if |posts| < 5 then |posts| else 5]
  {
    if posts != [] {
      assert posts[..if |posts| < 5 then |posts| else 5] == [posts[0]] + posts[1..if |posts| < 5 then |posts| else 5];
    }
  }

  /** The storytelling and split-hero layouts' `posts.slice(0, 3)`. */
  function TopPosts(posts: seq<BlogPost>): (r: seq<BlogPost>)
    ensures r == posts[..if |posts| < 3 then |posts| else 3]
  {
    Slice(posts, 0, 3)
  }
}
