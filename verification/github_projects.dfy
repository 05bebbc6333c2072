/**
 * The projects page's repository list: the owner's repositories as the
 * GitHub API returns them, forks removed, ranked by stars and then by most
 * recent push, cut to the first `limit`.
 */
module GithubProjects {
  import opened Wrappers
  import opened JsString
  import StableSort

  /** A repository record. `pushedAt` is the push time as a timestamp: the
      source parses an ISO date string at this point. */
  datatype Repo = Repo(
    name: string,
    description: Option<string>,
    htmlUrl: string,
    stars: int,
    language: Option<string>,
    fork: bool,
    pushedAt: int)

  /** The HTTP response: its `ok` flag and, when ok, the parsed body. */
  datatype Response = Response(ok: bool, status: int, repos: seq<Repo>)

  const DefaultLimit: int := 6

  predicate IsOwn(r: Repo) {
    !r.fork
  }

  /** The comparator: more stars first; for equal stars, the later push first. */
  predicate RanksBefore(a: Repo, b: Repo) {
    a.stars > b.stars || (a.stars == b.stars && a.pushedAt > b.pushedAt)
  }

  lemma RanksBeforeIsStrictWeakOrder()
    ensures StableSort.StrictWeakOrder(RanksBefore)
  {
  }

  /** The ranking of the non-fork repositories. */
  function Ranked(repos: seq<Repo>): seq<Repo> {
    StableSort.Sort(StableSort.Filter(repos, IsOwn), RanksBefore)
  }

  /**
   * `fetchTopRepos`: nothing when the response is not ok; otherwise the
   * first `limit` of the ranked non-fork repositories (`slice(0, limit)`,
   * so a negative limit counts from the end).
   */
  function FetchTopRepos(res: Response, limit: int := DefaultLimit): (r: seq<Repo>)
    ensures !res.ok ==> r == []
    ensures forall x :: x in r ==> !x.fork && x in res.repos
    ensures res.ok && 0 <= limit ==> |r| == if limit < |Ranked(res.repos)| then limit else |Ranked(res.repos)|
    ensures res.ok ==> r == Slice(Ranked(res.repos), 0, limit)
  {
    if !res.ok then []
    else
      RankedMembers(res.repos);
      Slice(Ranked(res.repos), 0, limit)
  }

  lemma RankedMembers(repos: seq<Repo>)
    ensures forall x :: x in Ranked(repos) ==> x in repos && !x.fork
  {
    StableSort.SortPermutes(StableSort.Filter(repos, IsOwn), RanksBefore);
    StableSort.FilterMembers(repos, IsOwn);
    forall x | x in Ranked(repos) ensures x in repos && !x.fork {
      assert x in multiset(Ranked(repos));
      assert x in StableSort.Filter(repos, IsOwn);
    }
  }

  /** Stars never increase along the result, and equal stars come with
      pushes that never get later. */
  lemma TopReposOrdered(res: Response, limit: int)
    ensures var r := FetchTopRepos(res, limit);
      forall i, j :: 0 <= i < j < |r| ==>
        r[i].stars > r[j].stars || (r[i].stars == r[j].stars && r[i].pushedAt >= r[j].pushedAt)
  {
    if res.ok {
      var ranked := Ranked(res.repos);
      RanksBeforeIsStrictWeakOrder();
      StableSort.SortSorted(StableSort.Filter(res.repos, IsOwn), RanksBefore);
      var r := FetchTopRepos(res, limit);
      forall i, j | 0 <= i < j < |r|
        ensures r[i].stars > r[j].stars || (r[i].stars == r[j].stars && r[i].pushedAt >= r[j].pushedAt)
      {
        assert r[i] == ranked[i] && r[j] == ranked[j];
        assert !RanksBefore(ranked[j], ranked[i]);
      }
    }
  }

  /** The result is a top-k: no own repository left out ranks strictly
      above one that was kept. */
  lemma TopReposAreTop(res: Response, limit: int)
    requires res.ok
    ensures var ranked, r := Ranked(res.repos), FetchTopRepos(res, limit);
      && r == ranked[..|r|]
      && forall i, j :: 0 <= i < |r| <= j < |ranked| ==> !RanksBefore(ranked[j], r[i])
  {
    var ranked := Ranked(res.repos);
    RanksBeforeIsStrictWeakOrder();
    StableSort.SortSorted(StableSort.Filter(res.repos, IsOwn), RanksBefore);
    var r := FetchTopRepos(res, limit);
    assert r == ranked[..|r|];
  }

  /** Nothing is lost or duplicated before the cut: the ranking holds each
      own repository as often as the response does. */
  lemma RankedIsPermutation(res: Response)
    ensures multiset(Ranked(res.repos)) == multiset(StableSort.Filter(res.repos, IsOwn))
    ensures forall x :: x in res.repos && !x.fork ==> x in Ranked(res.repos)
  {
    var own := StableSort.Filter(res.repos, IsOwn);
    StableSort.SortPermutes(own, RanksBefore);
    StableSort.FilterMembers(res.repos, IsOwn);
    forall x | x in res.repos && !x.fork ensures x in Ranked(res.repos) {
      assert x in own;
      assert x in multiset(own);
      assert x in multiset(Ranked(res.repos));
    }
  }

  /** Repositories with equal stars and equal push times keep the order in
      which the API listed them. */
  lemma TiesKeepResponseOrder(res: Response, e: Repo)
    ensures StableSort.Filter(Ranked(res.repos), x => StableSort.Tied(RanksBefore, x, e))
         == StableSort.Filter(StableSort.Filter(res.repos, IsOwn), x => StableSort.Tied(RanksBefore, x, e))
  {
    RanksBeforeIsStrictWeakOrder();
    StableSort.SortIsStable(StableSort.Filter(res.repos, IsOwn), RanksBefore, e);
  }

  /** With the default limit, at most six repositories are shown. */
  lemma DefaultShowsSix(res: Response)
    ensures |FetchTopRepos(res)| <= 6
    ensures res.ok && |Ranked(res.repos)| >= 6 ==> |FetchTopRepos(res)| == 6
  {
  }
}
