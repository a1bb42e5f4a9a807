/** The data side of the portfolio home page (portfolio/app/page.tsx): every
    fetched repository gets a `displayTitle`, taken from its README when one
    can be read and yields a non-empty title, and its name otherwise.

    The network is a parameter: `readme(owner, name)` is what the README
    request for that repository produced, and `decode` is the platform's
    base64 decoder `atob`, returning `None` where `atob` throws. */
module PortfolioPage {
  import opened Wrappers
  import opened JsText
  import ReadmeTitle
  import Topics

  datatype Owner = Owner(login: string)

  /** A repository record of the REST API, as the page declares it. */
  datatype Repo = Repo(
    id: int,
    name: string,
    description: string,
    htmlUrl: string,
    stargazersCount: int,
    forksCount: int,
    language: string,
    topics: Option<seq<string>>,
    defaultBranch: string,
    owner: Owner)

  /** A repository together with the title its card shows. */
  datatype RepoWithTitle = RepoWithTitle(repo: Repo, displayTitle: string)

  /** What the README request produced. */
  datatype ReadmeResponse =
    | Unreachable            // the request or the JSON parsing threw
    | NotOk(status: int)     // `readmeRes.ok` was false
    | Ok(content: string)    // the `content` field of the JSON body

  /** `atob`: `None` where it throws. */
  type Decoder = string -> Option<string>

  /** The README yields the title `t`: the response is ok, decodes, and the
      extractor finds a non-empty title there. */
  ghost predicate ReadmeGives(response: ReadmeResponse, decode: Decoder, t: string) {
    && response.Ok?
    && decode(response.content).Some?
    && ReadmeTitle.Extract(decode(response.content).value) == Some(t)
    && t != ""
  }

  /** The per-repository body of the `reposData.map` callback. */
  function DisplayTitle(repo: Repo, response: ReadmeResponse, decode: Decoder): (t: string)
    ensures t != repo.name ==> ReadmeGives(response, decode, t)
    ensures (exists t' :: ReadmeGives(response, decode, t')) ==> ReadmeGives(response, decode, t)
    ensures t == repo.name || IsTrimmed(t)
  {
    match response
    case Ok(content) =>
      (match decode(content)
       case Some(text) =>
         var extracted := ReadmeTitle.Extract(text);
         if extracted.Some? && extracted.value != "" then extracted.value else repo.name
       case None => repo.name)
    case _ => repo.name
  }

  /** A card's title is never empty unless the repository's name is. */
  lemma DisplayTitleNonEmpty(repo: Repo, response: ReadmeResponse, decode: Decoder)
    requires repo.name != ""
    ensures DisplayTitle(repo, response, decode) != ""
  {
  }

  /** Every failure on the way to a title falls back to the repository name:
      an unreachable README, a non-ok response, a throwing decode, or a README
      whose title is missing or empty. */
  lemma DisplayTitleFallsBackToName(repo: Repo, response: ReadmeResponse, decode: Decoder)
    requires forall t :: !ReadmeGives(response, decode, t)
    ensures DisplayTitle(repo, response, decode) == repo.name
  {
  }

  /** `reposData.map(...)` awaited with `Promise.all`. */
  function WithTitles(repos: seq<Repo>, readme: (string, string) -> ReadmeResponse, decode: Decoder): (r: seq<RepoWithTitle>)
    ensures |r| == |repos|
    ensures forall i | 0 <= i < |r| :: r[i].repo == repos[i]
    ensures forall i | 0 <= i < |r| ::
      r[i].displayTitle == DisplayTitle(repos[i], readme(repos[i].owner.login, repos[i].name), decode)
  {
    if repos == [] then []
    else
      var repo := repos[0];
      [RepoWithTitle(repo, DisplayTitle(repo, readme(repo.owner.login, repo.name), decode))]
        + WithTitles(repos[1..], readme, decode)
  }

  /** The repository records inside a list of titled repositories. */
  function Records(rs: seq<RepoWithTitle>): (r: seq<Repo>)
    ensures |r| == |rs|
  {
    if rs == [] then [] else [rs[0].repo] + Records(rs[1..])
  }

  /** Adding titles loses nothing: dropping them again gives back the fetched
      list, with its length, order and every field unchanged. */
  lemma {:induction false} WithTitlesKeepsRecords(repos: seq<Repo>, readme: (string, string) -> ReadmeResponse, decode: Decoder)
    ensures Records(WithTitles(repos, readme, decode)) == repos
  {
    if repos != [] {
      WithTitlesKeepsRecords(repos[1..], readme, decode);
      assert WithTitles(repos, readme, decode)[1..] == WithTitles(repos[1..], readme, decode);
    }
  }

  /** The repositories the page lists: the titled list, or none when fetching
      the list failed (`setRepos` is then never called and the state keeps its
      initial empty list). */
  function PageRepos(list: Option<seq<Repo>>, readme: (string, string) -> ReadmeResponse, decode: Decoder): (r: seq<RepoWithTitle>)
    ensures list.None? ==> r == []
    ensures list.Some? ==> Records(r) == list.value
    ensures list.Some? ==> forall i | 0 <= i < |r| ::
      r[i].displayTitle == DisplayTitle(list.value[i], readme(list.value[i].owner.login, list.value[i].name), decode)
  {
    match list
    case None => []
    case Some(repos) =>
      WithTitlesKeepsRecords(repos, readme, decode);
      WithTitles(repos, readme, decode)
  }

  /** The topic chips of a card on this page: at most three, no overflow badge. */
  function CardTopics(repo: Repo): (b: Topics.Block)
    ensures b.Hidden? <==> repo.topics.None? || |repo.topics.value| == 0
    ensures b.Shown? ==> b.overflow.None? && |b.chips| <= Topics.MaxChips
    ensures b.Shown? ==> |b.chips| <= |repo.topics.value| && b.chips == repo.topics.value[..|b.chips|]
    ensures b.Shown? ==> |b.chips| == Topics.ChipCount(|repo.topics.value|)
  {
    Topics.Render(repo.topics, false)
  }
}
