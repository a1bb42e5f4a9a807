/** The data side of the projects page (src/app/page.tsx): the fetched
    repositories minus those whose name contains `.github`, each card showing
    up to three topic chips and a `+n` badge for the rest. */
module ProjectsPage {
  import opened Wrappers
  import opened JsText
  import Topics

  /** A repository record of the REST API, as this page declares it. */
  datatype Repo = Repo(
    id: int,
    name: string,
    description: string,
    htmlUrl: string,
    homepage: string,
    language: string,
    stargazersCount: int,
    forksCount: int,
    watchersCount: int,
    updatedAt: string,
    topics: Option<seq<string>>)

  /** The name fragment that hides a repository from the page. */
  const HiddenFragment: string := ".github"

  /** `!repo.name.includes('.github')`. */
  predicate IsListed(repo: Repo) {
    !Includes(repo.name, HiddenFragment)
  }

  /** `reposData.filter(...)`: the listed repositories, in their original order. */
  function Listed(repos: seq<Repo>): (r: seq<Repo>)
    ensures |r| <= |repos|
    ensures forall x | x in r :: IsListed(x) && x in repos
  {
    if repos == [] then []
    else (if IsListed(repos[0]) then [repos[0]] else []) + Listed(repos[1..])
  }

  /** Each listed repository is kept as many times as it was fetched, and each
      other one is dropped entirely. */
  lemma {:induction false} ListedCounts(repos: seq<Repo>, x: Repo)
    ensures multiset(Listed(repos))[x] == if IsListed(x) then multiset(repos)[x] else 0
  {
    if repos != [] {
      ListedCounts(repos[1..], x);
      assert repos == [repos[0]] + repos[1..];
    }
  }

  /** A fetched repository is kept exactly when `.github` does not occur in its name. */
  lemma ListedIffNoFragment(repos: seq<Repo>, x: Repo)
    requires x in repos
    ensures x in Listed(repos) <==> !exists i :: OccursAt(x.name, HiddenFragment, i)
  {
    ListedCounts(repos, x);
    assert x in Listed(repos) <==> multiset(Listed(repos))[x] > 0;
  }

  /** Filtering works element by element, so it keeps the original order. */
  lemma {:induction false} ListedDistributes(a: seq<Repo>, b: seq<Repo>)
    ensures Listed(a + b) == Listed(a) + Listed(b)
  {
    if a == [] {
      assert a + b == b;
    } else {
      ListedDistributes(a[1..], b);
      var head := if IsListed(a[0]) then [a[0]] else [];
      assert (a + b)[0] == a[0] && (a + b)[1..] == a[1..] + b;
      calc {
        Listed(a + b);
        head + Listed(a[1..] + b);
        head + (Listed(a[1..]) + Listed(b));
        (head + Listed(a[1..])) + Listed(b);
        Listed(a) + Listed(b);
      }
    }
  }

  /** Filtering an already filtered list changes nothing. */
  lemma {:induction false} ListedIdempotent(repos: seq<Repo>)
    ensures Listed(Listed(repos)) == Listed(repos)
  {
    if repos != [] {
      ListedIdempotent(repos[1..]);
      var head := if IsListed(repos[0]) then [repos[0]] else [];
      ListedDistributes(head, Listed(repos[1..]));
      if IsListed(repos[0]) {
        assert Listed(head) == head by {
          assert head[1..] == [];
        }
      }
    }
  }

  /** `idx` picks the elements of `sub` out of `full`, at strictly increasing positions. */
  ghost predicate Embeds(sub: seq<Repo>, full: seq<Repo>, idx: seq<int>) {
    && |idx| == |sub|
    && (forall k | 0 <= k < |idx| :: 0 <= idx[k] < |full| && sub[k] == full[idx[k]])
    && (forall k, l | 0 <= k < l < |idx| :: idx[k] < idx[l])
  }

  /** The listed repositories form a subsequence of the fetched ones. */
  lemma {:induction false} ListedIsSubsequence(repos: seq<Repo>) returns (idx: seq<int>)
    ensures Embeds(Listed(repos), repos, idx)
  {
    if repos == [] {
      idx := [];
    } else {
      var rest := ListedIsSubsequence(repos[1..]);
      if IsListed(repos[0]) {
        ConsEmbeds(Listed(repos[1..]), repos, rest);
        idx := [0] + Shift(rest);
      } else {
        ShiftEmbeds(Listed(repos[1..]), repos, rest);
        idx := Shift(rest);
      }
    }
  }

  /** Every position moved one to the right. */
  function Shift(idx: seq<int>): seq<int> {
    seq(|idx|, k requires 0 <= k < |idx| => idx[k] + 1)
  }

  lemma ShiftEmbeds(sub: seq<Repo>, full: seq<Repo>, rest: seq<int>)
    requires |full| > 0 && Embeds(sub, full[1..], rest)
    ensures Embeds(sub, full, Shift(rest))
  {
    var shifted := Shift(rest);
    forall k | 0 <= k < |shifted| ensures 0 <= shifted[k] < |full| && sub[k] == full[shifted[k]] {
      assert full[1..][rest[k]] == full[rest[k] + 1];
    }
  }

  lemma ConsEmbeds(sub: seq<Repo>, full: seq<Repo>, rest: seq<int>)
    requires |full| > 0 && Embeds(sub, full[1..], rest)
    ensures Embeds([full[0]] + sub, full, [0] + Shift(rest))
  {
    ShiftEmbeds(sub, full, rest);
    var idx := [0] + Shift(rest);
    var sub' := [full[0]] + sub;
    forall k | 0 <= k < |idx| ensures 0 <= idx[k] < |full| && sub'[k] == full[idx[k]] {
      if k > 0 {
        assert idx[k] == Shift(rest)[k - 1] && sub'[k] == sub[k - 1];
      }
    }
  }

  /** The repositories the page shows: the listed ones, or none when the list
      could not be fetched or was not a list (the `catch` leaves the state's
      initial empty list). */
  function PageRepos(list: Option<seq<Repo>>): (r: seq<Repo>)
    ensures list.None? ==> r == []
    ensures list.Some? ==> |r| <= |list.value|
    ensures forall x | x in r :: IsListed(x) && list.Some? && x in list.value
    ensures list.Some? ==> forall x :: multiset(r)[x] == if IsListed(x) then multiset(list.value)[x] else 0
    ensures list.Some? ==> exists idx :: Embeds(r, list.value, idx)
  {
    match list
    case None => []
    case Some(repos) =>
      ListedCountsAll(repos);
      ListedEmbeds(repos);
      Listed(repos)
  }

  /** `ListedIsSubsequence` as an existence statement. */
  lemma ListedEmbeds(repos: seq<Repo>)
    ensures exists idx :: Embeds(Listed(repos), repos, idx)
  {
    var idx := ListedIsSubsequence(repos);
  }

  /** `ListedCounts` for every repository at once. */
  lemma ListedCountsAll(repos: seq<Repo>)
    ensures forall x :: multiset(Listed(repos))[x] == if IsListed(x) then multiset(repos)[x] else 0
  {
    forall x ensures multiset(Listed(repos))[x] == if IsListed(x) then multiset(repos)[x] else 0 {
      ListedCounts(repos, x);
    }
  }

  /** The topic block of a card: up to three chips and a `+n` badge. */
  function CardTopics(repo: Repo): (b: Topics.Block)
    ensures b.Hidden? <==> repo.topics.None? || |repo.topics.value| == 0
    ensures b.Shown? ==> |b.chips| + b.overflow.GetOr(0) == |repo.topics.value|
    ensures b.Shown? ==> (b.overflow.Some? <==> |repo.topics.value| > Topics.MaxChips)
    ensures b.Shown? ==> b.chips == repo.topics.value[..Topics.ChipCount(|repo.topics.value|)]
    ensures b.Shown? ==>
      b.overflow == if |repo.topics.value| > Topics.MaxChips then Some(|repo.topics.value| - Topics.MaxChips) else None
  {
    var b := Topics.Render(repo.topics, true);
    if b.Shown? then Topics.ChipsAndBadgeCoverTopics(repo.topics.value); b else b
  }
}
