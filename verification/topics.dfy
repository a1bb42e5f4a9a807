/** The topic chips on a repository card: at most three topics, and on the
    projects page (src/app/page.tsx) a `+n` badge for the rest. The portfolio
    page (portfolio/app/page.tsx) renders the same chips without the badge. */
module Topics {
  import opened Wrappers

  /** Chips shown per card (`topics.slice(0, 3)`). */
  const MaxChips: nat := 3

  /** How many chips a list of `n` topics gets: `min(n, MaxChips)`. */
  function ChipCount(n: nat): nat {
    if n < MaxChips then n else MaxChips
  }

  /** What a card renders for its topics: nothing, or the chips and the
      optional overflow badge's number. */
  datatype Block = Hidden | Shown(chips: seq<string>, overflow: Option<nat>)

  /** `repo.topics && repo.topics.length > 0 && (...)`: a missing or empty
      topic list renders nothing; otherwise the first `MaxChips` topics, and,
      when asked for, a badge counting the topics left out. */
  function Render(topics: Option<seq<string>>, withOverflowBadge: bool): (b: Block)
    ensures b.Hidden? <==> topics.None? || |topics.value| == 0
    ensures b.Shown? ==> 0 < |b.chips| <= MaxChips && |b.chips| <= |topics.value|
    ensures b.Shown? ==> b.chips == topics.value[..|b.chips|]
    ensures b.Shown? ==> (|b.chips| < MaxChips ==> b.chips == topics.value)
    ensures b.Shown? ==> (b.overflow.Some? <==> withOverflowBadge && |topics.value| > MaxChips)
  {
    if topics.None? || |topics.value| == 0 then Hidden
    else
      var t := topics.value;
      var chips := if |t| <= MaxChips then t else t[..MaxChips];
      Shown(chips, if withOverflowBadge && |t| > MaxChips then Some(|t| - MaxChips) else None)
  }

  /** The chips and the badge account for every topic exactly once: the chips
      are followed by exactly `overflow` topics that are not shown. */
  lemma ChipsAndBadgeCoverTopics(topics: seq<string>)
    requires |topics| > 0
    ensures Render(Some(topics), true).Shown?
    ensures var b := Render(Some(topics), true);
      && topics == b.chips + topics[|b.chips|..]
      && |b.chips| + b.overflow.GetOr(0) == |topics|
  {
    var b := Render(Some(topics), true);
    assert topics == topics[..|b.chips|] + topics[|b.chips|..];
  }

  /** Without the badge, the chips are the same and nothing else is shown. */
  lemma BadgeOnlyAddsCount(topics: Option<seq<string>>)
    ensures Render(topics, false).Hidden? == Render(topics, true).Hidden?
    ensures Render(topics, false).Shown? ==>
      && Render(topics, false).chips == Render(topics, true).chips
      && Render(topics, false).overflow.None?
  {
  }
}
