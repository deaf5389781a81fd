/** `generateLeaderDigest`: group the reports by category in first-seen order,
    summarize each group's bullet lines, and join the per-category blocks with a
    blank line. The summarization call of group `i` is an input, `outcomes[i]`;
    `Promise.all` keeps results in index order, so the blocks are a sequential map
    over the groups. */
module Digest {
  import opened Text
  import opened Moderation

  /** A report as the digest reads it. */
  datatype Problem = Problem(title: string, description: string, category: string)

  /** One entry of `Object.entries(byCategory)`: a category and its reports. */
  datatype Group = Group(category: string, items: seq<Problem>)

  /** The `maxLength` the digest passes to `summarizeText`. */
  const DigestMaxLength: int := 150

  /** The separator between the blocks of the digest. */
  const BlockSeparator: string := "\n\n"

  /** The bullet that starts every report line. */
  const Bullet: string := "\U{2022} "

  // ---------------------------------------------------------------------------
  // Grouping: the specification

  /** The categories of `ps`, each once, in the order they first appear. */
  function FirstSeen(ps: seq<Problem>): (cs: seq<string>)
    ensures forall k :: 0 <= k < |ps| ==> ps[k].category in cs
    ensures |cs| <= |ps|
  {
    if ps == [] then []
    else
      var cs' := FirstSeen(ps[..|ps| - 1]);
      var c := ps[|ps| - 1].category;
      assert forall k :: 0 <= k < |ps| - 1 ==> ps[..|ps| - 1][k] == ps[k];
      if c in cs' then cs' else cs' + [c]
  }

  /** Each first-seen category is listed once and is the category of some report. */
  lemma {:induction false} FirstSeenDistinctAndSound(ps: seq<Problem>)
    ensures Distinct(FirstSeen(ps))
    ensures forall j :: 0 <= j < |FirstSeen(ps)| ==>
      exists k :: 0 <= k < |ps| && ps[k].category == FirstSeen(ps)[j]
  {
    if ps != [] {
      var ps' := ps[..|ps| - 1];
      FirstSeenDistinctAndSound(ps');
      var cs', cs := FirstSeen(ps'), FirstSeen(ps);
      forall j | 0 <= j < |cs|
        ensures exists k :: 0 <= k < |ps| && ps[k].category == cs[j]
      {
        if j < |cs'| {
          var k :| 0 <= k < |ps'| && ps'[k].category == cs'[j];
          assert ps[k] == ps'[k];
        } else {
          assert ps[|ps| - 1].category == cs[j];
        }
      }
    }
  }

  predicate Distinct(cs: seq<string>)
  {
    forall i, j :: 0 <= i < j < |cs| ==> cs[i] != cs[j]
  }

  /** The reports of category `c`, in input order. */
  function Members(ps: seq<Problem>, c: string): (ms: seq<Problem>)
    ensures forall m :: 0 <= m < |ms| ==> ms[m].category == c
    ensures |ms| <= |ps|
  {
    if ps == [] then []
    else Members(ps[..|ps| - 1], c) + (if ps[|ps| - 1].category == c then [ps[|ps| - 1]] else [])
  }

  /** The grouping `generateLeaderDigest` computes: one group per first-seen
      category, holding that category's reports in input order. */
  function Grouping(ps: seq<Problem>): (gs: seq<Group>)
  {
    var cs := FirstSeen(ps);
    seq(|cs|, i requires 0 <= i < |cs| => Group(cs[i], Members(ps, cs[i])))
  }

  // ---------------------------------------------------------------------------
  // Grouping: the `reduce` over a mutable accumulator

  /** The accumulator after the reports `seen`: its keys in insertion order are the
      first-seen categories, and each key holds that category's reports. */
  ghost predicate Mirrors(seen: seq<Problem>, keys: seq<string>, acc: map<string, seq<Problem>>)
  {
    && keys == FirstSeen(seen)
    && (forall c :: c in acc <==> c in keys)
    && (forall c :: c in acc ==> acc[c] == Members(seen, c))
  }

  /** The `reduce` that pushes each report onto `acc[p.category]`, followed by
      `Object.entries`: `keys` is the accumulator's key insertion order. */
  method GroupByCategory(problems: seq<Problem>) returns (groups: seq<Group>)
    ensures groups == Grouping(problems)
  {
    var keys: seq<string> := [];
    var acc: map<string, seq<Problem>> := map[];
    var n := 0;
    while n < |problems|
      invariant n <= |problems|
      invariant Mirrors(problems[..n], keys, acc)
    {
      var p := problems[n];
      MirrorsStep(problems[..n], p, keys, acc);
      assert problems[..n + 1] == problems[..n] + [p];
      var bucket := if p.category in acc then acc[p.category] else [];
      if p.category !in acc {
        keys := keys + [p.category];
      }
      acc := acc[p.category := bucket + [p]];
      n := n + 1;
    }
    assert problems[..n] == problems;
    groups := seq(|keys|, j requires 0 <= j < |keys| => Group(keys[j], acc[keys[j]]));
    MirrorsGrouping(problems, keys, acc);
  }

  /** One step of the `reduce` keeps the accumulator in step with the reports seen. */
  lemma MirrorsStep(seen: seq<Problem>, p: Problem, keys: seq<string>, acc: map<string, seq<Problem>>)
    requires Mirrors(seen, keys, acc)
    ensures var bucket := if p.category in acc then acc[p.category] else [];
      Mirrors(seen + [p], if p.category in acc then keys else keys + [p.category],
              acc[p.category := bucket + [p]])
  {
    var c0 := p.category;
    FirstSeenSnoc(seen, p);
    if c0 in acc {
      var acc' := acc[c0 := acc[c0] + [p]];
      forall c | c in acc' ensures acc'[c] == Members(seen + [p], c) {
        MembersSnoc(seen, p, c);
      }
    } else {
      var acc' := acc[c0 := [p]];
      MembersEmptyIffAbsent(seen, c0);
      forall c | c in acc' ensures acc'[c] == Members(seen + [p], c) {
        MembersSnoc(seen, p, c);
      }
      assert forall c :: c in acc' <==> c in keys + [c0];
    }
  }

  /** Listing the accumulator's entries in key order gives the grouping. */
  lemma MirrorsGrouping(ps: seq<Problem>, keys: seq<string>, acc: map<string, seq<Problem>>)
    requires Mirrors(ps, keys, acc)
    ensures seq(|keys|, j requires 0 <= j < |keys| => Group(keys[j], acc[keys[j]])) == Grouping(ps)
  {
  }

  // ---------------------------------------------------------------------------
  // Grouping: its properties

  /** Appending a report extends only its own category's members. */
  lemma MembersSnoc(ps: seq<Problem>, p: Problem, c: string)
    ensures Members(ps + [p], c) == Members(ps, c) + (if p.category == c then [p] else [])
  {
    assert (ps + [p])[..|ps|] == ps;
  }

  /** A category has no members exactly when it is not among the first-seen
      categories: every group is non-empty and no report's category is missed. */
  lemma {:induction false} MembersEmptyIffAbsent(ps: seq<Problem>, c: string)
    ensures Members(ps, c) == [] <==> c !in FirstSeen(ps)
  {
    if ps != [] {
      MembersEmptyIffAbsent(ps[..|ps| - 1], c);
    }
  }

  /** Every group holds at least one report, and the count in its header is at
      least 1. */
  lemma GroupsNonEmpty(ps: seq<Problem>, i: int)
    requires 0 <= i < |Grouping(ps)|
    ensures |Grouping(ps)[i].items| >= 1
  {
    MembersEmptyIffAbsent(ps, FirstSeen(ps)[i]);
  }

  /** Stability: the members of a concatenation are the members of the first part
      followed by those of the second, so reports keep their input order. */
  lemma {:induction false} MembersAppend(a: seq<Problem>, b: seq<Problem>, c: string)
    ensures Members(a + b, c) == Members(a, c) + Members(b, c)
    decreases |b|
  {
    if b != [] {
      var b' := b[..|b| - 1];
      var p := b[|b| - 1];
      assert a + b == (a + b') + [p];
      assert b == b' + [p];
      MembersSnoc(a + b', p, c);
      MembersSnoc(b', p, c);
      MembersAppend(a, b', c);
    } else {
      assert a + b == a;
    }
  }

  /** First-seen order: if category `i` is listed before category `j`, then some
      report of category `i` comes before every report of category `j`. */
  lemma {:induction false} FirstSeenOrder(ps: seq<Problem>, i: int, j: int, k: int)
    requires 0 <= i < j < |FirstSeen(ps)|
    requires 0 <= k < |ps| && ps[k].category == FirstSeen(ps)[j]
    ensures exists k' :: 0 <= k' < k && ps[k'].category == FirstSeen(ps)[i]
  {
    var ps' := ps[..|ps| - 1];
    var cs' := FirstSeen(ps');
    var cs := FirstSeen(ps);
    FirstSeenDistinctAndSound(ps');
    assert cs == cs' || cs == cs' + [ps[|ps| - 1].category];
    assert i < |cs'|;
    if k < |ps| - 1 {
      assert ps'[k] == ps[k];
      // report k is in the prefix, so category j was already seen there
      assert j < |cs'|;
      FirstSeenOrder(ps', i, j, k);
      var k' :| 0 <= k' < k && ps'[k'].category == cs'[i];
      assert ps[k'] == ps'[k'];
    } else {
      var k' :| 0 <= k' < |ps'| && ps'[k'].category == cs'[i];
      assert ps[k'] == ps'[k'];
    }
  }

  /** The reports of the groups, group after group. */
  function Flatten(gs: seq<Group>): seq<Problem>
  {
    if gs == [] then [] else gs[0].items + Flatten(gs[1..])
  }

  /** The sum of the group sizes, the `reports` counts of the headers. */
  function SumSizes(gs: seq<Group>): nat
  {
    if gs == [] then 0 else |gs[0].items| + SumSizes(gs[1..])
  }

  /** The members of each listed category, category after category. */
  ghost function Gather(ps: seq<Problem>, cs: seq<string>): seq<Problem>
  {
    if cs == [] then [] else Members(ps, cs[0]) + Gather(ps, cs[1..])
  }

  lemma {:induction false} GatherSnoc(ps: seq<Problem>, p: Problem, cs: seq<string>)
    requires Distinct(cs)
    ensures multiset(Gather(ps + [p], cs)) ==
      multiset(Gather(ps, cs)) + (if p.category in cs then multiset{p} else multiset{})
  {
    if cs != [] {
      assert Distinct(cs[1..]);
      GatherSnoc(ps, p, cs[1..]);
      MembersSnoc(ps, p, cs[0]);
      assert p.category == cs[0] ==> p.category !in cs[1..];
      assert p.category in cs <==> p.category == cs[0] || p.category in cs[1..];
    }
  }

  lemma {:induction false} GatherAll(ps: seq<Problem>, cs: seq<string>)
    requires Distinct(cs)
    requires forall k :: 0 <= k < |ps| ==> ps[k].category in cs
    ensures multiset(Gather(ps, cs)) == multiset(ps)
    decreases |ps|
  {
    if ps == [] {
      GatherEmpty(cs);
    } else {
      var ps' := ps[..|ps| - 1];
      var p := ps[|ps| - 1];
      assert ps == ps' + [p];
      GatherAll(ps', cs);
      GatherSnoc(ps', p, cs);
    }
  }

  lemma {:induction false} GatherEmpty(cs: seq<string>)
    ensures Gather([], cs) == []
  {
    if cs != [] {
      GatherEmpty(cs[1..]);
    }
  }

  lemma {:induction false} FlattenIsGather(ps: seq<Problem>, gs: seq<Group>, cs: seq<string>)
    requires |gs| == |cs|
    requires forall i :: 0 <= i < |gs| ==> gs[i].items == Members(ps, cs[i])
    ensures Flatten(gs) == Gather(ps, cs)
  {
    if gs != [] {
      FlattenIsGather(ps, gs[1..], cs[1..]);
    }
  }

  lemma {:induction false} SumSizesIsLength(gs: seq<Group>)
    ensures SumSizes(gs) == |Flatten(gs)|
  {
    if gs != [] {
      SumSizesIsLength(gs[1..]);
    }
  }

  /** The groups partition the reports: read group after group they are a
      permutation of the input, so none is dropped or duplicated, and the group
      sizes add up to the number of reports. */
  lemma GroupingIsPartition(ps: seq<Problem>)
    ensures multiset(Flatten(Grouping(ps))) == multiset(ps)
    ensures SumSizes(Grouping(ps)) == |ps|
  {
    var cs := FirstSeen(ps);
    FirstSeenDistinctAndSound(ps);
    FlattenIsGather(ps, Grouping(ps), cs);
    GatherAll(ps, cs);
    SumSizesIsLength(Grouping(ps));
    assert |multiset(Flatten(Grouping(ps)))| == |Flatten(Grouping(ps))|;
  }

  /** Appending a report adds its category at the end, unless already seen. */
  lemma FirstSeenSnoc(ps: seq<Problem>, p: Problem)
    ensures FirstSeen(ps + [p]) ==
      if p.category in FirstSeen(ps) then FirstSeen(ps) else FirstSeen(ps) + [p.category]
  {
    assert (ps + [p])[..|ps|] == ps;
  }

  /** Categories `[A, B, A, C]` give the groups A, B, C, in that order. */
  lemma FirstSeenExample(a: Problem, b: Problem, a2: Problem, c: Problem)
    requires a.category == a2.category == "A" && b.category == "B" && c.category == "C"
    ensures FirstSeen([a, b, a2, c]) == ["A", "B", "C"]
  {
    assert FirstSeen([a, b]) == ["A", "B"] by {
      FirstSeenSnoc([], a);
      assert [] + [a] == [a];
      FirstSeenSnoc([a], b);
      assert [a] + [b] == [a, b];
    }
    assert FirstSeen([a, b, a2]) == ["A", "B"] by {
      FirstSeenSnoc([a, b], a2);
      assert [a, b] + [a2] == [a, b, a2];
    }
    assert FirstSeen([a, b, a2, c]) == ["A", "B", "C"] by {
      FirstSeenSnoc([a, b, a2], c);
      assert [a, b, a2] + [c] == [a, b, a2, c];
    }
  }

  /** In the same input, group A holds the first and third report, in that order. */
  lemma MembersExample(a: Problem, b: Problem, a2: Problem, c: Problem)
    requires a.category == a2.category == "A" && b.category == "B" && c.category == "C"
    ensures Members([a, b, a2, c], "A") == [a, a2]
  {
    assert Members([a, b], "A") == [a] by {
      MembersSnoc([], a, "A");
      assert [] + [a] == [a];
      MembersSnoc([a], b, "A");
      assert [a] + [b] == [a, b];
    }
    assert Members([a, b, a2, c], "A") == [a, a2] by {
      MembersSnoc([a, b], a2, "A");
      assert [a, b] + [a2] == [a, b, a2];
      MembersSnoc([a, b, a2], c, "A");
      assert [a, b, a2] + [c] == [a, b, a2, c];
    }
  }

  // ---------------------------------------------------------------------------
  // Rendering

  /** `• title: description`: the bullet, the title, a colon and a space, then the
      description. */
  function RenderLine(p: Problem): (line: string)
    ensures |line| == |Bullet| + |p.title| + 2 + |p.description|
    ensures line[..|Bullet|] == Bullet
    ensures line[|Bullet|..|Bullet| + |p.title|] == p.title
    ensures line[|Bullet| + |p.title|..|Bullet| + |p.title| + 2] == ": "
    ensures line[|Bullet| + |p.title| + 2..] == p.description
  {
    Bullet + p.title + ": " + p.description
  }

  /** The lines of `items`, one per report, in order. */
  function Lines(items: seq<Problem>): (lines: seq<string>)
    ensures |lines| == |items|
    ensures forall i :: 0 <= i < |items| ==> lines[i] == RenderLine(items[i])
  {
    seq(|items|, i requires 0 <= i < |items| => RenderLine(items[i]))
  }

  /** The group's lines joined by newlines: the text sent to the summarizer. No
      reports give the empty text, and the text starts with the first report's
      line. */
  function Combined(items: seq<Problem>): (text: string)
    ensures items == [] ==> text == ""
    ensures |items| == 1 ==> text == RenderLine(items[0])
    ensures |items| >= 1 ==> RenderLine(items[0]) <= text
  {
    Join(Lines(items), "\n")
  }

  /** Each further report adds a newline and its own line at the end. */
  lemma CombinedSnoc(items: seq<Problem>, p: Problem)
    requires |items| >= 1
    ensures Combined(items + [p]) == Combined(items) + "\n" + RenderLine(p)
  {
    assert Lines(items + [p]) == Lines(items) + [RenderLine(p)];
    JoinSnoc(Lines(items), RenderLine(p), "\n");
  }

  /** `CATEGORY (n reports):` and a newline: the upper-cased category, ` (`, the
      decimal count of the group's reports, then ` reports):` and a newline. */
  function Header(g: Group): (h: string)
    ensures |h| == |g.category| + |Decimal(|g.items|)| + 13
    ensures h[..|g.category|] == ToUpper(g.category)
    ensures h[|g.category|..|g.category| + 2] == " ("
    ensures h[|g.category| + 2..|h| - 11] == Decimal(|g.items|)
    ensures h[|h| - 11..] == " reports):\n"
  {
    ToUpper(g.category) + " (" + Decimal(|g.items|) + " reports):\n"
  }

  /** One block of the digest: the header, then the group's summary. */
  function RenderBlock(g: Group, outcome: SummaryOutcome): (block: string)
    ensures Header(g) <= block
    ensures block[|Header(g)|..] == SummarizeText(Combined(g.items), DigestMaxLength, outcome)
  {
    Header(g) + SummarizeText(Combined(g.items), DigestMaxLength, outcome)
  }

  /** The blocks, in group order; `outcomes[i]` is what group `i`'s call produced. */
  function RenderBlocks(gs: seq<Group>, outcomes: seq<SummaryOutcome>): (blocks: seq<string>)
    requires |outcomes| == |gs|
    ensures |blocks| == |gs|
  {
    seq(|gs|, i requires 0 <= i < |gs| => RenderBlock(gs[i], outcomes[i]))
  }

  /** The digest text for reports `ps`, given one summarization outcome per group. */
  function LeaderDigest(ps: seq<Problem>, outcomes: seq<SummaryOutcome>): string
    requires |outcomes| == |FirstSeen(ps)|
  {
    Join(RenderBlocks(Grouping(ps), outcomes), BlockSeparator)
  }

  /** `generateLeaderDigest(problems)`, given the outcome of each group's
      summarization call in group order. */
  method GenerateLeaderDigest(problems: seq<Problem>, outcomes: seq<SummaryOutcome>)
    returns (digest: string)
    requires |outcomes| == |FirstSeen(problems)|
    ensures digest == LeaderDigest(problems, outcomes)
    ensures problems == [] ==> digest == ""
  {
    var groups := GroupByCategory(problems);
    var blocks := RenderBlocks(groups, outcomes);
    digest := Join(blocks, BlockSeparator);
  }

  /** Block `i` is the `i`-th first-seen category's: its upper-cased name, its
      report count, and the summary of its lines under outcome `i`. */
  lemma BlockAt(ps: seq<Problem>, outcomes: seq<SummaryOutcome>, i: int)
    requires |outcomes| == |FirstSeen(ps)|
    requires 0 <= i < |outcomes|
    ensures var c := FirstSeen(ps)[i];
      RenderBlocks(Grouping(ps), outcomes)[i] ==
        ToUpper(c) + " (" + Decimal(|Members(ps, c)|) + " reports):\n"
        + SummarizeText(Combined(Members(ps, c)), DigestMaxLength, outcomes[i])
  {
  }

  /** A group whose summarization failed gets the truncation of its own lines:
      the first 150 characters and the ellipsis. */
  lemma FailedGroupGetsTruncation(ps: seq<Problem>, outcomes: seq<SummaryOutcome>, i: int)
    requires |outcomes| == |FirstSeen(ps)|
    requires 0 <= i < |outcomes| && !UsableSummary(outcomes[i])
    ensures var g := Grouping(ps)[i];
      RenderBlocks(Grouping(ps), outcomes)[i] ==
        Header(g) + Prefix(Combined(g.items), DigestMaxLength) + Ellipsis
  {
  }

  /** Partial degradation: changing the outcome of group `j` changes no other block. */
  lemma SiblingBlocksUnchanged(ps: seq<Problem>, o1: seq<SummaryOutcome>, o2: seq<SummaryOutcome>, j: int)
    requires |o1| == |o2| == |FirstSeen(ps)|
    requires forall i :: 0 <= i < |o1| && i != j ==> o1[i] == o2[i]
    ensures forall i :: 0 <= i < |o1| && i != j ==>
      RenderBlocks(Grouping(ps), o1)[i] == RenderBlocks(Grouping(ps), o2)[i]
  {
  }

  /** A single report whose summarization failed: the digest is its header and
      its own line, cut at 150 characters, then the ellipsis. */
  lemma SingleReportFallback(p: Problem, outcome: SummaryOutcome)
    requires !UsableSummary(outcome)
    ensures LeaderDigest([p], [outcome]) ==
      Header(Group(p.category, [p])) + Prefix(RenderLine(p), DigestMaxLength) + Ellipsis
  {
    var ps := [p];
    var g := Group(p.category, ps);
    GroupingSingle(p);
    assert Combined(ps) == RenderLine(p) by {
      assert seq(1, i requires 0 <= i < 1 => RenderLine(ps[i])) == [RenderLine(p)];
    }
    assert RenderBlocks([g], [outcome]) == [RenderBlock(g, outcome)];
  }

  lemma GroupingSingle(p: Problem)
    ensures Grouping([p]) == [Group(p.category, [p])]
  {
    assert [p][..0] == [];
    assert FirstSeen([p]) == [p.category];
    assert Members([p], p.category) == [p];
  }

  /** One road report with the summarizer unreachable: the header
      `ROAD (1 reports):`, then the report's whole line, then the ellipsis. */
  lemma SingleReportUnreachable(p: Problem)
    requires p == Problem("Pothole", "Large pothole on Main St", "road")
    ensures Header(Group("road", [p])) == "ROAD (1 reports):\n"
    ensures LeaderDigest([p], [SummaryThrew]) == Header(Group("road", [p])) + RenderLine(p) + Ellipsis
  {
    SingleReportFallback(p, SummaryThrew);
    RoadHeader(p);
    assert |RenderLine(p)| < DigestMaxLength;
  }

  lemma RoadHeader(p: Problem)
    ensures Header(Group("road", [p])) == "ROAD (1 reports):\n"
  {
    var u := ToUpper("road");
    assert u[0] == 'R' && u[1] == 'O' && u[2] == 'A' && u[3] == 'D';
    assert u == "ROAD";
    assert Decimal(1) == "1";
  }
}
