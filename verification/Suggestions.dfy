/** Choosing the folders to suggest: the topmost ones that are mostly media or
    documents. */
module Suggestions {
  import opened Prelude
  import opened FolderScan
  import Paths
  import PathText
  import ExtensionIds

  const MIN_FILES := 25
  const PERCENT := 80

  datatype Suggestion = Suggestion(localPath: string, fileCount: nat, counts: Counts)

  // ----- Which folders qualify -----

  /** The files that are not "other". */
  function NonOther(c: Counts): nat {
    c[1] + c[2] + c[3] + c[4]
  }

  function SaturatingMul(a: nat, b: nat): nat {
    Min(a * b, U32_MAX)
  }

  method NonOtherSum(c: Counts) returns (sum: nat)
    ensures sum == Min(NonOther(c), U32_MAX)
  {
    sum := 0;
    for k := 1 to ExtensionIds.KINDS
      invariant sum == Min(if k == 1 then 0 else if k == 2 then c[1] else if k == 3 then c[1] + c[2]
                           else if k == 4 then c[1] + c[2] + c[3] else NonOther(c), U32_MAX)
    {
      sum := SaturatingAdd(sum, c[k]);
    }
  }

  /** The test on saturating counters. */
  predicate Passes(c: Counts) {
    var sum := Min(NonOther(c), U32_MAX);
    var total := SaturatingAdd(c[0], sum);
    sum >= MIN_FILES && sum >= SaturatingMul(total, PERCENT) / 100
  }

  /** What the test means on counts a scan can reach: enough files, and one more of
      them would exceed four fifths. The share is rounded down, so a folder slightly
      below 80 percent passes too. */
  lemma PassesMeans(c: Counts)
    requires c[0] + c[1] + c[2] + c[3] + c[4] <= 200_000
    ensures var kept, all := c[1] + c[2] + c[3] + c[4], c[0] + c[1] + c[2] + c[3] + c[4];
            Passes(c) <==> kept >= 25 && 80 * all < 100 * (kept + 1)
  {
  }

  /** With enough files, the test is that of 80 percent except when the share falls short
      by less than one file. */
  lemma ShareAgrees(c: Counts)
    requires Sum(c) <= MAX_SCAN_ENTRIES && NonOther(c) >= MIN_FILES
    ensures (Passes(c) <==> 100 * NonOther(c) >= PERCENT * Sum(c))
            <==> !(100 * NonOther(c) < PERCENT * Sum(c) < 100 * (NonOther(c) + 1))
  {
    PassesMeans(c);
  }

  /** 25 of 32 files are 78 percent, and pass. */
  lemma LessCanSuffice() returns (c: Counts)
    ensures Sum(c) <= MAX_SCAN_ENTRIES && 100 * NonOther(c) < PERCENT * Sum(c) && Passes(c)
  {
    c := [7, 25, 0, 0, 0];
    PassesMeans(c);
  }

  // ----- The topmost qualifying folders -----

  /** The topmost qualifying folders, in the order of a walk from the root. */
  function Topmost(node: Node): seq<Node>
    decreases node, 1, 0
  {
    if Passes(node.counts) then [node] else TopmostOf(node, |node.children|)
  }

  function TopmostOf(node: Node, n: nat): seq<Node>
    requires n <= |node.children|
    decreases node, 0, n
  {
    if n == 0 then [] else TopmostOf(node, n - 1) + Topmost(node.children[n - 1])
  }

  ghost predicate InTree(n: Node, root: Node)
    decreases root
  {
    n == root || exists i :: 0 <= i < |root.children| && InTree(n, root.children[i])
  }

  function SumSuggested(nodes: seq<Node>): nat {
    if nodes == [] then 0 else SumSuggested(nodes[..|nodes| - 1]) + NonOther(nodes[|nodes| - 1].counts)
  }

  lemma {:induction false} SumSuggestedConcat(a: seq<Node>, b: seq<Node>)
    ensures SumSuggested(a + b) == SumSuggested(a) + SumSuggested(b)
  {
    if b == [] {
      assert a + b == a;
    } else {
      SumSuggestedConcat(a, b[..|b| - 1]);
      assert (a + b)[..|a| + |b| - 1] == a + b[..|b| - 1];
    }
  }

  function SumChildren(children: seq<Node>, n: nat): nat
    requires n <= |children|
  {
    if n == 0 then 0 else SumChildren(children, n - 1) + NonOther(children[n - 1].counts)
  }

  lemma {:induction false} SumChildrenIs(children: seq<Node>, n: nat)
    requires n <= |children|
    ensures SumChildren(children, n)
            == SumKind(children[..n], 1) + SumKind(children[..n], 2) + SumKind(children[..n], 3) + SumKind(children[..n], 4)
  {
    if n > 0 {
      SumChildrenIs(children, n - 1);
      assert children[..n][..n - 1] == children[..n - 1] && children[..n][n - 1] == children[n - 1];
    }
  }

  /** Files counted below the suggestions are at most those below the root. */
  lemma {:induction false} SuggestedFitInRoot(node: Node)
    requires IsSound(node)
    ensures SumSuggested(Topmost(node)) <= NonOther(node.counts)
    decreases node, 1, 0
  {
    if Passes(node.counts) {
      SumSuggestedConcat([], [node]);
      assert [node][..0] == [];
    } else {
      SuggestedFitOf(node, |node.children|);
      SumChildrenIs(node.children, |node.children|);
      assert node.children[..|node.children|] == node.children;
      assert SumKind(node.children, 1) <= node.counts[1] && SumKind(node.children, 2) <= node.counts[2];
      assert SumKind(node.children, 3) <= node.counts[3] && SumKind(node.children, 4) <= node.counts[4];
    }
  }

  lemma {:induction false} SuggestedFitOf(node: Node, n: nat)
    requires IsSound(node) && n <= |node.children|
    ensures SumSuggested(TopmostOf(node, n)) <= SumChildren(node.children, n)
    decreases node, 0, n
  {
    if n > 0 {
      SuggestedFitOf(node, n - 1);
      SuggestedFitInRoot(node.children[n - 1]);
      SumSuggestedConcat(TopmostOf(node, n - 1), Topmost(node.children[n - 1]));
    }
  }

  /** A suggestion is a qualifying folder of the tree, at or below its root. */
  lemma {:induction false} SuggestedQualify(node: Node, s: Node)
    requires s in Topmost(node)
    ensures Passes(s.counts) && InTree(s, node)
    ensures IsSound(node) ==> node.path <= s.path
    decreases node, 1, 0
  {
    if !Passes(node.counts) {
      var _ := SuggestedFrom(node, |node.children|, s);
    }
  }

  /** The child a suggestion comes from. */
  lemma {:induction false} SuggestedFrom(node: Node, n: nat, s: Node) returns (i: nat)
    requires n <= |node.children| && s in TopmostOf(node, n)
    ensures i < n && s in Topmost(node.children[i])
    ensures Passes(s.counts) && InTree(s, node.children[i])
    ensures IsSound(node) ==> node.children[i].path <= s.path && node.path <= s.path
    decreases node, 0, n
  {
    if s in Topmost(node.children[n - 1]) {
      i := n - 1;
      SuggestedQualify(node.children[i], s);
    } else {
      i := SuggestedFrom(node, n - 1, s);
    }
    if IsSound(node) {
      assert LiesIn(node.children[i].path, node.path);
      PrefixTransitive(node.path, node.children[i].path, s.path);
    }
  }

  lemma PrefixTransitive(a: Paths.Path, b: Paths.Path, c: Paths.Path)
    requires a <= b
    ensures b <= c ==> a <= c
  {
  }

  /** Every qualifying folder lies at or below a suggestion. */
  lemma {:induction false} QualifyingAreCovered(node: Node, q: Node) returns (s: Node)
    requires InTree(q, node) && Passes(q.counts)
    ensures s in Topmost(node) && InTree(q, s)
    decreases node
  {
    if Passes(node.counts) {
      s := node;
    } else {
      var i :| 0 <= i < |node.children| && InTree(q, node.children[i]);
      s := QualifyingAreCovered(node.children[i], q);
      ChildIsIncluded(node, i, |node.children|, s);
    }
  }

  lemma {:induction false} ChildIsIncluded(node: Node, i: nat, n: nat, s: Node)
    requires i < n <= |node.children| && s in Topmost(node.children[i])
    ensures s in TopmostOf(node, n)
  {
    if i < n - 1 {
      ChildIsIncluded(node, i, n - 1, s);
    }
  }

  ghost predicate Apart(nodes: seq<Node>) {
    forall i, j | 0 <= i < j < |nodes| :: !(nodes[i].path <= nodes[j].path) && !(nodes[j].path <= nodes[i].path)
  }

  /** No two suggestions are nested. */
  lemma {:induction false} SuggestedAreApart(node: Node)
    requires IsSound(node)
    ensures Apart(Topmost(node))
    decreases node, 1, 0
  {
    if !Passes(node.counts) {
      SuggestedApartOf(node, |node.children|);
    }
  }

  lemma {:induction false} SuggestedApartOf(node: Node, n: nat)
    requires IsSound(node) && n <= |node.children|
    ensures Apart(TopmostOf(node, n))
    decreases node, 0, n
  {
    if n > 0 {
      SuggestedApartOf(node, n - 1);
      var child := node.children[n - 1];
      SuggestedAreApart(child);
      forall a, b | a in TopmostOf(node, n - 1) && b in Topmost(child)
        ensures !(a.path <= b.path) && !(b.path <= a.path)
      {
        var i := SuggestedFrom(node, n - 1, a);
        SuggestedQualify(child, b);
        assert LiesIn(child.path, node.path) && LiesIn(node.children[i].path, node.path);
        SiblingsApart(node.children[i].path, child.path, a.path, b.path);
      }
    }
  }

  lemma SiblingsApart(p: Paths.Path, q: Paths.Path, a: Paths.Path, b: Paths.Path)
    requires |p| == |q| && p != q && p <= a && q <= b
    ensures !(a <= b) && !(b <= a)
  {
    assert a[..|p|] == p && b[..|q|] == q;
  }

  function Materialize(node: Node): Suggestion {
    Suggestion(PathText.Render(node.path), NonOther(node.counts), node.counts)
  }

  function MaterializeAll(nodes: seq<Node>): seq<Suggestion> {
    seq(|nodes|, i requires 0 <= i < |nodes| => Materialize(nodes[i]))
  }

  ghost predicate IsSmall(node: Node) {
    && NonOther(node.counts) <= U32_MAX
    && forall i | 0 <= i < |node.children| :: IsSmall(node.children[i])
  }

  /** Appends the topmost qualifying folders below a node. */
  method CollectSuggestions(node: Node, out: seq<Suggestion>) returns (r: seq<Suggestion>)
    requires IsSmall(node)
    ensures r == out + MaterializeAll(Topmost(node))
    decreases node
  {
    var sum := NonOtherSum(node.counts);
    var total := SaturatingAdd(node.counts[0], sum);
    var threshold := SaturatingMul(total, PERCENT) / 100;
    if sum >= MIN_FILES && sum >= threshold {
      return out + [Suggestion(PathText.Render(node.path), sum, node.counts)];
    }
    r := out;
    for i := 0 to |node.children|
      invariant r == out + MaterializeAll(TopmostOf(node, i))
    {
      r := CollectSuggestions(node.children[i], r);
      MaterializeConcat(out, TopmostOf(node, i), Topmost(node.children[i]));
    }
  }

  lemma MaterializeConcat(out: seq<Suggestion>, a: seq<Node>, b: seq<Node>)
    ensures (out + MaterializeAll(a)) + MaterializeAll(b) == out + MaterializeAll(a + b)
  {
  }

  // ----- The suggestions shown -----

  predicate RanksBefore(a: Suggestion, b: Suggestion) {
    a.fileCount > b.fileCount || (a.fileCount == b.fileCount && Paths.TextAtMost(a.localPath, b.localPath))
  }

  ghost predicate Ranked(s: seq<Suggestion>) {
    forall i, j | 0 <= i < j < |s| :: RanksBefore(s[i], s[j])
  }

  function InsertRanked(x: Suggestion, ranked: seq<Suggestion>): seq<Suggestion> {
    if ranked == [] || RanksBefore(x, ranked[0]) then [x] + ranked else [ranked[0]] + InsertRanked(x, ranked[1..])
  }

  function Rank(s: seq<Suggestion>): seq<Suggestion> {
    if s == [] then [] else InsertRanked(s[0], Rank(s[1..]))
  }

  lemma {:induction false} InsertRanks(x: Suggestion, ranked: seq<Suggestion>)
    requires Ranked(ranked)
    ensures Ranked(InsertRanked(x, ranked))
    ensures multiset(InsertRanked(x, ranked)) == multiset(ranked) + multiset{x}
  {
    if ranked != [] {
      assert ranked == [ranked[0]] + ranked[1..];
      if RanksBefore(x, ranked[0]) {
        forall j | 0 <= j < |ranked|
          ensures RanksBefore(x, ranked[j])
        {
          if j > 0 {
            RankTransitive(x, ranked[0], ranked[j]);
          }
        }
      } else {
        Paths.TextTotal(x.localPath, ranked[0].localPath);
        InsertRanks(x, ranked[1..]);
        var rest := InsertRanked(x, ranked[1..]);
        forall j | 0 <= j < |rest|
          ensures RanksBefore(ranked[0], rest[j])
        {
          assert rest[j] in multiset(rest);
          assert rest[j] != x ==> rest[j] in multiset(ranked[1..]);
        }
      }
    }
  }

  lemma RankTransitive(a: Suggestion, b: Suggestion, c: Suggestion)
    requires RanksBefore(a, b) && RanksBefore(b, c)
    ensures RanksBefore(a, c)
  {
    if a.fileCount == b.fileCount == c.fileCount {
      Paths.TextTransitive(a.localPath, b.localPath, c.localPath);
    }
  }

  lemma {:induction false} RankRanks(s: seq<Suggestion>)
    ensures Ranked(Rank(s)) && multiset(Rank(s)) == multiset(s)
  {
    if s != [] {
      RankRanks(s[1..]);
      InsertRanks(s[0], Rank(s[1..]));
      assert s == [s[0]] + s[1..];
    }
  }

  lemma {:induction false} ChildBelow(children: seq<Node>, i: nat, k: nat)
    requires i < |children| && k < ExtensionIds.KINDS
    ensures children[i].counts[k] <= SumKind(children, k)
  {
    if i < |children| - 1 {
      ChildBelow(children[..|children| - 1], i, k);
    }
  }

  lemma {:induction false} SoundIsSmall(node: Node)
    requires IsSound(node) && NonOther(node.counts) <= U32_MAX
    ensures IsSmall(node)
  {
    forall i | 0 <= i < |node.children|
      ensures IsSmall(node.children[i])
    {
      forall k | 0 <= k < ExtensionIds.KINDS
        ensures node.children[i].counts[k] <= node.counts[k]
      {
        ChildBelow(node.children, i, k);
      }
      SoundIsSmall(node.children[i]);
    }
  }

  /** `shown` are the best `cap` of all suggestions, best first. */
  ghost predicate AreBest(shown: seq<Suggestion>, all: seq<Suggestion>, cap: nat) {
    && Ranked(shown) && |shown| == Min(cap, |all|)
    && exists rest: seq<Suggestion> ::
         && multiset(all) == multiset(shown) + multiset(rest)
         && forall i, j | 0 <= i < |shown| && 0 <= j < |rest| :: RanksBefore(shown[i], rest[j])
  }

  lemma RankSplits(all: seq<Suggestion>, cap: nat)
    ensures AreBest(Rank(all)[..Min(cap, |Rank(all)|)], all, cap)
  {
    RankRanks(all);
    SameLength(Rank(all), all);
    RankedSplits(Rank(all), all, Min(cap, |all|));
  }

  lemma RankedSplits(ranked: seq<Suggestion>, all: seq<Suggestion>, m: nat)
    requires Ranked(ranked) && multiset(ranked) == multiset(all) && m <= |ranked| == |all|
    ensures AreBest(ranked[..m], all, m)
  {
    var shown, rest := ranked[..m], ranked[m..];
    assert ranked == shown + rest;
    assert multiset(all) == multiset(shown) + multiset(rest);
    forall i, j | 0 <= i < |shown| && 0 <= j < |rest|
      ensures RanksBefore(shown[i], rest[j])
    {
      assert shown[i] == ranked[i] && rest[j] == ranked[m + j];
    }
  }

  /** The order of the answer by its parts: more files come first, and with as many, the
      path that begins the other or is smaller at the first character that differs. */
  ghost predicate IsBetter(a: Suggestion, b: Suggestion) {
    && a.fileCount >= b.fileCount
    && (a.fileCount == b.fileCount ==>
          a.localPath <= b.localPath
          || exists k :: 0 <= k < |a.localPath| && k < |b.localPath| && a.localPath[k] < b.localPath[k]
                         && forall j | 0 <= j < k :: a.localPath[j] == b.localPath[j])
  }

  lemma RanksExactly(a: Suggestion, b: Suggestion)
    ensures RanksBefore(a, b) <==> IsBetter(a, b)
  {
    Paths.TextOrder(a.localPath, b.localPath);
    if k :| Paths.TextDiffersAt(a.localPath, b.localPath, k) {
      assert a.localPath[k] < b.localPath[k];
    }
    if k :| 0 <= k < |a.localPath| && k < |b.localPath| && a.localPath[k] < b.localPath[k]
            && forall j | 0 <= j < k :: a.localPath[j] == b.localPath[j] {
      assert Paths.TextDiffersAt(a.localPath, b.localPath, k);
    }
  }

  /** The suggestions not shown: with the ones shown they are all of them. */
  ghost predicate AreLeftOut(rest: seq<Suggestion>, shown: seq<Suggestion>, all: seq<Suggestion>) {
    && multiset(all) == multiset(shown) + multiset(rest)
    && forall i, j | 0 <= i < |shown| && 0 <= j < |rest| :: IsBetter(shown[i], rest[j])
  }

  /** The best of all, by their parts. */
  lemma BestExactly(shown: seq<Suggestion>, all: seq<Suggestion>, cap: nat)
    requires AreBest(shown, all, cap)
    ensures forall i, j | 0 <= i < j < |shown| :: IsBetter(shown[i], shown[j])
    ensures exists rest: seq<Suggestion> :: AreLeftOut(rest, shown, all)
  {
    forall i, j | 0 <= i < j < |shown|
      ensures IsBetter(shown[i], shown[j])
    {
      RanksExactly(shown[i], shown[j]);
    }
    var rest: seq<Suggestion> :|
      && multiset(all) == multiset(shown) + multiset(rest)
      && forall i, j | 0 <= i < |shown| && 0 <= j < |rest| :: RanksBefore(shown[i], rest[j]);
    forall i, j | 0 <= i < |shown| && 0 <= j < |rest|
      ensures IsBetter(shown[i], rest[j])
    {
      RanksExactly(shown[i], rest[j]);
    }
    assert AreLeftOut(rest, shown, all);
  }

  /** Each suggestion is a topmost qualifying folder, with its path, its counts, and the
      number of its files that are pictures, videos, music or documents. */
  ghost predicate Describes(s: Suggestion, node: Node) {
    && s.localPath == PathText.Render(node.path) && s.counts == node.counts
    && s.fileCount == node.counts[1] + node.counts[2] + node.counts[3] + node.counts[4]
  }

  lemma AllDescribed(nodes: seq<Node>)
    ensures var all := MaterializeAll(nodes);
            |all| == |nodes| && forall i | 0 <= i < |all| :: Describes(all[i], nodes[i])
  {
  }

  /** Scans a folder and returns the best of its topmost qualifying folders; a limit
      of zero is read as one. A root without canonical form is an error. */
  method ScanFolderWithLimit(root: Option<Paths.Path>, folder: Item, max: nat) returns (r: Result<seq<Suggestion>, ()>)
    requires folder.Folder? && IsProper(folder)
    ensures r.Ok? <==> root.Some?
    ensures r.Ok? ==>
              var node := ScanFolder(folder, root.value, 0, 200_000).node;
              var all := MaterializeAll(Topmost(node));
              && |r.value| == Min(if max == 0 then 1 else max, |all|)
              && (forall i, j | 0 <= i < j < |r.value| :: IsBetter(r.value[i], r.value[j]))
              && (exists rest: seq<Suggestion> :: AreLeftOut(rest, r.value, all))
              && AreBest(r.value, all, Max(max, 1))
              && |all| == |Topmost(node)| && forall i | 0 <= i < |all| :: Describes(all[i], Topmost(node)[i])
  {
    if root.None? {
      return Err(());
    }
    var budget := new ScanBudget(MAX_SCAN_ENTRIES);
    var node := ScanRecursive(folder, root.value, 0, budget);
    ScanIsSound(folder, root.value, 0, MAX_SCAN_ENTRIES);
    ScanCountsVisited(folder, root.value, 0, MAX_SCAN_ENTRIES);
    SoundIsSmall(node);
    var suggestions := CollectSuggestions(node, []);
    assert suggestions == MaterializeAll(Topmost(node));
    RankSplits(suggestions, Max(max, 1));
    var ranked := Rank(suggestions);
    var shown := ranked[..Min(Max(max, 1), |ranked|)];
    BestExactly(shown, suggestions, Max(max, 1));
    AllDescribed(Topmost(node));
    return Ok(shown);
  }
}
