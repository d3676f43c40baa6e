/** What a scan that is not cut short visits: every file it can reach, once. */
module FolderVisits {
  import opened Prelude
  import opened FolderScan
  import ExtensionIds
  import Paths
  import opened Suggestions

  // ----- Every reachable file is visited -----

  lemma {:induction false} InsertItemKeeps(e: Item, sorted: seq<Item>, x: Item)
    requires x == e || x in sorted
    ensures x in InsertItem(e, sorted)
  {
    InsertItemHas(e, sorted);
    assert x in multiset(InsertItem(e, sorted));
  }

  lemma {:induction false} TypedKeeps(items: seq<Item>, x: Item)
    requires x in items && !x.Untyped?
    ensures x in Typed(items)
  {
    if x != items[0] {
      TypedKeeps(items[1..], x);
    }
  }

  /** With enough budget, an entry is worked through unless its type is unreadable. */
  lemma EntryIsSeen(folder: Item, budget: nat, x: Item) returns (j: nat)
    requires folder.Folder? && folder.readable && x in folder.items && !x.Untyped?
    requires |folder.items| <= budget
    ensures j < |Entries(folder, budget)| && Entries(folder, budget)[j] == x
  {
    assert folder.items[..|folder.items|] == folder.items;
    TypedKeeps(folder.items, x);
    SortItemsHas(Typed(folder.items));
    assert x in multiset(SortItems(Typed(folder.items)));
    j :| 0 <= j < |Entries(folder, budget)| && Entries(folder, budget)[j] == x;
  }

  lemma {:induction false} FilesAreVisited(folder: Item, path: Paths.Path, depth: nat, budget: nat, names: seq<string>)
    requires folder.Folder? && depth < 16 && Weight(folder, depth, READ) <= budget
    requires HasFile(folder, names) && |names| + depth <= 16
    ensures path + names in ScanFolder(folder, path, depth, budget).visited
    decreases |names|, 1, 0
  {
    var i :| 0 <= i < |folder.items| && Leads(folder.items[i], names);
    var entries := Entries(folder, budget);
    assert |names| > 1 ==> HasFile(folder.items[i], names[1..]);
    var j := EntryIsSeen(folder, budget, folder.items[i]);
    EntriesWeigh(folder, budget, depth, READ);
    assert entries[..|entries|] == entries;
    EntriesVisit(entries, |entries|, path, depth, budget - Consumed(folder, budget), names, j);
  }

  lemma {:induction false} EntriesVisit(
    entries: seq<Item>, n: nat, path: Paths.Path, depth: nat, budget: nat, names: seq<string>, j: nat)
    requires j < n <= |entries| && depth < 16 && SumWeight(entries[..n], depth, READ) <= budget
    requires names != [] && Leads(entries[j], names) && |names| + depth <= 16
    ensures path + names in ScanEntries(entries, n, path, depth, budget).visited
    decreases |names|, 0, n
  {
    SumSnoc(entries, n, depth, READ);
    if j < n - 1 {
      EntriesVisit(entries, n - 1, path, depth, budget, names, j);
    } else {
      EntriesAreFull(entries, n - 1, path, depth, budget, 0);
      EntriesCountVisited(entries, n - 1, path, depth, budget);
      EntryVisits(ScanEntries(entries, n - 1, path, depth, budget), entries[n - 1], path, depth, names);
    }
  }

  lemma {:induction false} EntryVisits(before: Scan, e: Item, path: Paths.Path, depth: nat, names: seq<string>)
    requires depth < 16 && before.node.path == path && EntryWeight(e, depth, READ) <= before.left
    requires names != [] && Leads(e, names) && |names| + depth <= 16
    ensures path + names in ScanEntry(before, e, path, depth).visited
    decreases |names|, 0, 0
  {
    if |names| == 1 {
      assert path + names == path + [e.name];
    } else {
      FilesAreVisited(e, path + [e.name], depth + 1, before.left, names[1..]);
      assert path + names == path + [e.name] + names[1..];
    }
  }

  /** A scan that is not cut short visits exactly the files that names lead to, none of
      them hidden, through readable folders and at most sixteen names deep. */
  lemma VisitedExactly(folder: Item, path: Paths.Path, depth: nat, budget: nat, p: Paths.Path)
    requires folder.Folder? && depth < 16 && Weight(folder, depth, READ) <= budget
    ensures p in ScanFolder(folder, path, depth, budget).visited <==> IsFileBelow(folder, path, depth, p)
  {
    if p in ScanFolder(folder, path, depth, budget).visited {
      VisitedAreFiles(folder, path, depth, budget, p);
    }
    if IsFileBelow(folder, path, depth, p) {
      FilesAreVisited(folder, path, depth, budget, p[|path|..]);
      assert p == path + p[|path|..];
    }
  }

  // ----- No file is visited twice -----

  ghost predicate AllDiffer(visited: seq<Paths.Path>) {
    forall i, j | 0 <= i < j < |visited| :: visited[i] != visited[j]
  }

  /** What was visited lies below the first `n` entries. */
  ghost predicate LieUnder(visited: seq<Paths.Path>, path: Paths.Path, entries: seq<Item>, n: nat)
    requires n <= |entries|
  {
    forall i | 0 <= i < |visited| :: LiesUnder(visited[i], path, entries, n)
  }

  ghost predicate LiesUnder(p: Paths.Path, path: Paths.Path, entries: seq<Item>, n: nat)
    requires n <= |entries|
  {
    |path| < |p| && p[..|path|] == path && exists j :: 0 <= j < n && entries[j].name == p[|path|]
  }

  lemma {:induction false} VisitedOnce(folder: Item, path: Paths.Path, depth: nat, budget: nat)
    requires folder.Folder? && IsProper(folder) && depth < 16
    ensures AllDiffer(ScanFolder(folder, path, depth, budget).visited)
    ensures forall p | p in ScanFolder(folder, path, depth, budget).visited :: |path| < |p| && p[..|path|] == path
    decreases 16 - depth, 1, 0
  {
    var entries := Entries(folder, budget);
    forall e | e in entries
      ensures IsProper(e)
    {
      EntriesFrom(folder, budget, e);
    }
    var read := folder.items[..Min(|folder.items|, budget)];
    TypedDiffer(read);
    SortDiffers(Typed(read));
    EntriesVisitOnce(entries, |entries|, path, depth, budget - Consumed(folder, budget));
  }

  lemma {:induction false} EntriesVisitOnce(entries: seq<Item>, n: nat, path: Paths.Path, depth: nat, budget: nat)
    requires n <= |entries| && depth < 16 && DifferentNames(entries)
    requires forall e | e in entries :: IsProper(e)
    ensures var visited := ScanEntries(entries, n, path, depth, budget).visited;
            AllDiffer(visited) && LieUnder(visited, path, entries, n)
    decreases 16 - depth, 0, n
  {
    if n > 0 {
      EntriesVisitOnce(entries, n - 1, path, depth, budget);
      var before := ScanEntries(entries, n - 1, path, depth, budget);
      EntriesCountVisited(entries, n - 1, path, depth, budget);
      EntryAdds(before, entries[n - 1], path, depth);
      MoreVisited(before.visited, Added(before, entries[n - 1], path, depth), path, entries, n);
    }
  }

  /** The files that one more entry adds to those visited. */
  function Added(before: Scan, e: Item, path: Paths.Path, depth: nat): seq<Paths.Path> {
    if IsHidden(e.name) then []
    else if e.Folder? && depth + 1 < 16 then ScanFolder(e, path + [e.name], depth + 1, before.left).visited
    else if e.File? then [path + [e.name]]
    else []
  }

  lemma {:induction false} EntryAdds(before: Scan, e: Item, path: Paths.Path, depth: nat)
    requires IsProper(e) && depth < 16 && before.node.path == path
    ensures ScanEntry(before, e, path, depth).visited == before.visited + Added(before, e, path, depth)
    ensures AllDiffer(Added(before, e, path, depth))
    ensures forall p | p in Added(before, e, path, depth) :: |path| < |p| && p[..|path| + 1] == path + [e.name]
    decreases 16 - depth, 0, 0
  {
    if !IsHidden(e.name) && e.Folder? && depth + 1 < 16 {
      VisitedOnce(e, path + [e.name], depth + 1, before.left);
    }
  }

  lemma MoreVisited(visited: seq<Paths.Path>, more: seq<Paths.Path>, path: Paths.Path, entries: seq<Item>, n: nat)
    requires 0 < n <= |entries| && DifferentNames(entries)
    requires AllDiffer(visited) && LieUnder(visited, path, entries, n - 1)
    requires AllDiffer(more) && forall p | p in more :: |path| < |p| && p[..|path| + 1] == path + [entries[n - 1].name]
    ensures AllDiffer(visited + more) && LieUnder(visited + more, path, entries, n)
  {
    forall i | 0 <= i < |more|
      ensures LiesUnder(more[i], path, entries, n) && more[i][|path|] == entries[n - 1].name
    {
      var p := more[i];
      assert p in more;
      assert p[..|path| + 1][|path|] == p[|path|] && p[..|path| + 1][..|path|] == p[..|path|];
    }
    forall i, j | 0 <= i < |visited| && 0 <= j < |more|
      ensures visited[i] != more[j]
    {
      assert LiesUnder(visited[i], path, entries, n - 1);
    }
    forall i | 0 <= i < |visited|
      ensures LiesUnder(visited[i], path, entries, n)
    {
      assert LiesUnder(visited[i], path, entries, n - 1);
    }
  }

  // ----- The counts -----

  /** The paths whose last name is in this bucket. */
  ghost function InBucket(visited: seq<Paths.Path>, bucket: string -> nat, k: nat): set<Paths.Path> {
    set p | p in visited && p != [] && bucket(p[|p| - 1]) == k
  }

  function CountBy(visited: seq<Paths.Path>, bucket: string -> nat, k: nat): nat {
    if visited == [] then 0
    else
      var n := |visited| - 1;
      CountBy(visited[..n], bucket, k) + if visited[n] != [] && bucket(visited[n][|visited[n]| - 1]) == k then 1 else 0
  }

  lemma {:induction false} CountIsBy(visited: seq<Paths.Path>, k: nat)
    ensures CountKind(visited, k) == CountBy(visited, Bucket, k)
  {
    if visited != [] {
      CountIsBy(visited[..|visited| - 1], k);
    }
  }

  lemma {:induction false} CountByIsNumber(visited: seq<Paths.Path>, bucket: string -> nat, k: nat)
    requires AllDiffer(visited)
    ensures CountBy(visited, bucket, k) == |InBucket(visited, bucket, k)|
  {
    if visited == [] {
      assert InBucket(visited, bucket, k) == {};
    } else {
      var n := |visited| - 1;
      var p := visited[n];
      CountByIsNumber(visited[..n], bucket, k);
      InBucketSnoc(visited, bucket, k);
      assert p !in InBucket(visited[..n], bucket, k);
    }
  }

  lemma InBucketSnoc(visited: seq<Paths.Path>, bucket: string -> nat, k: nat)
    requires visited != []
    ensures var n := |visited| - 1;
            InBucket(visited, bucket, k)
            == InBucket(visited[..n], bucket, k)
               + if visited[n] != [] && bucket(visited[n][|visited[n]| - 1]) == k then {visited[n]} else {}
  {
    var n := |visited| - 1;
    assert visited == visited[..n] + [visited[n]];
  }

  /** A file is counted for the kind its name has. */
  lemma BucketIsKind(name: string)
    ensures Bucket(name) == ExtensionIds.KindOf(name)
  {
    ExtensionIds.KindIsSmall(name);
  }

  /** With enough budget, the number counted for a kind is the number of files of that
      kind that can be reached. */
  lemma CountsExactly(folder: Item, path: Paths.Path, depth: nat, budget: nat, k: nat)
    requires folder.Folder? && IsProper(folder) && depth < 16 && Weight(folder, depth, READ) <= budget && k < 5
    ensures var s := ScanFolder(folder, path, depth, budget);
            && s.node.counts[k] == |InBucket(s.visited, Bucket, k)|
            && forall p :: p in s.visited <==> IsFileBelow(folder, path, depth, p)
  {
    var s := ScanFolder(folder, path, depth, budget);
    ScanCountsVisited(folder, path, depth, budget);
    VisitedOnce(folder, path, depth, budget);
    CountIsBy(s.visited, k);
    CountByIsNumber(s.visited, Bucket, k);
    forall p
      ensures p in s.visited <==> IsFileBelow(folder, path, depth, p)
    {
      VisitedExactly(folder, path, depth, budget, p);
    }
  }

  // ----- The listing a scan works through -----

  lemma {:induction false} InsertItemAscends(e: Item, sorted: seq<Item>)
    requires Ascend(sorted)
    ensures Ascend(InsertItem(e, sorted))
  {
    if sorted != [] {
      Paths.TextTotal(e.name, sorted[0].name);
      if Paths.TextAtMost(e.name, sorted[0].name) {
        forall j | 0 <= j < |sorted|
          ensures Paths.TextAtMost(e.name, sorted[j].name)
        {
          if j > 0 {
            Paths.TextTransitive(e.name, sorted[0].name, sorted[j].name);
          }
        }
      } else {
        InsertItemAscends(e, sorted[1..]);
        forall x | x in InsertItem(e, sorted[1..])
          ensures Paths.TextAtMost(sorted[0].name, x.name)
        {
          InsertItemFrom(e, sorted[1..], x);
        }
      }
    }
  }

  ghost predicate Ascend(items: seq<Item>) {
    forall i, j | 0 <= i < j < |items| :: Paths.TextAtMost(items[i].name, items[j].name)
  }

  lemma {:induction false} SortItemsAscend(items: seq<Item>)
    ensures Ascend(SortItems(items))
  {
    if items != [] {
      SortItemsAscend(items[1..]);
      InsertItemAscends(items[0], SortItems(items[1..]));
    }
  }

  lemma {:induction false} TypedCount(items: seq<Item>, x: Item)
    ensures multiset(Typed(items))[x] == if x.Untyped? then 0 else multiset(items)[x]
  {
    if items != [] {
      TypedCount(items[1..], x);
      assert items == [items[0]] + items[1..];
    }
  }

  /** Of a readable folder the first entries listed are taken, as many as the budget
      allows, without those of unreadable type, and in ascending order of names. */
  lemma EntriesExactly(folder: Item, budget: nat, x: Item)
    requires folder.Folder? && folder.readable
    ensures Ascend(Entries(folder, budget))
    ensures var m := if |folder.items| <= budget then |folder.items| else budget;
            multiset(Entries(folder, budget))[x] == if x.Untyped? then 0 else multiset(folder.items[..m])[x]
  {
    var read := folder.items[..Min(|folder.items|, budget)];
    SortItemsAscend(Typed(read));
    SortItemsHas(Typed(read));
    TypedCount(read, x);
  }

  // ----- The folders of the tree are the nodes -----

  /** The names lead from the folder to a target folder, none of them hidden. */
  ghost predicate LeadsTo(folder: Item, names: seq<string>, target: Item)
    decreases |names|
  {
    && folder.Folder?
    && if names == [] then target == folder
       else
         && folder.readable && (names[0] == "" || names[0][0] != '.')
         && exists e :: e in folder.items && e.name == names[0] && LeadsTo(e, names[1..], target)
  }

  /** The child for the entry at `j` becomes a child of the node. */
  lemma {:induction false} ChildIsNode(entries: seq<Item>, n: nat, path: Paths.Path, depth: nat, budget: nat, j: nat)
    returns (left: nat)
    requires j < n <= |entries| && depth + 1 < 16 && SumWeight(entries[..n], depth, READ) <= budget
    requires entries[j].Folder? && !IsHidden(entries[j].name)
    ensures Weight(entries[j], depth + 1, READ) <= left
    ensures ScanFolder(entries[j], path + [entries[j].name], depth + 1, left).node
            in ScanEntries(entries, n, path, depth, budget).node.children
    decreases n
  {
    SumSnoc(entries, n, depth, READ);
    if j < n - 1 {
      left := ChildIsNode(entries, n - 1, path, depth, budget, j);
    } else {
      EntriesAreFull(entries, n - 1, path, depth, budget, 0);
      left := ScanEntries(entries, n - 1, path, depth, budget).left;
    }
  }

  /** The node is made by a scan of the folder that is not cut short. */
  ghost predicate IsNodeOf(n: Node, folder: Item, path: Paths.Path, depth: nat, budget: nat) {
    && folder.Folder? && depth < 16 && Weight(folder, depth, READ) <= budget
    && n == ScanFolder(folder, path, depth, budget).node
  }

  /** Where a scan is not cut short, every folder it can reach has its node, made by a
      scan that is not cut short either. */
  lemma {:induction false} FoldersAreNodes(
    root: Node, folder: Item, path: Paths.Path, depth: nat, budget: nat, names: seq<string>, target: Item, at: Paths.Path, deep: nat)
    returns (n: Node, left: nat)
    requires IsNodeOf(root, folder, path, depth, budget)
    requires LeadsTo(folder, names, target) && target.Folder? && deep < 16
    requires at == path + names && deep == depth + |names|
    ensures InTree(n, root) && IsNodeOf(n, target, at, deep, left)
    decreases |names|
  {
    if names == [] {
      assert at == path;
      n, left := root, budget;
    } else {
      var e := FirstFolder(folder, names, target);
      var child, below := SubfolderIsNode(root, folder, path, depth, budget, e);
      assert at == path + [e.name] + names[1..];
      n, left := FoldersAreNodes(child, e, path + [e.name], depth + 1, below, names[1..], target, at, deep);
      InTreeBelow(n, child, root);
    }
  }

  /** The folder that the first name leads to. */
  lemma FirstFolder(folder: Item, names: seq<string>, target: Item) returns (e: Item)
    requires LeadsTo(folder, names, target) && target.Folder? && names != []
    ensures folder.readable && e in folder.items && e.name == names[0] && !IsHidden(e.name)
    ensures e.Folder? && LeadsTo(e, names[1..], target)
  {
    e :| e in folder.items && e.name == names[0] && LeadsTo(e, names[1..], target);
  }

  lemma SubfolderIsNode(root: Node, folder: Item, path: Paths.Path, depth: nat, budget: nat, e: Item)
    returns (child: Node, left: nat)
    requires IsNodeOf(root, folder, path, depth, budget) && depth + 1 < 16
    requires folder.readable && e in folder.items && e.Folder? && !IsHidden(e.name)
    ensures child in root.children && IsNodeOf(child, e, path + [e.name], depth + 1, left)
  {
    var entries, rest := Entries(folder, budget), budget - Consumed(folder, budget);
    var j := EntryIsSeen(folder, budget, e);
    EntriesWeigh(folder, budget, depth, READ);
    assert entries[..|entries|] == entries;
    left := ChildIsNode(entries, |entries|, path, depth, rest, j);
    child := ScanFolder(e, path + [e.name], depth + 1, left).node;
  }

  lemma InTreeBelow(n: Node, child: Node, node: Node)
    requires child in node.children && InTree(n, child)
    ensures InTree(n, node)
  {
    var i :| 0 <= i < |node.children| && node.children[i] == child;
    assert InTree(n, node.children[i]);
  }

  /** How a node came about: by a scan of a folder the names lead to. */
  ghost predicate IsScanned(n: Node, folder: Item, path: Paths.Path, depth: nat, names: seq<string>, target: Item, left: nat) {
    && LeadsTo(folder, names, target) && target.Folder? && |names| + depth < 16
    && n == ScanFolder(target, path + names, depth + |names|, left).node
  }

  /** Every node is that of a folder the scan can reach, cut short or not. */
  lemma {:induction false} NodesAreFolders(folder: Item, path: Paths.Path, depth: nat, budget: nat, n: Node)
    returns (names: seq<string>, target: Item, left: nat)
    requires folder.Folder? && depth < 16 && InTree(n, ScanFolder(folder, path, depth, budget).node)
    ensures IsScanned(n, folder, path, depth, names, target, left)
    decreases 16 - depth
  {
    var node := ScanFolder(folder, path, depth, budget).node;
    if n == node {
      names, target, left := [], folder, budget;
      assert path + [] == path;
    } else {
      var i :| 0 <= i < |node.children| && InTree(n, node.children[i]);
      var entries := Entries(folder, budget);
      var j, below := NodeFromEntry(entries, |entries|, path, depth, budget - Consumed(folder, budget), i);
      var e := entries[j];
      EntriesFrom(folder, budget, e);
      var more: seq<string>;
      more, target, left := NodesAreFolders(e, path + [e.name], depth + 1, below, n);
      names := [e.name] + more;
      assert path + [e.name] + more == path + names;
      assert names[1..] == more;
    }
  }

  lemma {:induction false} NodeFromEntry(entries: seq<Item>, n: nat, path: Paths.Path, depth: nat, budget: nat, i: nat)
    returns (j: nat, left: nat)
    requires n <= |entries| && depth < 16 && i < |ScanEntries(entries, n, path, depth, budget).node.children|
    ensures j < n && entries[j].Folder? && !IsHidden(entries[j].name) && depth + 1 < 16
    ensures ScanEntries(entries, n, path, depth, budget).node.children[i]
            == ScanFolder(entries[j], path + [entries[j].name], depth + 1, left).node
    decreases n
  {
    var before := ScanEntries(entries, n - 1, path, depth, budget);
    if i < |before.node.children| {
      j, left := NodeFromEntry(entries, n - 1, path, depth, budget, i);
    } else {
      j, left := n - 1, before.left;
    }
  }
}
