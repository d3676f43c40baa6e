/** Counting the files of a directory tree by kind, with a budget on the entries read. */
module FolderScan {
  import opened Prelude
  import Paths
  import ExtensionIds

  const MAX_SCAN_DEPTH := 16
  const MAX_SCAN_ENTRIES := 200_000
  const U32_MAX := 0xFFFF_FFFF

  /** What a directory lists. The type of an entry may be unreadable. */
  datatype Item =
    | File(name: string)
    | Folder(name: string, readable: bool, items: seq<Item>)
    | Special(name: string)
    | Untyped(name: string)

  type Counts = c: seq<nat> | |c| == ExtensionIds.KINDS witness [0, 0, 0, 0, 0]

  const ZERO: Counts := [0, 0, 0, 0, 0]

  datatype Node = Node(path: Paths.Path, counts: Counts, children: seq<Node>)

  /** The result of scanning: the node, the files counted, and the budget left. */
  datatype Scan = Scan(node: Node, visited: seq<Paths.Path>, left: nat)

  predicate IsHidden(name: string) {
    name != "" && name[0] == '.'
  }

  /** The bucket a file is counted in. */
  function Bucket(name: string): (k: nat)
    ensures k < ExtensionIds.KINDS
  {
    var kind := ExtensionIds.KindOf(name);
    if kind < ExtensionIds.KINDS then kind else 0
  }

  function Add(a: Counts, b: Counts): Counts {
    seq(ExtensionIds.KINDS, k requires 0 <= k < ExtensionIds.KINDS => a[k] + b[k])
  }

  function AddOne(a: Counts, k: nat): Counts
    requires k < ExtensionIds.KINDS
  {
    a[k := a[k] + 1]
  }

  function Sum(c: Counts): nat {
    c[0] + c[1] + c[2] + c[3] + c[4]
  }

  // ----- Sorting the entries of one directory by name -----

  function InsertItem(e: Item, sorted: seq<Item>): seq<Item> {
    if sorted == [] || Paths.TextAtMost(e.name, sorted[0].name) then [e] + sorted
    else [sorted[0]] + InsertItem(e, sorted[1..])
  }

  function SortItems(items: seq<Item>): seq<Item> {
    if items == [] then [] else InsertItem(items[0], SortItems(items[1..]))
  }

  /** The entries whose type could be read. */
  function Typed(items: seq<Item>): seq<Item> {
    if items == [] then []
    else if items[0].Untyped? then Typed(items[1..])
    else [items[0]] + Typed(items[1..])
  }

  /** The entries a scan works through, in order, with a budget. */
  function Entries(folder: Item, budget: nat): seq<Item>
    requires folder.Folder?
  {
    if folder.readable then SortItems(Typed(folder.items[..Min(|folder.items|, budget)])) else []
  }

  function Consumed(folder: Item, budget: nat): (n: nat)
    requires folder.Folder?
    ensures n <= budget
  {
    if folder.readable then Min(|folder.items|, budget) else 0
  }

  // ----- What a scan computes -----

  function ScanFolder(folder: Item, path: Paths.Path, depth: nat, budget: nat): Scan
    requires folder.Folder? && depth < MAX_SCAN_DEPTH
    decreases MAX_SCAN_DEPTH - depth, 1, 0
  {
    var entries := Entries(folder, budget);
    ScanEntries(entries, |entries|, path, depth, budget - Consumed(folder, budget))
  }

  /** After the first `n` entries of a folder. */
  function ScanEntries(entries: seq<Item>, n: nat, path: Paths.Path, depth: nat, budget: nat): Scan
    requires n <= |entries| && depth < MAX_SCAN_DEPTH
    decreases MAX_SCAN_DEPTH - depth, 0, n
  {
    if n == 0 then Scan(Node(path, ZERO, []), [], budget)
    else ScanEntry(ScanEntries(entries, n - 1, path, depth, budget), entries[n - 1], path, depth)
  }

  /** After one more entry. */
  function ScanEntry(before: Scan, e: Item, path: Paths.Path, depth: nat): Scan
    requires depth < MAX_SCAN_DEPTH
    decreases MAX_SCAN_DEPTH - depth, 0, 0
  {
    if IsHidden(e.name) then before
    else if e.Folder? && depth + 1 < MAX_SCAN_DEPTH then
      Joined(before, ScanFolder(e, path + [e.name], depth + 1, before.left))
    else if e.File? then Counted(before, e.name)
    else before
  }

  function Joined(before: Scan, child: Scan): Scan {
    Scan(
      Node(before.node.path, Add(before.node.counts, child.node.counts), before.node.children + [child.node]),
      before.visited + child.visited, child.left)
  }

  function Counted(before: Scan, name: string): Scan {
    Scan(
      Node(before.node.path, AddOne(before.node.counts, Bucket(name)), before.node.children),
      before.visited + [before.node.path + [name]], before.left)
  }

  // ----- Counts are what was visited, within the budget -----

  /** How many of the paths name a file of kind `k`. */
  function CountKind(visited: seq<Paths.Path>, k: nat): nat {
    if visited == [] then 0
    else
      var n := |visited| - 1;
      CountKind(visited[..n], k)
      + if visited[n] != [] && Bucket(visited[n][|visited[n]| - 1]) == k then 1 else 0
  }

  lemma CountKindSnoc(visited: seq<Paths.Path>, p: Paths.Path, k: nat)
    ensures CountKind(visited + [p], k)
            == CountKind(visited, k) + if p != [] && Bucket(p[|p| - 1]) == k then 1 else 0
  {
    assert (visited + [p])[..|visited|] == visited;
  }

  lemma {:induction false} CountKindConcat(a: seq<Paths.Path>, b: seq<Paths.Path>, k: nat)
    ensures CountKind(a + b, k) == CountKind(a, k) + CountKind(b, k)
  {
    if b == [] {
      assert a + b == a;
    } else {
      var n := |b| - 1;
      CountKindConcat(a, b[..n], k);
      CountKindSnoc(a + b[..n], b[n], k);
      CountKindSnoc(b[..n], b[n], k);
      assert b == b[..n] + [b[n]];
      assert a + b == (a + b[..n]) + [b[n]];
    }
  }

  lemma CountKindOne(p: Paths.Path, name: string, k: nat)
    ensures CountKind([p + [name]], k) == if Bucket(name) == k then 1 else 0
  {
    assert [p + [name]][..0] == [];
  }

  ghost predicate CountsVisited(s: Scan) {
    && Sum(s.node.counts) == |s.visited|
    && forall k | 0 <= k < ExtensionIds.KINDS :: s.node.counts[k] == CountKind(s.visited, k)
  }

  lemma JoinedCounts(before: Scan, child: Scan)
    requires CountsVisited(before) && CountsVisited(child)
    ensures CountsVisited(Joined(before, child))
  {
    forall k | 0 <= k < ExtensionIds.KINDS
      ensures Joined(before, child).node.counts[k] == CountKind(before.visited + child.visited, k)
    {
      CountKindConcat(before.visited, child.visited, k);
    }
  }

  lemma CountedCounts(before: Scan, name: string)
    requires CountsVisited(before)
    ensures CountsVisited(Counted(before, name))
  {
    var p := before.node.path + [name];
    forall k | 0 <= k < ExtensionIds.KINDS
      ensures Counted(before, name).node.counts[k] == CountKind(before.visited + [p], k)
    {
      CountKindConcat(before.visited, [p], k);
      CountKindOne(before.node.path, name, k);
    }
  }

  /** The counts of a scan are those of the files it visited, and every visited file
      used up one unit of the budget. */
  lemma {:induction false} ScanCountsVisited(folder: Item, path: Paths.Path, depth: nat, budget: nat)
    requires folder.Folder? && depth < MAX_SCAN_DEPTH
    ensures var s := ScanFolder(folder, path, depth, budget); CountsVisited(s) && |s.visited| + s.left <= budget
    decreases MAX_SCAN_DEPTH - depth, 1, 0
  {
    var entries := Entries(folder, budget);
    var left := budget - Consumed(folder, budget);
    EntriesCountVisited(entries, |entries|, path, depth, left);
    EntriesWithin(folder, budget);
  }

  lemma {:induction false} EntriesCountVisited(entries: seq<Item>, n: nat, path: Paths.Path, depth: nat, budget: nat)
    requires n <= |entries| && depth < MAX_SCAN_DEPTH
    ensures var s := ScanEntries(entries, n, path, depth, budget);
            CountsVisited(s) && |s.visited| + s.left <= budget + n && s.left <= budget && s.node.path == path
    decreases MAX_SCAN_DEPTH - depth, 0, n
  {
    if n > 0 {
      EntriesCountVisited(entries, n - 1, path, depth, budget);
      var before := ScanEntries(entries, n - 1, path, depth, budget);
      var e := entries[n - 1];
      if e.Folder? && depth + 1 < MAX_SCAN_DEPTH {
        var child := ScanFolder(e, path + [e.name], depth + 1, before.left);
        ScanCountsVisited(e, path + [e.name], depth + 1, before.left);
        JoinedCounts(before, child);
      } else if e.File? {
        CountedCounts(before, e.name);
      }
    }
  }

  lemma {:induction false} InsertItemHas(e: Item, sorted: seq<Item>)
    ensures multiset(InsertItem(e, sorted)) == multiset(sorted) + multiset{e}
    ensures |InsertItem(e, sorted)| == |sorted| + 1
  {
    if sorted != [] && !Paths.TextAtMost(e.name, sorted[0].name) {
      InsertItemHas(e, sorted[1..]);
      assert sorted == [sorted[0]] + sorted[1..];
    }
  }

  lemma {:induction false} SortItemsHas(items: seq<Item>)
    ensures multiset(SortItems(items)) == multiset(items)
    ensures |SortItems(items)| == |items|
  {
    if items != [] {
      SortItemsHas(items[1..]);
      InsertItemHas(items[0], SortItems(items[1..]));
      assert items == [items[0]] + items[1..];
    }
  }

  lemma {:induction false} TypedLength(items: seq<Item>)
    ensures |Typed(items)| <= |items|
  {
    if items != [] {
      TypedLength(items[1..]);
    }
  }

  lemma EntriesWithin(folder: Item, budget: nat)
    requires folder.Folder?
    ensures |Entries(folder, budget)| <= Consumed(folder, budget)
  {
    if folder.readable {
      var read := folder.items[..Min(|folder.items|, budget)];
      SortItemsHas(Typed(read));
      TypedLength(read);
    }
  }

  // ----- With enough budget, a scan counts the whole tree -----

  /** Kinds of files are 0 to 4; this number asks for the entries read instead. */
  const READ := 5

  /** What the folder holds, independent of any budget or order: how many files of
      kind `k` a scan from this depth can reach, or how many entries it reads. */
  function Weight(folder: Item, depth: nat, k: nat): nat
    requires folder.Folder? && depth < MAX_SCAN_DEPTH
    decreases MAX_SCAN_DEPTH - depth, 1, 0
  {
    if folder.readable then (if k == READ then |folder.items| else 0) + SumWeight(folder.items, depth, k) else 0
  }

  function EntryWeight(e: Item, depth: nat, k: nat): nat
    requires depth < MAX_SCAN_DEPTH
    decreases MAX_SCAN_DEPTH - depth, 0, 0
  {
    if IsHidden(e.name) then 0
    else if e.Folder? && depth + 1 < MAX_SCAN_DEPTH then Weight(e, depth + 1, k)
    else if e.File? && Bucket(e.name) == k then 1
    else 0
  }

  function SumWeight(items: seq<Item>, depth: nat, k: nat): nat
    requires depth < MAX_SCAN_DEPTH
    decreases MAX_SCAN_DEPTH - depth, 0, |items|
  {
    if items == [] then 0 else EntryWeight(items[0], depth, k) + SumWeight(items[1..], depth, k)
  }

  lemma {:induction false} SumInsert(e: Item, sorted: seq<Item>, depth: nat, k: nat)
    requires depth < MAX_SCAN_DEPTH
    ensures SumWeight(InsertItem(e, sorted), depth, k) == EntryWeight(e, depth, k) + SumWeight(sorted, depth, k)
  {
    if sorted != [] && !Paths.TextAtMost(e.name, sorted[0].name) {
      SumInsert(e, sorted[1..], depth, k);
      assert InsertItem(e, sorted)[1..] == InsertItem(e, sorted[1..]);
    } else {
      assert InsertItem(e, sorted)[1..] == sorted;
    }
  }

  lemma {:induction false} SumSorted(items: seq<Item>, depth: nat, k: nat)
    requires depth < MAX_SCAN_DEPTH
    ensures SumWeight(SortItems(items), depth, k) == SumWeight(items, depth, k)
  {
    if items != [] {
      SumSorted(items[1..], depth, k);
      SumInsert(items[0], SortItems(items[1..]), depth, k);
    }
  }

  lemma {:induction false} SumTyped(items: seq<Item>, depth: nat, k: nat)
    requires depth < MAX_SCAN_DEPTH
    ensures SumWeight(Typed(items), depth, k) == SumWeight(items, depth, k)
  {
    if items != [] {
      SumTyped(items[1..], depth, k);
      if !items[0].Untyped? {
        assert Typed(items)[1..] == Typed(items[1..]);
      }
    }
  }

  lemma {:induction false} SumConcat(a: seq<Item>, b: seq<Item>, depth: nat, k: nat)
    requires depth < MAX_SCAN_DEPTH
    ensures SumWeight(a + b, depth, k) == SumWeight(a, depth, k) + SumWeight(b, depth, k)
  {
    if a == [] {
      assert a + b == b;
    } else {
      SumConcat(a[1..], b, depth, k);
      assert (a + b)[1..] == a[1..] + b;
    }
  }

  lemma SumSnoc(entries: seq<Item>, n: nat, depth: nat, k: nat)
    requires depth < MAX_SCAN_DEPTH && 0 < n <= |entries|
    ensures SumWeight(entries[..n], depth, k)
            == SumWeight(entries[..n - 1], depth, k) + EntryWeight(entries[n - 1], depth, k)
  {
    assert entries[..n] == entries[..n - 1] + [entries[n - 1]];
    SumConcat(entries[..n - 1], [entries[n - 1]], depth, k);
    assert [entries[n - 1]][1..] == [];
  }

  /** The entries worked through weigh what the folder lists, or less when the budget
      cuts the listing short. */
  lemma EntriesWeigh(folder: Item, budget: nat, depth: nat, k: nat)
    requires folder.Folder? && folder.readable && depth < MAX_SCAN_DEPTH
    ensures SumWeight(Entries(folder, budget), depth, k) <= SumWeight(folder.items, depth, k)
    ensures |folder.items| <= budget ==> SumWeight(Entries(folder, budget), depth, k) == SumWeight(folder.items, depth, k)
  {
    var m := Min(|folder.items|, budget);
    var read := folder.items[..m];
    SumSorted(Typed(read), depth, k);
    SumTyped(read, depth, k);
    SumConcat(read, folder.items[m..], depth, k);
    assert folder.items == read + folder.items[m..];
  }

  /** No scan counts more than the folder holds, and one with enough budget counts
      all of it, in whatever order directories are listed. */
  lemma {:induction false} ScanIsFull(folder: Item, path: Paths.Path, depth: nat, budget: nat, k: nat)
    requires folder.Folder? && depth < MAX_SCAN_DEPTH && k < ExtensionIds.KINDS
    ensures var s := ScanFolder(folder, path, depth, budget);
            && s.node.counts[k] <= Weight(folder, depth, k)
            && (Weight(folder, depth, READ) <= budget ==>
                  s.node.counts[k] == Weight(folder, depth, k) && s.left == budget - Weight(folder, depth, READ))
    decreases MAX_SCAN_DEPTH - depth, 1, 0
  {
    var entries := Entries(folder, budget);
    var left := budget - Consumed(folder, budget);
    if folder.readable {
      EntriesWeigh(folder, budget, depth, k);
      EntriesWeigh(folder, budget, depth, READ);
    }
    EntriesAreFull(entries, |entries|, path, depth, left, k);
    assert entries[..|entries|] == entries;
  }

  lemma {:induction false} EntriesAreFull(entries: seq<Item>, n: nat, path: Paths.Path, depth: nat, budget: nat, k: nat)
    requires n <= |entries| && depth < MAX_SCAN_DEPTH && k < ExtensionIds.KINDS
    ensures var s := ScanEntries(entries, n, path, depth, budget);
            && s.node.counts[k] <= SumWeight(entries[..n], depth, k)
            && (SumWeight(entries[..n], depth, READ) <= budget ==>
                  && s.node.counts[k] == SumWeight(entries[..n], depth, k)
                  && s.left == budget - SumWeight(entries[..n], depth, READ))
    decreases MAX_SCAN_DEPTH - depth, 0, n
  {
    if n > 0 {
      EntriesAreFull(entries, n - 1, path, depth, budget, k);
      SumSnoc(entries, n, depth, k);
      SumSnoc(entries, n, depth, READ);
      var before := ScanEntries(entries, n - 1, path, depth, budget);
      var e := entries[n - 1];
      if !IsHidden(e.name) && e.Folder? && depth + 1 < MAX_SCAN_DEPTH {
        ScanIsFull(e, path + [e.name], depth + 1, before.left, k);
      }
    }
  }

  // ----- What is visited are the files below the folder -----

  /** The names lead from the folder to a file, through folders that can be read; no
      name begins with a dot. */
  ghost predicate HasFile(folder: Item, names: seq<string>)
    decreases |names|, 1
  {
    && names != [] && folder.Folder? && folder.readable
    && exists i :: 0 <= i < |folder.items| && Leads(folder.items[i], names)
  }

  ghost predicate Leads(e: Item, names: seq<string>)
    requires names != []
    decreases |names|, 0
  {
    && e.name == names[0] && (names[0] == "" || names[0][0] != '.')
    && if |names| == 1 then e.File? else HasFile(e, names[1..])
  }

  lemma {:induction false} InsertItemFrom(e: Item, sorted: seq<Item>, x: Item)
    requires x in InsertItem(e, sorted)
    ensures x == e || x in sorted
  {
    InsertItemHas(e, sorted);
    assert x in multiset(InsertItem(e, sorted));
  }

  lemma EntriesFrom(folder: Item, budget: nat, x: Item)
    requires folder.Folder? && x in Entries(folder, budget)
    ensures x in folder.items
  {
    var read := folder.items[..Min(|folder.items|, budget)];
    SortItemsHas(Typed(read));
    assert x in multiset(SortItems(Typed(read)));
    TypedFrom(read, x);
  }

  lemma {:induction false} TypedFrom(items: seq<Item>, x: Item)
    requires x in Typed(items)
    ensures x in items
  {
    if items != [] && !(!items[0].Untyped? && x == items[0]) {
      TypedFrom(items[1..], x);
    }
  }

  /** The path leads from the folder, which lies `depth` folders deep, to a file no more
      than sixteen names deep. */
  ghost predicate IsFileBelow(folder: Item, path: Paths.Path, depth: nat, p: Paths.Path) {
    |path| < |p| && p[..|path|] == path && HasFile(folder, p[|path|..]) && |p| - |path| + depth <= 16
  }

  /** Every visited path leads to a file of the tree. */
  lemma {:induction false} VisitedAreFiles(folder: Item, path: Paths.Path, depth: nat, budget: nat, p: Paths.Path)
    requires folder.Folder? && depth < MAX_SCAN_DEPTH && p in ScanFolder(folder, path, depth, budget).visited
    ensures IsFileBelow(folder, path, depth, p)
    decreases MAX_SCAN_DEPTH - depth, 1, 0
  {
    var entries := Entries(folder, budget);
    forall e | e in entries
      ensures e in folder.items
    {
      EntriesFrom(folder, budget, e);
    }
    EntriesVisitFiles(folder, entries, |entries|, path, depth, budget - Consumed(folder, budget), p);
  }

  lemma {:induction false} EntriesVisitFiles(
    folder: Item, entries: seq<Item>, n: nat, path: Paths.Path, depth: nat, budget: nat, p: Paths.Path)
    requires folder.Folder? && folder.readable && n <= |entries| && depth < MAX_SCAN_DEPTH
    requires forall e | e in entries :: e in folder.items
    requires p in ScanEntries(entries, n, path, depth, budget).visited
    ensures IsFileBelow(folder, path, depth, p)
    decreases MAX_SCAN_DEPTH - depth, 0, n
  {
    var before := ScanEntries(entries, n - 1, path, depth, budget);
    var e := entries[n - 1];
    if p in before.visited {
      EntriesVisitFiles(folder, entries, n - 1, path, depth, budget, p);
    } else {
      assert entries[n - 1] in entries && e in folder.items;
      var i :| 0 <= i < |folder.items| && folder.items[i] == e;
      if e.Folder? {
        VisitedAreFiles(e, path + [e.name], depth + 1, before.left, p);
        assert p[|path|..][1..] == p[|path| + 1..];
        assert p[|path|] == p[..|path| + 1][|path|];
        assert path == p[..|path| + 1][..|path|] == p[..|path|];
      } else {
        EntriesCountVisited(entries, n - 1, path, depth, budget);
        assert p == path + [e.name];
        assert p[|path|..] == [e.name];
      }
      assert Leads(e, p[|path|..]);
    }
  }

  // ----- The shape of the node a scan builds -----

  function SumKind(children: seq<Node>, k: nat): nat
    requires k < ExtensionIds.KINDS
  {
    if children == [] then 0 else SumKind(children[..|children| - 1], k) + children[|children| - 1].counts[k]
  }

  /** Children lie directly below their parent, in different places, and a parent
      counts at least what its children count. */
  ghost predicate IsSound(node: Node) {
    && (forall i | 0 <= i < |node.children| :: IsSound(node.children[i]))
    && (forall i | 0 <= i < |node.children| :: LiesIn(node.children[i].path, node.path))
    && (forall i, j | 0 <= i < j < |node.children| :: node.children[i].path != node.children[j].path)
    && (forall k | 0 <= k < ExtensionIds.KINDS :: SumKind(node.children, k) <= node.counts[k])
  }

  ghost predicate LiesIn(child: Paths.Path, parent: Paths.Path) {
    |child| == |parent| + 1 && child[..|parent|] == parent
  }

  /** No directory lists a name twice. */
  ghost predicate IsProper(e: Item) {
    e.Folder? ==>
      && (forall i, j | 0 <= i < j < |e.items| :: e.items[i].name != e.items[j].name)
      && (forall i | 0 <= i < |e.items| :: IsProper(e.items[i]))
  }

  ghost predicate DifferentNames(items: seq<Item>) {
    forall i, j | 0 <= i < j < |items| :: items[i].name != items[j].name
  }

  lemma {:induction false} TypedDiffer(items: seq<Item>)
    requires DifferentNames(items)
    ensures DifferentNames(Typed(items))
  {
    if items != [] {
      TypedDiffer(items[1..]);
      forall x | x in Typed(items[1..])
        ensures x.name != items[0].name
      {
        TypedFrom(items[1..], x);
      }
    }
  }

  lemma {:induction false} InsertDiffers(e: Item, sorted: seq<Item>)
    requires DifferentNames(sorted) && forall x | x in sorted :: x.name != e.name
    ensures DifferentNames(InsertItem(e, sorted))
  {
    if sorted != [] && !Paths.TextAtMost(e.name, sorted[0].name) {
      InsertDiffers(e, sorted[1..]);
      forall x | x in InsertItem(e, sorted[1..])
        ensures x.name != sorted[0].name
      {
        InsertItemFrom(e, sorted[1..], x);
      }
    }
  }

  lemma {:induction false} SortDiffers(items: seq<Item>)
    requires DifferentNames(items)
    ensures DifferentNames(SortItems(items))
  {
    if items != [] {
      SortDiffers(items[1..]);
      SortItemsHas(items[1..]);
      forall x | x in SortItems(items[1..])
        ensures x.name != items[0].name
      {
        assert x in multiset(SortItems(items[1..]));
      }
      InsertDiffers(items[0], SortItems(items[1..]));
    }
  }

  lemma {:induction false} ScanIsSound(folder: Item, path: Paths.Path, depth: nat, budget: nat)
    requires folder.Folder? && IsProper(folder) && depth < MAX_SCAN_DEPTH
    ensures IsSound(ScanFolder(folder, path, depth, budget).node)
    decreases MAX_SCAN_DEPTH - depth, 1, 0
  {
    var entries := Entries(folder, budget);
    forall e | e in entries
      ensures IsProper(e)
    {
      EntriesFrom(folder, budget, e);
    }
    assert DifferentNames(entries) by {
      var read := folder.items[..Min(|folder.items|, budget)];
      TypedDiffer(read);
      SortDiffers(Typed(read));
    }
    EntriesAreSound(entries, |entries|, path, depth, budget - Consumed(folder, budget));
  }

  /** Every child of the node so far is named after one of the first `n` entries. */
  ghost predicate NamedAfter(node: Node, entries: seq<Item>, n: nat)
    requires n <= |entries|
  {
    forall i | 0 <= i < |node.children| :: IsNamed(node.children[i].path, node.path, entries, n)
  }

  ghost predicate IsNamed(child: Paths.Path, path: Paths.Path, entries: seq<Item>, n: nat)
    requires n <= |entries|
  {
    |child| == |path| + 1 && child[..|path|] == path && exists j :: 0 <= j < n && entries[j].name == child[|path|]
  }

  lemma {:induction false} EntriesAreSound(entries: seq<Item>, n: nat, path: Paths.Path, depth: nat, budget: nat)
    requires n <= |entries| && depth < MAX_SCAN_DEPTH && DifferentNames(entries)
    requires forall e | e in entries :: IsProper(e)
    ensures var node := ScanEntries(entries, n, path, depth, budget).node;
            node.path == path && IsSound(node) && NamedAfter(node, entries, n)
    decreases MAX_SCAN_DEPTH - depth, 0, n
  {
    if n > 0 {
      EntriesAreSound(entries, n - 1, path, depth, budget);
      var before := ScanEntries(entries, n - 1, path, depth, budget);
      var e := entries[n - 1];
      if !IsHidden(e.name) && e.Folder? && depth + 1 < MAX_SCAN_DEPTH {
        var child := ScanFolder(e, path + [e.name], depth + 1, before.left);
        ScanIsSound(e, path + [e.name], depth + 1, before.left);
        EntriesCountVisited(
          Entries(e, before.left), |Entries(e, before.left)|, path + [e.name], depth + 1,
          before.left - Consumed(e, before.left));
        JoinedIsSound(before, child, entries, n);
      } else if !IsHidden(e.name) && e.File? {
        CountedIsSound(before, e.name);
      }
    }
  }

  lemma CountedIsSound(before: Scan, name: string)
    requires IsSound(before.node)
    ensures IsSound(Counted(before, name).node)
  {
    var node := Counted(before, name).node;
    assert node.children == before.node.children && node.path == before.node.path;
    assert forall k | 0 <= k < ExtensionIds.KINDS :: before.node.counts[k] <= node.counts[k];
  }

  lemma SumKindSnoc(children: seq<Node>, child: Node, k: nat)
    requires k < ExtensionIds.KINDS
    ensures SumKind(children + [child], k) == SumKind(children, k) + child.counts[k]
  {
    assert (children + [child])[..|children|] == children;
  }

  /** The new child lies where no other does. */
  lemma ChildIsElsewhere(node: Node, entries: seq<Item>, n: nat, i: nat)
    requires 0 < n <= |entries| && DifferentNames(entries) && NamedAfter(node, entries, n - 1)
    requires i < |node.children|
    ensures node.children[i].path != node.path + [entries[n - 1].name]
  {
    assert IsNamed(node.children[i].path, node.path, entries, n - 1);
  }

  lemma JoinedNamedAfter(before: Scan, child: Scan, entries: seq<Item>, n: nat)
    requires 0 < n <= |entries| && NamedAfter(before.node, entries, n - 1)
    requires child.node.path == before.node.path + [entries[n - 1].name]
    ensures NamedAfter(Joined(before, child).node, entries, n)
  {
    var children := Joined(before, child).node.children;
    forall i | 0 <= i < |children|
      ensures IsNamed(children[i].path, before.node.path, entries, n)
    {
      if i < |before.node.children| {
        assert IsNamed(before.node.children[i].path, before.node.path, entries, n - 1);
      } else {
        assert children[i].path[|before.node.path|] == entries[n - 1].name;
      }
    }
  }

  lemma JoinedIsSound(before: Scan, child: Scan, entries: seq<Item>, n: nat)
    requires 0 < n <= |entries| && DifferentNames(entries)
    requires IsSound(before.node) && IsSound(child.node) && NamedAfter(before.node, entries, n - 1)
    requires child.node.path == before.node.path + [entries[n - 1].name]
    ensures IsSound(Joined(before, child).node) && NamedAfter(Joined(before, child).node, entries, n)
  {
    JoinedNamedAfter(before, child, entries, n);
    var node := Joined(before, child).node;
    var earlier, m := before.node.children, |before.node.children|;
    assert forall i | 0 <= i < m :: node.children[i] == earlier[i];
    assert node.children[m] == child.node;
    assert LiesIn(child.node.path, node.path);
    forall i | 0 <= i < m
      ensures node.children[i].path != child.node.path
    {
      ChildIsElsewhere(before.node, entries, n, i);
    }
    forall k | 0 <= k < ExtensionIds.KINDS
      ensures SumKind(node.children, k) <= node.counts[k]
    {
      SumKindSnoc(earlier, child.node, k);
    }
  }

  // ----- Scanning -----

  class ScanBudget {
    var entriesSeen: nat
    const cap: nat

    constructor (cap: nat)
      ensures this.cap == cap && entriesSeen == 0
    {
      this.cap, entriesSeen := cap, 0;
    }

    /** Takes one unit, unless the budget is spent. */
    method Tick() returns (ok: bool)
      modifies this
      ensures ok <==> old(entriesSeen) < cap
      ensures entriesSeen == if ok then old(entriesSeen) + 1 else old(entriesSeen)
    {
      if entriesSeen >= cap {
        return false;
      }
      entriesSeen := entriesSeen + 1;
      return true;
    }
  }

  function SaturatingAdd(a: nat, b: nat): nat {
    Min(a + b, U32_MAX)
  }

  lemma {:induction false} TypedSnoc(items: seq<Item>, e: Item)
    ensures Typed(items + [e]) == Typed(items) + if e.Untyped? then [] else [e]
  {
    if items == [] {
      assert [e][1..] == [];
      assert items + [e] == [e];
    } else {
      TypedSnoc(items[1..], e);
      assert (items + [e])[1..] == items[1..] + [e];
    }
  }

  /** Reads one directory, ticking once per listed entry. */
  method ReadEntries(folder: Item, budget: ScanBudget) returns (entries: seq<Item>)
    requires folder.Folder? && budget.entriesSeen <= budget.cap
    modifies budget
    ensures entries == Entries(folder, old(budget.cap - budget.entriesSeen))
    ensures budget.entriesSeen == old(budget.entriesSeen) + Consumed(folder, old(budget.cap - budget.entriesSeen))
  {
    if !folder.readable {
      return [];
    }
    ghost var start := budget.entriesSeen;
    entries := [];
    var i := 0;
    while i < |folder.items|
      invariant 0 <= i <= |folder.items| && budget.entriesSeen == start + i <= budget.cap
      invariant entries == Typed(folder.items[..i])
    {
      var ok := budget.Tick();
      if !ok {
        break;
      }
      TypedSnoc(folder.items[..i], folder.items[i]);
      assert folder.items[..i + 1] == folder.items[..i] + [folder.items[i]];
      if !folder.items[i].Untyped? {
        entries := entries + [folder.items[i]];
      }
      i := i + 1;
    }
    entries := SortItems(entries);
  }

  /** Adds a child's counts, bucket by bucket. */
  method AddCounts(a: Counts, b: Counts) returns (c: Counts)
    requires Sum(a) + Sum(b) <= U32_MAX
    ensures c == Add(a, b)
  {
    c := a;
    for k := 0 to ExtensionIds.KINDS
      invariant |c| == ExtensionIds.KINDS
      invariant forall j | 0 <= j < k :: c[j] == a[j] + b[j]
      invariant forall j | k <= j < ExtensionIds.KINDS :: c[j] == a[j]
    {
      BelowSum(a, k);
      BelowSum(b, k);
      c := c[k := SaturatingAdd(c[k], b[k])];
    }
  }

  lemma BelowSum(c: Counts, k: nat)
    requires k < ExtensionIds.KINDS
    ensures c[k] <= Sum(c)
  {
  }

  /** Scans a folder. With a budget that fits 32 bits no counter ever saturates, so
      the counts are exact. */
  method ScanRecursive(folder: Item, path: Paths.Path, depth: nat, budget: ScanBudget) returns (node: Node)
    requires folder.Folder? && depth < MAX_SCAN_DEPTH
    requires budget.entriesSeen <= budget.cap <= U32_MAX
    modifies budget
    ensures node == ScanFolder(folder, path, depth, old(budget.cap - budget.entriesSeen)).node
    ensures budget.cap - budget.entriesSeen == ScanFolder(folder, path, depth, old(budget.cap - budget.entriesSeen)).left
    decreases MAX_SCAN_DEPTH - depth, 1
  {
    var entries := ReadEntries(folder, budget);
    ghost var left := budget.cap - budget.entriesSeen;
    EntriesWithin(folder, old(budget.cap - budget.entriesSeen));
    node := Node(path, ZERO, []);
    for n := 0 to |entries|
      invariant node == ScanEntries(entries, n, path, depth, left).node
      invariant budget.cap - budget.entriesSeen == ScanEntries(entries, n, path, depth, left).left
    {
      EntriesCountVisited(entries, n, path, depth, left);
      node := VisitEntry(node, entries[n], path, depth, budget, ScanEntries(entries, n, path, depth, left));
    }
  }

  method CountFile(counts: Counts, name: string) returns (c: Counts)
    requires Sum(counts) < U32_MAX
    ensures c == AddOne(counts, Bucket(name))
  {
    var k := Bucket(name);
    BelowSum(counts, k);
    c := counts[k := SaturatingAdd(counts[k], 1)];
  }

  /** Counts one entry into its folder's node. */
  method VisitEntry(node: Node, e: Item, path: Paths.Path, depth: nat, budget: ScanBudget, ghost before: Scan)
    returns (r: Node)
    requires depth < MAX_SCAN_DEPTH && budget.entriesSeen <= budget.cap <= U32_MAX
    requires node == before.node && budget.cap - budget.entriesSeen == before.left && node.path == path
    requires Sum(node.counts) + before.left + 1 <= U32_MAX
    modifies budget
    ensures r == ScanEntry(before, e, path, depth).node
    ensures budget.cap - budget.entriesSeen == ScanEntry(before, e, path, depth).left
    decreases MAX_SCAN_DEPTH - depth, 0
  {
    if IsHidden(e.name) {
      return node;
    }
    if e.Folder? {
      if depth + 1 >= MAX_SCAN_DEPTH {
        return node;
      }
      var child := ScanRecursive(e, path + [e.name], depth + 1, budget);
      ScanCountsVisited(e, path + [e.name], depth + 1, before.left);
      var counts := AddCounts(node.counts, child.counts);
      return Node(node.path, counts, node.children + [child]);
    }
    if e.File? {
      var counts := CountFile(node.counts, e.name);
      return Node(node.path, counts, node.children);
    }
    return node;
  }
}
