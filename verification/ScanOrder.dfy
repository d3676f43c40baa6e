/** When a scan depends on the order in which directories list their entries. */
module ScanOrder {
  import opened Prelude
  import opened FolderScan
  import Paths

  // ----- Reordered trees -----

  /** The same tree, with every directory listed in any order. */
  ghost predicate Reordered(one: Item, other: Item)
    decreases one, 1, 0
  {
    match one
    case Folder(name, readable, items) =>
      other.Folder? && other.name == name && other.readable == readable && Matches(one, 0, other.items)
    case _ => other == one
  }

  /** The entries from position `i` on are those listed, one by one. */
  ghost predicate Matches(folder: Item, i: nat, listed: seq<Item>)
    requires folder.Folder? && i <= |folder.items|
    decreases folder, 0, |folder.items| - i
  {
    if i == |folder.items| then listed == []
    else
      exists k :: 0 <= k < |listed| && Reordered(folder.items[i], listed[k]) && Matches(folder, i + 1, Removed(listed, k))
  }

  function Removed(listed: seq<Item>, k: nat): seq<Item>
    requires k < |listed|
  {
    listed[..k] + listed[k + 1..]
  }

  /** Two entries with different names may be inserted in either order. */
  lemma {:induction false} InsertionsCommute(a: Item, b: Item, s: seq<Item>)
    requires a.name != b.name
    ensures InsertItem(a, InsertItem(b, s)) == InsertItem(b, InsertItem(a, s))
  {
    Paths.TextTotal(a.name, b.name);
    if s != [] {
      if Paths.TextAtMost(a.name, b.name) && Paths.TextAtMost(b.name, s[0].name) {
        Paths.TextTransitive(a.name, b.name, s[0].name);
      }
      if Paths.TextAtMost(b.name, a.name) && Paths.TextAtMost(a.name, s[0].name) {
        Paths.TextTransitive(b.name, a.name, s[0].name);
      }
      InsertionsCommute(a, b, s[1..]);
    }
  }

  /** The entries of a whole listing, sorted. */
  function Sorted(listed: seq<Item>): seq<Item> {
    SortItems(Typed(listed))
  }

  function InsertTyped(e: Item, sorted: seq<Item>): seq<Item> {
    if e.Untyped? then sorted else InsertItem(e, sorted)
  }

  lemma SortedCons(e: Item, rest: seq<Item>)
    ensures Sorted([e] + rest) == InsertTyped(e, Sorted(rest))
  {
    assert ([e] + rest)[1..] == rest;
    if !e.Untyped? {
      assert Typed([e] + rest)[1..] == Typed(rest);
    }
  }

  /** Any entry may be taken out and inserted last. */
  lemma {:induction false} SortedTakeOut(listed: seq<Item>, k: nat)
    requires k < |listed| && DifferentNames(listed)
    ensures Sorted(listed) == InsertTyped(listed[k], Sorted(Removed(listed, k)))
  {
    var first, rest := listed[0], listed[1..];
    assert listed == [first] + rest;
    SortedCons(first, rest);
    if k == 0 {
      assert Removed(listed, 0) == rest;
    } else {
      SortedTakeOut(rest, k - 1);
      assert Removed(listed, k) == [first] + Removed(rest, k - 1);
      SortedCons(first, Removed(rest, k - 1));
      if !first.Untyped? && !listed[k].Untyped? {
        InsertionsCommute(first, listed[k], Sorted(Removed(rest, k - 1)));
      }
    }
  }

  ghost predicate Pairwise(a: seq<Item>, b: seq<Item>) {
    |a| == |b| && forall i | 0 <= i < |a| :: Reordered(a[i], b[i])
  }

  lemma {:induction false} InsertPairs(x: Item, y: Item, a: seq<Item>, b: seq<Item>)
    requires Reordered(x, y) && Pairwise(a, b)
    ensures Pairwise(InsertItem(x, a), InsertItem(y, b))
  {
    assert x.name == y.name;
    if a != [] {
      assert a[0].name == b[0].name;
      if !Paths.TextAtMost(x.name, a[0].name) {
        InsertPairs(x, y, a[1..], b[1..]);
      }
    }
  }

  /** The sorted entries from position `i` on. */
  function SortedFrom(items: seq<Item>, i: nat): seq<Item>
    requires i <= |items|
    decreases |items| - i
  {
    if i == |items| then [] else InsertTyped(items[i], SortedFrom(items, i + 1))
  }

  lemma {:induction false} SortedFromIs(items: seq<Item>, i: nat)
    requires i <= |items|
    ensures SortedFrom(items, i) == Sorted(items[i..])
    decreases |items| - i
  {
    if i < |items| {
      SortedFromIs(items, i + 1);
      assert items[i..] == [items[i]] + items[i + 1..];
      SortedCons(items[i], items[i + 1..]);
    }
  }

  lemma {:induction false} MatchesPairs(folder: Item, i: nat, listed: seq<Item>)
    requires folder.Folder? && i <= |folder.items| && Matches(folder, i, listed) && DifferentNames(listed)
    ensures |listed| == |folder.items| - i
    ensures Pairwise(SortedFrom(folder.items, i), Sorted(listed))
    decreases |folder.items| - i
  {
    if i < |folder.items| {
      var k :| 0 <= k < |listed| && Reordered(folder.items[i], listed[k]) && Matches(folder, i + 1, Removed(listed, k));
      RemovedDiffers(listed, k);
      MatchesPairs(folder, i + 1, Removed(listed, k));
      SortedTakeOut(listed, k);
      InsertTypedPairs(folder.items[i], listed[k], SortedFrom(folder.items, i + 1), Sorted(Removed(listed, k)));
    }
  }

  lemma RemovedDiffers(listed: seq<Item>, k: nat)
    requires k < |listed| && DifferentNames(listed)
    ensures DifferentNames(Removed(listed, k)) && |Removed(listed, k)| == |listed| - 1
  {
    var rest := Removed(listed, k);
    assert forall i | 0 <= i < |rest| :: rest[i] == listed[if i < k then i else i + 1];
  }

  lemma InsertTypedPairs(x: Item, y: Item, a: seq<Item>, b: seq<Item>)
    requires Reordered(x, y) && Pairwise(a, b)
    ensures Pairwise(InsertTyped(x, a), InsertTyped(y, b))
  {
    if !x.Untyped? {
      InsertPairs(x, y, a, b);
    }
  }

  /** Entries of a folder that the budget lets be read in full. */
  lemma WholeEntries(folder: Item, budget: nat)
    requires folder.Folder? && folder.readable && |folder.items| <= budget
    ensures Entries(folder, budget) == Sorted(folder.items)
  {
    assert folder.items[..|folder.items|] == folder.items;
  }

  lemma EntriesAreProper(folder: Item, budget: nat)
    requires folder.Folder? && IsProper(folder)
    ensures forall e | e in Entries(folder, budget) :: IsProper(e)
  {
    forall e | e in Entries(folder, budget)
      ensures IsProper(e)
    {
      EntriesFrom(folder, budget, e);
    }
  }

  /** What is listed is an entry. */
  lemma {:induction false} ListedIsEntry(folder: Item, i: nat, listed: seq<Item>, k: nat) returns (j: nat)
    requires folder.Folder? && i <= |folder.items| && k < |listed| && Matches(folder, i, listed)
    ensures i <= j < |folder.items| && Reordered(folder.items[j], listed[k])
    decreases |folder.items| - i
  {
    var l :| 0 <= l < |listed| && Reordered(folder.items[i], listed[l]) && Matches(folder, i + 1, Removed(listed, l));
    if k == l {
      j := i;
    } else {
      var k' := if k < l then k else k - 1;
      assert Removed(listed, l)[k'] == listed[k];
      j := ListedIsEntry(folder, i + 1, Removed(listed, l), k');
    }
  }

  // ----- Which scans do not depend on the order -----

  /** The entry counts: it is a file, or a folder that is opened. */
  ghost predicate IsVisible(e: Item, depth: nat) {
    !IsHidden(e.name) && (e.File? || IsOpened(e, depth))
  }

  ghost predicate IsOpened(e: Item, depth: nat) {
    !IsHidden(e.name) && e.Folder? && depth + 1 < MAX_SCAN_DEPTH
  }

  ghost predicate NothingVisible(items: seq<Item>, depth: nat) {
    forall e | e in items :: !IsVisible(e, depth)
  }

  /** No listing of anything that counts is cut short by the budget left for it, unless
      nothing of it is read at all. */
  ghost predicate IsStable(folder: Item, path: Paths.Path, depth: nat, budget: nat)
    requires folder.Folder? && depth < MAX_SCAN_DEPTH
    decreases MAX_SCAN_DEPTH - depth, 1, 0
  {
    || !folder.readable || budget == 0 || NothingVisible(folder.items, depth)
    || (|folder.items| <= budget
        && StableUpTo(Sorted(folder.items), |Sorted(folder.items)|, path, depth, budget - |folder.items|))
  }

  /** The same of the folders among the first `n` entries, each with the budget left
      when it is opened. */
  ghost predicate StableUpTo(entries: seq<Item>, n: nat, path: Paths.Path, depth: nat, budget: nat)
    requires n <= |entries| && depth < MAX_SCAN_DEPTH
    decreases MAX_SCAN_DEPTH - depth, 0, n
  {
    n == 0
    || (StableUpTo(entries, n - 1, path, depth, budget)
        && (IsOpened(entries[n - 1], depth) ==>
              IsStable(entries[n - 1], path + [entries[n - 1].name], depth + 1,
                       ScanEntries(entries, n - 1, path, depth, budget).left)))
  }

  /** Enough budget for the whole tree is always stable. */
  lemma {:induction false} EnoughIsStable(folder: Item, path: Paths.Path, depth: nat, budget: nat)
    requires folder.Folder? && depth < MAX_SCAN_DEPTH && Weight(folder, depth, READ) <= budget
    ensures IsStable(folder, path, depth, budget)
    decreases MAX_SCAN_DEPTH - depth, 1, 0
  {
    if folder.readable {
      WholeEntries(folder, budget);
      EntriesWeigh(folder, budget, depth, READ);
      var entries := Sorted(folder.items);
      assert entries[..|entries|] == entries;
      EnoughUpTo(entries, |entries|, path, depth, budget - |folder.items|);
    }
  }

  lemma {:induction false} EnoughUpTo(entries: seq<Item>, n: nat, path: Paths.Path, depth: nat, budget: nat)
    requires n <= |entries| && depth < MAX_SCAN_DEPTH && SumWeight(entries[..n], depth, READ) <= budget
    ensures StableUpTo(entries, n, path, depth, budget)
    decreases MAX_SCAN_DEPTH - depth, 0, n
  {
    if n > 0 {
      SumSnoc(entries, n, depth, READ);
      EnoughUpTo(entries, n - 1, path, depth, budget);
      EntriesAreFull(entries, n - 1, path, depth, budget, 0);
      var e := entries[n - 1];
      if IsOpened(e, depth) {
        EnoughIsStable(e, path + [e.name], depth + 1, ScanEntries(entries, n - 1, path, depth, budget).left);
      }
    }
  }

  // ----- Stable scans forget the order -----

  lemma {:induction false} NothingCounts(entries: seq<Item>, n: nat, path: Paths.Path, depth: nat, budget: nat)
    requires n <= |entries| && depth < MAX_SCAN_DEPTH && NothingVisible(entries, depth)
    ensures ScanEntries(entries, n, path, depth, budget) == Scan(Node(path, ZERO, []), [], budget)
    decreases n
  {
    if n > 0 {
      NothingCounts(entries, n - 1, path, depth, budget);
      assert entries[n - 1] in entries;
    }
  }

  lemma NothingVisibleScan(folder: Item, path: Paths.Path, depth: nat, budget: nat)
    requires folder.Folder? && depth < MAX_SCAN_DEPTH && NothingVisible(folder.items, depth)
    ensures ScanFolder(folder, path, depth, budget) == Scan(Node(path, ZERO, []), [], budget - Consumed(folder, budget))
  {
    var entries := Entries(folder, budget);
    forall e | e in entries
      ensures !IsVisible(e, depth)
    {
      EntriesFrom(folder, budget, e);
    }
    NothingCounts(entries, |entries|, path, depth, budget - Consumed(folder, budget));
  }

  lemma NothingVisibleEither(one: Item, other: Item, depth: nat)
    requires one.Folder? && Reordered(one, other) && NothingVisible(one.items, depth)
    ensures NothingVisible(other.items, depth)
  {
    forall e | e in other.items
      ensures !IsVisible(e, depth)
    {
      var k :| 0 <= k < |other.items| && other.items[k] == e;
      var j := ListedIsEntry(one, 0, other.items, k);
      assert one.items[j] in one.items;
    }
  }

  /** A stable scan gives the same node, visits the same files and leaves the same
      budget, in whatever order directories are listed. */
  lemma {:induction false} StableForgetsOrder(one: Item, other: Item, path: Paths.Path, depth: nat, budget: nat)
    requires one.Folder? && Reordered(one, other) && IsProper(one) && IsProper(other) && depth < MAX_SCAN_DEPTH
    requires IsStable(one, path, depth, budget)
    ensures ScanFolder(one, path, depth, budget) == ScanFolder(other, path, depth, budget)
    decreases MAX_SCAN_DEPTH - depth, 1, 0
  {
    if one.readable {
      MatchesPairs(one, 0, other.items);
      if NothingVisible(one.items, depth) {
        NothingVisibleEither(one, other, depth);
        NothingVisibleScan(one, path, depth, budget);
        NothingVisibleScan(other, path, depth, budget);
      } else if budget == 0 {
        assert one.items[..0] == [] == other.items[..0];
      } else {
        SortedFromIs(one.items, 0);
        assert one.items[0..] == one.items;
        WholeEntries(one, budget);
        WholeEntries(other, budget);
        EntriesAreProper(one, budget);
        EntriesAreProper(other, budget);
        var a, b := Sorted(one.items), Sorted(other.items);
        EntriesForgetOrder(a, b, |a|, path, depth, budget - |one.items|);
      }
    }
  }

  lemma {:induction false} EntriesForgetOrder(a: seq<Item>, b: seq<Item>, n: nat, path: Paths.Path, depth: nat, budget: nat)
    requires Pairwise(a, b) && n <= |a| && depth < MAX_SCAN_DEPTH
    requires (forall e | e in a :: IsProper(e)) && (forall e | e in b :: IsProper(e))
    requires StableUpTo(a, n, path, depth, budget)
    ensures ScanEntries(a, n, path, depth, budget) == ScanEntries(b, n, path, depth, budget)
    decreases MAX_SCAN_DEPTH - depth, 0, n
  {
    if n > 0 {
      EntriesForgetOrder(a, b, n - 1, path, depth, budget);
      var before := ScanEntries(a, n - 1, path, depth, budget);
      var x, y := a[n - 1], b[n - 1];
      assert x in a && y in b && Reordered(x, y);
      if IsOpened(x, depth) {
        StableForgetsOrder(x, y, path + [x.name], depth + 1, before.left);
      }
    }
  }

  // ----- Other scans depend on it -----

  /** What the scan saw directly at a path. */
  ghost predicate Shows(s: Scan, p: Paths.Path) {
    p in s.visited || exists c :: c in s.node.children && c.path == p
  }

  ghost predicate OneIsVisible(entries: seq<Item>, n: nat, depth: nat, name: string)
    requires n <= |entries|
  {
    exists m :: 0 <= m < n && IsVisible(entries[m], depth) && entries[m].name == name
  }

  /** A scan shows exactly the visible entries it works through. */
  lemma {:induction false} EntriesShow(entries: seq<Item>, n: nat, path: Paths.Path, depth: nat, budget: nat, name: string)
    requires n <= |entries| && depth < MAX_SCAN_DEPTH
    ensures Shows(ScanEntries(entries, n, path, depth, budget), path + [name]) <==> OneIsVisible(entries, n, depth, name)
    decreases n
  {
    if n > 0 {
      EntriesShow(entries, n - 1, path, depth, budget, name);
      var before, e := ScanEntries(entries, n - 1, path, depth, budget), entries[n - 1];
      EntriesCountVisited(entries, n - 1, path, depth, budget);
      EntryShows(before, e, path, depth, name);
      assert OneIsVisible(entries, n, depth, name)
        <==> OneIsVisible(entries, n - 1, depth, name) || (IsVisible(e, depth) && e.name == name);
    }
  }

  lemma EntryShows(before: Scan, e: Item, path: Paths.Path, depth: nat, name: string)
    requires depth < MAX_SCAN_DEPTH && before.node.path == path
    ensures Shows(ScanEntry(before, e, path, depth), path + [name])
            <==> Shows(before, path + [name]) || (IsVisible(e, depth) && e.name == name)
  {
    var after, p := ScanEntry(before, e, path, depth), path + [name];
    if IsOpened(e, depth) {
      var child := ScanFolder(e, path + [e.name], depth + 1, before.left);
      ChildIsThere(e, path + [e.name], depth + 1, before.left);
      assert p !in child.visited by {
        if p in child.visited {
          VisitedAreFiles(e, path + [e.name], depth + 1, before.left, p);
        }
      }
      assert after.node.children == before.node.children + [child.node];
      assert child.node in after.node.children;
      assert child.node.path == p <==> e.name == name by {
        assert (path + [e.name])[|path|] == e.name && p[|path|] == name;
      }
    } else if IsVisible(e, depth) {
      assert path + [e.name] == p <==> e.name == name by {
        assert (path + [e.name])[|path|] == e.name && p[|path|] == name;
      }
      assert after.visited == before.visited + [path + [e.name]];
    }
  }

  lemma ChildIsThere(folder: Item, path: Paths.Path, depth: nat, budget: nat)
    requires folder.Folder? && depth < MAX_SCAN_DEPTH
    ensures ScanFolder(folder, path, depth, budget).node.path == path
  {
    var entries := Entries(folder, budget);
    EntriesCountVisited(entries, |entries|, path, depth, budget - Consumed(folder, budget));
  }

  /** The difference is in what was seen. */
  ghost predicate Differ(s: Scan, t: Scan) {
    s.node.children != t.node.children || s.visited != t.visited
  }

  lemma {:induction false} TypedHas(items: seq<Item>, x: Item)
    requires x in items && !x.Untyped?
    ensures x in Typed(items)
  {
    if items[0] != x {
      assert items == [items[0]] + items[1..];
      TypedHas(items[1..], x);
    }
  }

  lemma EntriesHave(folder: Item, budget: nat, x: Item)
    requires folder.Folder? && folder.readable && !x.Untyped?
    requires x in folder.items[..Min(|folder.items|, budget)]
    ensures x in Entries(folder, budget)
  {
    var read := folder.items[..Min(|folder.items|, budget)];
    TypedHas(read, x);
    SortItemsHas(Typed(read));
    assert x in multiset(SortItems(Typed(read)));
  }

  lemma EntriesOnlyFrom(folder: Item, budget: nat, x: Item)
    requires folder.Folder? && folder.readable && x in Entries(folder, budget)
    ensures x in folder.items[..Min(|folder.items|, budget)]
  {
    var read := folder.items[..Min(|folder.items|, budget)];
    SortItemsHas(Typed(read));
    assert x in multiset(SortItems(Typed(read)));
    TypedFrom(read, x);
  }

  // Rearranging one directory.

  lemma {:induction false} IsItself(e: Item)
    ensures Reordered(e, e)
    decreases e, 1, 0
  {
    if e.Folder? {
      forall j | 0 <= j < |e.items|
        ensures Reordered(e.items[j], e.items[j])
      {
        IsItself(e.items[j]);
      }
      RearrangedMatches(e, 0, e.items);
    }
  }

  /** A listing of the same entries matches. */
  lemma {:induction false} RearrangedMatches(folder: Item, i: nat, listed: seq<Item>)
    requires folder.Folder? && i <= |folder.items| && multiset(listed) == multiset(folder.items[i..])
    requires forall j | i <= j < |folder.items| :: Reordered(folder.items[j], folder.items[j])
    ensures Matches(folder, i, listed)
    decreases |folder.items| - i
  {
    if i == |folder.items| {
      assert |multiset(listed)| == 0;
    } else {
      var e := folder.items[i];
      assert folder.items[i..] == [e] + folder.items[i + 1..];
      assert e in multiset(listed);
      var k :| 0 <= k < |listed| && listed[k] == e;
      RemovedMultiset(listed, k);
      RearrangedMatches(folder, i + 1, Removed(listed, k));
    }
  }

  lemma RemovedMultiset(listed: seq<Item>, k: nat)
    requires k < |listed|
    ensures multiset(Removed(listed, k)) == multiset(listed) - multiset{listed[k]}
  {
    assert listed == listed[..k] + [listed[k]] + listed[k + 1..];
  }

  /** The folder with its listing replaced. */
  function Listing(folder: Item, listed: seq<Item>): Item
    requires folder.Folder?
  {
    folder.(items := listed)
  }

  lemma RearrangedIsReordered(folder: Item, listed: seq<Item>)
    requires folder.Folder? && multiset(listed) == multiset(folder.items)
    ensures Reordered(folder, Listing(folder, listed))
  {
    assert folder.items[0..] == folder.items;
    forall j | 0 <= j < |folder.items|
      ensures Reordered(folder.items[j], folder.items[j])
    {
      IsItself(folder.items[j]);
    }
    RearrangedMatches(folder, 0, listed);
  }

  lemma NamedOnce(listed: seq<Item>, k: nat)
    requires k < |listed| && DifferentNames(listed)
    ensures forall e | e in Removed(listed, k) :: e.name != listed[k].name
  {
    var rest := Removed(listed, k);
    assert forall i | 0 <= i < |rest| :: rest[i] == listed[if i < k then i else i + 1];
  }

  /** A cut listing of something visible: with it in front the scan shows it, with it
      behind the cut it does not. */
  lemma CutListingMatters(folder: Item, i: nat, path: Paths.Path, depth: nat, budget: nat) returns (other: Item)
    requires folder.Folder? && IsProper(folder) && folder.readable && depth < MAX_SCAN_DEPTH
    requires i < |folder.items| && IsVisible(folder.items[i], depth) && 0 < budget < |folder.items|
    ensures Reordered(folder, other) && IsProper(other)
    ensures Differ(ScanFolder(folder, path, depth, budget), ScanFolder(other, path, depth, budget))
  {
    var first := InFront(folder, i);
    var last := Behind(folder, i);
    ShownInFront(first, path, depth, budget);
    NotShownBehind(last, path, depth, budget);
    var s, t := ScanFolder(folder, path, depth, budget), ScanFolder(first, path, depth, budget);
    ShowsDiffer(t, ScanFolder(last, path, depth, budget), path + [folder.items[i].name]);
    other := if Differ(s, t) then first else last;
  }

  lemma ShowsDiffer(s: Scan, t: Scan, p: Paths.Path)
    requires Shows(s, p) && !Shows(t, p)
    ensures Differ(s, t)
  {
  }

  lemma InFront(folder: Item, i: nat) returns (first: Item)
    requires folder.Folder? && IsProper(folder) && i < |folder.items|
    ensures Reordered(folder, first) && IsProper(first) && first.readable == folder.readable
    ensures |first.items| == |folder.items| && first.items[0] == folder.items[i]
  {
    var e, rest := folder.items[i], Removed(folder.items, i);
    RemovedMultiset(folder.items, i);
    RemovedDiffers(folder.items, i);
    NamedOnce(folder.items, i);
    PutInFront(e, rest, folder.items);
    first := Listing(folder, [e] + rest);
    RearrangedIsReordered(folder, [e] + rest);
    RearrangedIsProper(folder, [e] + rest);
  }

  lemma PutInFront(e: Item, rest: seq<Item>, items: seq<Item>)
    requires e in items && multiset(rest) == multiset(items) - multiset{e}
    requires DifferentNames(rest) && forall x | x in rest :: x.name != e.name
    ensures multiset([e] + rest) == multiset(items) && DifferentNames([e] + rest)
  {
    assert e in multiset(items);
  }

  lemma Behind(folder: Item, i: nat) returns (last: Item)
    requires folder.Folder? && IsProper(folder) && i < |folder.items|
    ensures Reordered(folder, last) && IsProper(last) && last.readable == folder.readable
    ensures |last.items| == |folder.items| && last.items[|last.items| - 1] == folder.items[i]
    ensures forall j | 0 <= j < |last.items| - 1 :: last.items[j].name != folder.items[i].name
  {
    var e, rest := folder.items[i], Removed(folder.items, i);
    RemovedMultiset(folder.items, i);
    RemovedDiffers(folder.items, i);
    NamedOnce(folder.items, i);
    PutBehind(e, rest, folder.items);
    last := Listing(folder, rest + [e]);
    RearrangedIsReordered(folder, rest + [e]);
    RearrangedIsProper(folder, rest + [e]);
  }

  lemma PutBehind(e: Item, rest: seq<Item>, items: seq<Item>)
    requires e in items && multiset(rest) == multiset(items) - multiset{e}
    requires DifferentNames(rest) && forall x | x in rest :: x.name != e.name
    ensures multiset(rest + [e]) == multiset(items) && DifferentNames(rest + [e])
  {
    assert e in multiset(items);
  }

  lemma RearrangedIsProper(folder: Item, listed: seq<Item>)
    requires folder.Folder? && IsProper(folder) && DifferentNames(listed) && multiset(listed) == multiset(folder.items)
    ensures IsProper(Listing(folder, listed))
  {
    forall i | 0 <= i < |listed|
      ensures IsProper(listed[i])
    {
      assert listed[i] in multiset(listed);
      assert listed[i] in folder.items;
    }
  }

  lemma ShownInFront(folder: Item, path: Paths.Path, depth: nat, budget: nat)
    requires folder.Folder? && folder.readable && depth < MAX_SCAN_DEPTH && budget > 0
    requires folder.items != [] && IsVisible(folder.items[0], depth)
    ensures Shows(ScanFolder(folder, path, depth, budget), path + [folder.items[0].name])
  {
    var e, entries := folder.items[0], Entries(folder, budget);
    assert folder.items[..Min(|folder.items|, budget)][0] == e;
    EntriesHave(folder, budget, e);
    var m :| 0 <= m < |entries| && entries[m] == e;
    EntriesShow(entries, |entries|, path, depth, budget - Consumed(folder, budget), e.name);
  }

  lemma NotShownBehind(folder: Item, path: Paths.Path, depth: nat, budget: nat)
    requires folder.Folder? && folder.readable && depth < MAX_SCAN_DEPTH && budget < |folder.items|
    requires forall j | 0 <= j < |folder.items| - 1 :: folder.items[j].name != folder.items[|folder.items| - 1].name
    ensures !Shows(ScanFolder(folder, path, depth, budget), path + [folder.items[|folder.items| - 1].name])
  {
    var name, entries := folder.items[|folder.items| - 1].name, Entries(folder, budget);
    forall m | 0 <= m < |entries|
      ensures entries[m].name != name
    {
      EntriesOnlyFrom(folder, budget, entries[m]);
    }
    EntriesShow(entries, |entries|, path, depth, budget - Consumed(folder, budget), name);
  }

  // Rearranging below one directory.

  lemma {:induction false} ScanGrows(entries: seq<Item>, m: nat, n: nat, path: Paths.Path, depth: nat, budget: nat)
    requires m <= n <= |entries| && depth < MAX_SCAN_DEPTH
    ensures ScanEntries(entries, m, path, depth, budget).node.children
            <= ScanEntries(entries, n, path, depth, budget).node.children
    ensures ScanEntries(entries, m, path, depth, budget).visited <= ScanEntries(entries, n, path, depth, budget).visited
    decreases n - m
  {
    if m < n {
      ScanGrows(entries, m, n - 1, path, depth, budget);
    }
  }

  /** Different children of the same size make different scans, and stay different. */
  lemma ChildrenDiffer(before: Scan, c: Scan, d: Scan)
    requires Differ(c, d) && CountsVisited(c) && CountsVisited(d)
    ensures var s, t := Joined(before, c), Joined(before, d);
            && |s.node.children| == |t.node.children| && (s.node.children == t.node.children ==> |s.visited| == |t.visited|)
            && Differ(s, t)
  {
    var s, t := Joined(before, c), Joined(before, d);
    var n := |before.node.children|;
    assert s.node.children[n] == c.node && t.node.children[n] == d.node;
    if c.node == d.node {
      assert c.visited != d.visited && |c.visited| == |d.visited|;
      assert c.visited == s.visited[|before.visited|..] && d.visited == t.visited[|before.visited|..];
    }
  }

  lemma StayDifferent(s: Scan, t: Scan, later: Scan, later': Scan)
    requires Differ(s, t) && |s.node.children| == |t.node.children|
    requires s.node.children == t.node.children ==> |s.visited| == |t.visited|
    requires s.node.children <= later.node.children && s.visited <= later.visited
    requires t.node.children <= later'.node.children && t.visited <= later'.visited
    ensures Differ(later, later')
  {
    if s.node.children != t.node.children {
      assert s.node.children == later.node.children[..|s.node.children|];
      assert t.node.children == later'.node.children[..|t.node.children|];
    } else {
      assert s.visited == later.visited[..|s.visited|];
      assert t.visited == later'.visited[..|t.visited|];
    }
  }

  /** The first entries that make a scan unstable. */
  lemma {:induction false} FirstUnstable(entries: seq<Item>, n: nat, path: Paths.Path, depth: nat, budget: nat) returns (m: nat)
    requires n <= |entries| && depth < MAX_SCAN_DEPTH && !StableUpTo(entries, n, path, depth, budget)
    ensures m < n && IsOpened(entries[m], depth)
    ensures !IsStable(entries[m], path + [entries[m].name], depth + 1, ScanEntries(entries, m, path, depth, budget).left)
    decreases n
  {
    if StableUpTo(entries, n - 1, path, depth, budget) {
      m := n - 1;
    } else {
      m := FirstUnstable(entries, n - 1, path, depth, budget);
    }
  }

  /** Replacing one entry by a reordered one. */
  lemma ReplacedIsReordered(folder: Item, j: nat, e: Item)
    requires folder.Folder? && j < |folder.items| && Reordered(folder.items[j], e)
    ensures Reordered(folder, Listing(folder, folder.items[j := e]))
  {
    var listed := folder.items[j := e];
    forall k | 0 <= k < |folder.items|
      ensures Reordered(folder.items[k], listed[k])
    {
      IsItself(folder.items[k]);
    }
    assert listed[0..] == listed;
    PlaceByPlace(folder, 0, listed);
  }

  lemma {:induction false} PlaceByPlace(folder: Item, i: nat, listed: seq<Item>)
    requires folder.Folder? && i <= |folder.items| == |listed|
    requires forall k | i <= k < |listed| :: Reordered(folder.items[k], listed[k])
    ensures Matches(folder, i, listed[i..])
    decreases |folder.items| - i
  {
    if i < |folder.items| {
      PlaceByPlace(folder, i + 1, listed);
      assert Removed(listed[i..], 0) == listed[i + 1..];
      assert Reordered(folder.items[i], listed[i..][0]);
    }
  }

  /** Sorting the replaced listing replaces the entry where it stood. */
  lemma SortedReplaced(items: seq<Item>, j: nat, e: Item, m: nat, folder: Item)
    requires DifferentNames(items) && j < |items| && e.name == items[j].name && !items[j].Untyped? && !e.Untyped?
    requires folder == Folder("", true, items) && Reordered(items[j], e)
    requires m < |Sorted(items)| && Sorted(items)[m] == items[j]
    ensures |Sorted(items[j := e])| == |Sorted(items)|
    ensures forall k | 0 <= k < |Sorted(items)| :: Sorted(items[j := e])[k] == if k == m then e else Sorted(items)[k]
  {
    var listed := items[j := e];
    ReplacedIsReordered(folder, j, e);
    MatchesPairs(folder, 0, listed);
    SortedFromIs(items, 0);
    assert items[0..] == items;
    var a, b := Sorted(items), Sorted(listed);
    TypedDiffer(items);
    SortDiffers(Typed(items));
    forall k | 0 <= k < |a|
      ensures b[k] == if k == m then e else a[k]
    {
      assert Reordered(a[k], b[k]);
      SortedComesFrom(items, a[k]);
      SortedComesFrom(listed, b[k]);
      var x :| 0 <= x < |items| && items[x] == a[k];
      var y :| 0 <= y < |listed| && listed[y] == b[k];
      assert items[y].name == items[x].name;
    }
  }

  lemma SortedComesFrom(items: seq<Item>, x: Item)
    requires x in Sorted(items)
    ensures x in items
  {
    SortItemsHas(Typed(items));
    assert x in multiset(Sorted(items));
    TypedFrom(items, x);
  }

  lemma {:induction false} SameSoFar(a: seq<Item>, b: seq<Item>, m: nat, path: Paths.Path, depth: nat, budget: nat)
    requires m <= |a| && m <= |b| && depth < MAX_SCAN_DEPTH && forall k | 0 <= k < m :: a[k] == b[k]
    ensures ScanEntries(a, m, path, depth, budget) == ScanEntries(b, m, path, depth, budget)
    decreases m
  {
    if m > 0 {
      SameSoFar(a, b, m - 1, path, depth, budget);
    }
  }

  /** The scans of a folder and of the same with one opened entry exchanged differ, if
      the scans of the two entries do. */
  lemma ExchangeMatters(a: seq<Item>, b: seq<Item>, m: nat, path: Paths.Path, depth: nat, budget: nat)
    requires |a| == |b| && m < |a| && depth < MAX_SCAN_DEPTH
    requires forall k | 0 <= k < |a| && k != m :: a[k] == b[k]
    requires IsOpened(a[m], depth) && b[m].Folder? && b[m].name == a[m].name
    requires var left := ScanEntries(a, m, path, depth, budget).left;
             Differ(ScanFolder(a[m], path + [a[m].name], depth + 1, left), ScanFolder(b[m], path + [a[m].name], depth + 1, left))
    ensures Differ(ScanEntries(a, |a|, path, depth, budget), ScanEntries(b, |b|, path, depth, budget))
  {
    SameSoFar(a, b, m, path, depth, budget);
    var before := ScanEntries(a, m, path, depth, budget);
    JoinsOpened(a, m, path, depth, budget);
    JoinsOpened(b, m, path, depth, budget);
    ChildrenDiffer(before, Opened(a, m, path, depth, budget), Opened(b, m, path, depth, budget));
    ScanGrows(a, m + 1, |a|, path, depth, budget);
    ScanGrows(b, m + 1, |b|, path, depth, budget);
    StayDifferent(
      ScanEntries(a, m + 1, path, depth, budget), ScanEntries(b, m + 1, path, depth, budget),
      ScanEntries(a, |a|, path, depth, budget), ScanEntries(b, |b|, path, depth, budget));
  }

  /** The scan of the entry at `m`, with the budget left for it. */
  function Opened(entries: seq<Item>, m: nat, path: Paths.Path, depth: nat, budget: nat): Scan
    requires m < |entries| && entries[m].Folder? && depth + 1 < MAX_SCAN_DEPTH
  {
    ScanFolder(entries[m], path + [entries[m].name], depth + 1, ScanEntries(entries, m, path, depth, budget).left)
  }

  lemma JoinsOpened(entries: seq<Item>, m: nat, path: Paths.Path, depth: nat, budget: nat)
    requires m < |entries| && depth < MAX_SCAN_DEPTH && IsOpened(entries[m], depth)
    ensures var child := Opened(entries, m, path, depth, budget);
            && ScanEntries(entries, m + 1, path, depth, budget) == Joined(ScanEntries(entries, m, path, depth, budget), child)
            && CountsVisited(child)
  {
    ScanCountsVisited(
      entries[m], path + [entries[m].name], depth + 1, ScanEntries(entries, m, path, depth, budget).left);
  }

  /** A scan that is not stable sees something else in another order. */
  lemma {:induction false} UnstableDepends(folder: Item, path: Paths.Path, depth: nat, budget: nat) returns (other: Item)
    requires folder.Folder? && IsProper(folder) && depth < MAX_SCAN_DEPTH && !IsStable(folder, path, depth, budget)
    ensures Reordered(folder, other) && IsProper(other)
    ensures Differ(ScanFolder(folder, path, depth, budget), ScanFolder(other, path, depth, budget))
    decreases MAX_SCAN_DEPTH - depth
  {
    if budget < |folder.items| {
      var e :| e in folder.items && IsVisible(e, depth);
      var i :| 0 <= i < |folder.items| && folder.items[i] == e;
      other := CutListingMatters(folder, i, path, depth, budget);
    } else {
      var a := Sorted(folder.items);
      var left := budget - |folder.items|;
      var m := FirstUnstable(a, |a|, path, depth, left);
      var e := a[m];
      SortedComesFrom(folder.items, e);
      var e' := UnstableDepends(e, path + [e.name], depth + 1, ScanEntries(a, m, path, depth, left).left);
      other := Exchanged(folder, m, e', path, depth, budget);
    }
  }

  /** The opened entry at `m` in sorted order exchanged for a reordered one. */
  lemma Exchanged(folder: Item, m: nat, e: Item, path: Paths.Path, depth: nat, budget: nat) returns (other: Item)
    requires folder.Folder? && folder.readable && IsProper(folder) && depth < MAX_SCAN_DEPTH && |folder.items| <= budget
    requires m < |Sorted(folder.items)| && IsOpened(Sorted(folder.items)[m], depth)
    requires Reordered(Sorted(folder.items)[m], e) && IsProper(e)
    requires var a := Sorted(folder.items);
             var left := ScanEntries(a, m, path, depth, budget - |folder.items|).left;
             Differ(ScanFolder(a[m], path + [a[m].name], depth + 1, left), ScanFolder(e, path + [a[m].name], depth + 1, left))
    ensures Reordered(folder, other) && IsProper(other)
    ensures Differ(ScanFolder(folder, path, depth, budget), ScanFolder(other, path, depth, budget))
  {
    var a := Sorted(folder.items);
    SortedComesFrom(folder.items, a[m]);
    var j :| 0 <= j < |folder.items| && folder.items[j] == a[m];
    ReplacedIsReordered(folder, j, e);
    other := Listing(folder, folder.items[j := e]);
    ReplacedIsProper(folder, j, e);
    SortedReplaced(folder.items, j, e, m, Folder("", true, folder.items));
    WholeEntries(folder, budget);
    WholeEntries(other, budget);
    ExchangeMatters(a, Sorted(other.items), m, path, depth, budget - |folder.items|);
  }

  lemma ReplacedIsProper(folder: Item, j: nat, e: Item)
    requires folder.Folder? && IsProper(folder) && j < |folder.items| && IsProper(e) && e.name == folder.items[j].name
    ensures IsProper(Listing(folder, folder.items[j := e]))
  {
  }

  /** A proper tree with the same listings in another order. */
  ghost predicate IsReordering(folder: Item, other: Item) {
    Reordered(folder, other) && IsProper(other)
  }

  ghost predicate ForgetsOrder(folder: Item, path: Paths.Path, depth: nat, budget: nat)
    requires folder.Folder? && depth < MAX_SCAN_DEPTH
  {
    forall other | IsReordering(folder, other) ::
      ScanFolder(folder, path, depth, budget) == ScanFolder(other, path, depth, budget)
  }

  /** Exactly when a scan does not depend on the order in which directories are listed. */
  lemma OrderForgottenExactly(folder: Item, path: Paths.Path, depth: nat, budget: nat)
    requires folder.Folder? && IsProper(folder) && depth < MAX_SCAN_DEPTH
    ensures IsStable(folder, path, depth, budget) <==> ForgetsOrder(folder, path, depth, budget)
  {
    if IsStable(folder, path, depth, budget) {
      forall other | IsReordering(folder, other)
        ensures ScanFolder(folder, path, depth, budget) == ScanFolder(other, path, depth, budget)
      {
        StableForgetsOrder(folder, other, path, depth, budget);
      }
    } else {
      var other := UnstableDepends(folder, path, depth, budget);
      assert IsReordering(folder, other);
    }
  }
}
