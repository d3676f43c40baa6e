/** Listing the regular files below a directory with an explicit stack. */
module TreeWalk {
  import opened Prelude
  import opened Paths

  /** What lies at a path. Directories list their entries in any order, and may be
      unreadable; an entry may vanish before it is looked at. */
  datatype Entry =
    | File
    | Directory(readable: bool, items: seq<Named>)
    | Other
    | Vanished

  datatype Named = Named(name: string, entry: Entry)

  /** What looking up the starting path gives. */
  datatype Start = Missing | Denied | Found(entry: Entry)

  datatype Child = Child(path: Path, entry: Entry)

  // ----- What the walk should find -----

  /** The names lead from the directory to a regular file. */
  ghost predicate LeadsToFile(dir: Entry, names: seq<string>, recursive: bool)
    decreases |names|, 1
  {
    && names != [] && dir.Directory? && dir.readable
    && exists i :: 0 <= i < |dir.items| && ItemLeads(dir.items[i], names, recursive)
  }

  ghost predicate ItemLeads(item: Named, names: seq<string>, recursive: bool)
    requires names != []
    decreases |names|, 0
  {
    item.name == names[0] && (if |names| == 1 then item.entry.File? else recursive && LeadsToFile(item.entry, names[1..], recursive))
  }

  ghost predicate IsFileBelow(dir: Entry, path: Path, p: Path, recursive: bool) {
    |path| < |p| && p[..|path|] == path && LeadsToFile(dir, p[|path|..], recursive)
  }

  /** No directory lists a name twice. */
  ghost predicate IsProper(e: Entry) {
    e.Directory? ==>
      && (forall i, j | 0 <= i < j < |e.items| :: e.items[i].name != e.items[j].name)
      && (forall i | 0 <= i < |e.items| :: IsProper(e.items[i].entry))
  }

  // ----- The files below a directory, by recursion -----

  function FilesIn(path: Path, dir: Entry, recursive: bool): multiset<Path>
    requires dir.Directory?
    decreases dir, 1, 0
  {
    if dir.readable then FilesOf(path, dir, |dir.items|, recursive) else multiset{}
  }

  /** Of the first `n` entries. */
  function FilesOf(path: Path, dir: Entry, n: nat, recursive: bool): multiset<Path>
    requires dir.Directory? && n <= |dir.items|
    decreases dir, 0, n
  {
    if n == 0 then multiset{}
    else FilesOf(path, dir, n - 1, recursive) + ChildFiles(ChildAt(path, dir.items[n - 1]), recursive)
  }

  function ChildAt(path: Path, item: Named): (c: Child)
    ensures c.entry == item.entry
  {
    Child(path + [item.name], item.entry)
  }

  function ChildFiles(c: Child, recursive: bool): multiset<Path>
    decreases c.entry, 2, 0
  {
    if c.entry.File? then multiset{c.path}
    else if c.entry.Directory? && recursive then FilesIn(c.path, c.entry, recursive)
    else multiset{}
  }

  /** The recursive definition has every file the names can lead to, once. */
  lemma {:induction false} FilesInAre(path: Path, dir: Entry, recursive: bool, p: Path)
    requires dir.Directory? && IsProper(dir)
    ensures FilesIn(path, dir, recursive)[p] == if IsFileBelow(dir, path, p, recursive) then 1 else 0
    decreases dir, 1, 0
  {
    if dir.readable {
      FilesOfAre(path, dir, |dir.items|, recursive, p);
    }
  }

  /** One of the first `n` entries leads to the path. */
  ghost predicate OneLeads(path: Path, dir: Entry, n: nat, recursive: bool, p: Path)
    requires dir.Directory? && n <= |dir.items|
  {
    && |path| < |p| && p[..|path|] == path
    && exists i :: 0 <= i < n && ItemLeads(dir.items[i], p[|path|..], recursive)
  }

  lemma {:induction false} FilesOfAre(path: Path, dir: Entry, n: nat, recursive: bool, p: Path)
    requires dir.Directory? && IsProper(dir) && n <= |dir.items|
    ensures FilesOf(path, dir, n, recursive)[p] == if OneLeads(path, dir, n, recursive, p) then 1 else 0
    decreases dir, 0, n
  {
    if n > 0 {
      FilesOfAre(path, dir, n - 1, recursive, p);
      ChildFilesAre(path, dir.items[n - 1], recursive, p);
      OneLeadsNext(path, dir, n, recursive, p);
    }
  }

  /** The entry leads to the path. */
  ghost predicate ThisLeads(path: Path, item: Named, recursive: bool, p: Path) {
    |path| < |p| && p[..|path|] == path && ItemLeads(item, p[|path|..], recursive)
  }

  lemma OneLeadsNext(path: Path, dir: Entry, n: nat, recursive: bool, p: Path)
    requires dir.Directory? && IsProper(dir) && 0 < n <= |dir.items|
    ensures OneLeads(path, dir, n, recursive, p)
            <==> OneLeads(path, dir, n - 1, recursive, p) || ThisLeads(path, dir.items[n - 1], recursive, p)
    ensures !(OneLeads(path, dir, n - 1, recursive, p) && ThisLeads(path, dir.items[n - 1], recursive, p))
  {
  }

  lemma {:induction false} ChildFilesAre(path: Path, item: Named, recursive: bool, p: Path)
    requires IsProper(item.entry)
    ensures ChildFiles(ChildAt(path, item), recursive)[p] == if ThisLeads(path, item, recursive, p) then 1 else 0
    decreases item.entry, 2, 0
  {
    if item.entry.Directory? {
      FilesInAre(path + [item.name], item.entry, recursive, p);
    }
    ItemIs(path, item, recursive, p);
  }

  /** What a single entry leads to. */
  lemma ItemIs(path: Path, item: Named, recursive: bool, p: Path)
    ensures var here := path + [item.name];
            ThisLeads(path, item, recursive, p)
            <==> (item.entry.File? && p == here)
                 || (item.entry.Directory? && recursive && IsFileBelow(item.entry, here, p, recursive))
  {
    var here := path + [item.name];
    if ThisLeads(path, item, recursive, p) {
      var names := p[|path|..];
      assert p == path + names && p[..|here|] == path + [names[0]] == here;
      if |names| == 1 {
        assert p == here;
      } else {
        assert p[|here|..] == names[1..];
      }
    }
    if |here| <= |p| && p[..|here|] == here {
      var names := p[|path|..];
      assert path == here[..|path|] == p[..|path|];
      assert names[0] == here[|path|] == item.name;
      assert names[1..] == p[|here|..];
      if p == here {
        assert |names| == 1;
      } else if IsFileBelow(item.entry, here, p, recursive) {
        assert LeadsToFile(item.entry, names[1..], recursive);
      }
    }
  }

  // ----- The stack -----

  function Size(e: Entry): nat
    decreases e, 1, 0
  {
    if e.Directory? then 1 + SizeOf(e, |e.items|) else 0
  }

  function SizeOf(dir: Entry, n: nat): nat
    requires dir.Directory? && n <= |dir.items|
    decreases dir, 0, n
  {
    if n == 0 then 0 else SizeOf(dir, n - 1) + Size(dir.items[n - 1].entry)
  }

  /** The files of a list of children, and of a stack of directories. */
  function AllFiles(children: seq<Child>, recursive: bool): multiset<Path> {
    if children == [] then multiset{}
    else AllFiles(children[..|children| - 1], recursive) + ChildFiles(children[|children| - 1], recursive)
  }

  function AllSize(children: seq<Child>): nat {
    if children == [] then 0 else AllSize(children[..|children| - 1]) + Size(children[|children| - 1].entry)
  }

  lemma AllSnoc(a: seq<Child>, c: Child, recursive: bool)
    ensures AllFiles(a + [c], recursive) == AllFiles(a, recursive) + ChildFiles(c, recursive)
    ensures AllSize(a + [c]) == AllSize(a) + Size(c.entry)
  {
    assert (a + [c])[..|a|] == a;
  }

  /** Adding the same on both sides. */
  lemma Both(a: multiset<Path>, b: multiset<Path>, c: multiset<Path>, d: multiset<Path>, x: multiset<Path>)
    requires a + b == c + d
    ensures (a + x) + b == c + (d + x)
    ensures a + (b + x) == c + (d + x)
  {
    assert c + (d + x) == (c + d) + x;
    assert (a + x) + b == (a + b) + x;
    assert a + (b + x) == (a + b) + x;
  }

  lemma Swap(a: multiset<Path>, b: multiset<Path>, c: multiset<Path>)
    ensures (a + b) + c == (a + c) + b
  {
  }

  /** A directory's first `n` entries as children. */
  function ChildrenOf(path: Path, dir: Entry, n: nat): seq<Child>
    requires dir.Directory? && n <= |dir.items|
  {
    if n == 0 then []
    else ChildrenOf(path, dir, n - 1) + [ChildAt(path, dir.items[n - 1])]
  }

  lemma {:induction false} ChildrenOfAre(path: Path, dir: Entry, n: nat, recursive: bool)
    requires dir.Directory? && n <= |dir.items|
    ensures AllFiles(ChildrenOf(path, dir, n), recursive) == FilesOf(path, dir, n, recursive)
  {
    if n > 0 {
      ChildrenOfAre(path, dir, n - 1, recursive);
      OneMoreChild(ChildrenOf(path, dir, n - 1), ChildAt(path, dir.items[n - 1]), FilesOf(path, dir, n - 1, recursive), recursive);
    }
  }

  lemma OneMoreChild(children: seq<Child>, c: Child, files: multiset<Path>, recursive: bool)
    requires AllFiles(children, recursive) == files
    ensures AllFiles(children + [c], recursive) == files + ChildFiles(c, recursive)
  {
    AllSnoc(children, c, recursive);
  }

  lemma {:induction false} ChildrenOfSize(path: Path, dir: Entry, n: nat)
    requires dir.Directory? && n <= |dir.items|
    ensures AllSize(ChildrenOf(path, dir, n)) == SizeOf(dir, n)
  {
    if n > 0 {
      ChildrenOfSize(path, dir, n - 1);
      AllSnoc(ChildrenOf(path, dir, n - 1), ChildAt(path, dir.items[n - 1]), true);
    }
  }

  function InsertChild(c: Child, sorted: seq<Child>): seq<Child> {
    var n := |sorted|;
    if n == 0 || AtMost(sorted[n - 1].path, c.path) then sorted + [c]
    else InsertChild(c, sorted[..n - 1]) + [sorted[n - 1]]
  }

  function SortChildren(children: seq<Child>): seq<Child> {
    var n := |children|;
    if n == 0 then [] else InsertChild(children[n - 1], SortChildren(children[..n - 1]))
  }

  lemma {:induction false} InsertChildKeeps(c: Child, sorted: seq<Child>, recursive: bool)
    ensures AllFiles(InsertChild(c, sorted), recursive) == AllFiles(sorted, recursive) + ChildFiles(c, recursive)
    ensures AllSize(InsertChild(c, sorted)) == AllSize(sorted) + Size(c.entry)
  {
    var n := |sorted|;
    if n == 0 || AtMost(sorted[n - 1].path, c.path) {
      AllSnoc(sorted, c, recursive);
    } else {
      InsertChildKeeps(c, sorted[..n - 1], recursive);
      AllSnoc(InsertChild(c, sorted[..n - 1]), sorted[n - 1], recursive);
      Swap(AllFiles(sorted[..n - 1], recursive), ChildFiles(c, recursive), ChildFiles(sorted[n - 1], recursive));
    }
  }

  lemma {:induction false} SortChildrenKeeps(children: seq<Child>, recursive: bool)
    ensures AllFiles(SortChildren(children), recursive) == AllFiles(children, recursive)
    ensures AllSize(SortChildren(children)) == AllSize(children)
  {
    var n := |children|;
    if n > 0 {
      SortChildrenKeeps(children[..n - 1], recursive);
      InsertChildKeeps(children[n - 1], SortChildren(children[..n - 1]), recursive);
    }
  }

  ghost predicate AreDirectories(stack: seq<Child>) {
    forall i | 0 <= i < |stack| :: stack[i].entry.Directory?
  }

  /** A file is taken, and a directory pushed when the walk is recursive. */
  method VisitChild(child: Child, recursive: bool, stack: seq<Child>, out: seq<Path>)
    returns (stack': seq<Child>, out': seq<Path>)
    requires AreDirectories(stack)
    ensures AreDirectories(stack') && (recursive || stack' == stack)
    ensures AllSize(stack') <= AllSize(stack) + Size(child.entry)
    ensures || (multiset(out') == multiset(out) + ChildFiles(child, recursive) && stack' == stack)
            || (out' == out && AllFiles(stack', true) == AllFiles(stack, true) + ChildFiles(child, recursive))
  {
    if child.entry.File? {
      return stack, out + [child.path];
    }
    if child.entry.Directory? && recursive {
      AllSnoc(stack, child, true);
      return stack + [child], out;
    }
    return stack, out;
  }

  method VisitChildren(children: seq<Child>, recursive: bool, stack: seq<Child>, out: seq<Path>)
    returns (stack': seq<Child>, out': seq<Path>)
    requires AreDirectories(stack)
    ensures AreDirectories(stack') && (recursive || stack' == stack)
    ensures multiset(out') + AllFiles(stack', true)
            == multiset(out) + AllFiles(stack, true) + AllFiles(children, recursive)
    ensures AllSize(stack') <= AllSize(stack) + AllSize(children)
  {
    stack', out' := stack, out;
    ghost var base := multiset(out) + AllFiles(stack, true);
    for i := 0 to |children|
      invariant AreDirectories(stack') && (recursive || stack' == stack)
      invariant multiset(out') + AllFiles(stack', true) == base + AllFiles(children[..i], recursive)
      invariant AllSize(stack') <= AllSize(stack) + AllSize(children[..i])
    {
      ghost var taken := children[..i];
      Both(multiset(out'), AllFiles(stack', true), base, AllFiles(taken, recursive), ChildFiles(children[i], recursive));
      AllSnoc(taken, children[i], recursive);
      assert children[..i + 1] == taken + [children[i]];
      stack', out' := VisitChild(children[i], recursive, stack', out');
    }
    assert children[..|children|] == children;
  }

  /** Opens the directory on top of the stack. */
  method WalkTop(stack: seq<Child>, recursive: bool, out: seq<Path>) returns (stack': seq<Child>, out': seq<Path>)
    requires AreDirectories(stack) && stack != []
    requires recursive || |stack| == 1
    ensures AreDirectories(stack') && (recursive || stack' == [])
    ensures var top := stack[|stack| - 1];
            multiset(out') + AllFiles(stack', true)
            == multiset(out) + AllFiles(stack[..|stack| - 1], true) + FilesIn(top.path, top.entry, recursive)
    ensures AllSize(stack') < AllSize(stack)
  {
    var rest, top := stack[..|stack| - 1], stack[|stack| - 1];
    AllSnoc(rest, top, true);
    assert stack == rest + [top];
    if !top.entry.readable {
      return rest, out;
    }
    var n := |top.entry.items|;
    var children := ChildrenOf(top.path, top.entry, n);
    ChildrenOfAre(top.path, top.entry, n, recursive);
    ChildrenOfSize(top.path, top.entry, n);
    SortChildrenKeeps(children, recursive);
    stack', out' := VisitChildren(SortChildren(children), recursive, rest, out);
  }

  /** What the walk returns. */
  ghost predicate AreFilesBelow(files: seq<Path>, dir: Entry, path: Path, recursive: bool) {
    Sorted(files) && NoDuplicates(files) && forall p :: p in files <==> IsFileBelow(dir, path, p, recursive)
  }

  lemma OnceEach(files: seq<Path>, dir: Entry, path: Path, recursive: bool)
    requires dir.Directory? && IsProper(dir)
    requires Sorted(files) && multiset(files) == FilesIn(path, dir, recursive)
    ensures AreFilesBelow(files, dir, path, recursive)
  {
    forall p
      ensures p in files <==> IsFileBelow(dir, path, p, recursive)
    {
      FilesInAre(path, dir, recursive, p);
      assert p in files <==> p in multiset(files);
    }
    forall i, j | 0 <= i < j < |files|
      ensures files[i] != files[j]
    {
      FilesInAre(path, dir, recursive, files[i]);
      NotTwice(files, i, j);
    }
  }

  lemma NotTwice(files: seq<Path>, i: nat, j: nat)
    requires i < j < |files| && multiset(files)[files[i]] <= 1
    ensures files[i] != files[j]
  {
    assert files == files[..j] + files[j..];
    assert files[i] in files[..j] && files[j] in files[j..];
    assert multiset(files)[files[i]] == multiset(files[..j])[files[i]] + multiset(files[j..])[files[i]];
  }

  /** The files below a directory, or the file itself. The explicit stack visits what
      the recursive definition does, so the result is the sorted list of exactly the
      regular files, once each. */
  method WalkLocalTree(path: Path, start: Start, recursive: bool) returns (r: Result<seq<Path>, ()>)
    requires start.Found? ==> IsProper(start.entry)
    ensures r.Err? <==> start.Denied?
    ensures start.Missing? ==> r == Ok([])
    ensures start.Found? && start.entry.File? ==> r == Ok([path])
    ensures start.Found? && (start.entry.Other? || start.entry.Vanished?) ==> r == Ok([])
    ensures start.Found? && start.entry.Directory? ==> r.Ok? && AreFilesBelow(r.value, start.entry, path, recursive)
  {
    if start.Denied? {
      return Err(());
    }
    if start.Missing? || start.entry.Other? || start.entry.Vanished? {
      return Ok([]);
    }
    if start.entry.File? {
      return Ok([path]);
    }
    var out := WalkDirectory(path, start.entry, recursive);
    SortSorts(out);
    OnceEach(Sort(out), start.entry, path, recursive);
    return Ok(Sort(out));
  }

  /** The loop over the stack. */
  method WalkDirectory(path: Path, dir: Entry, recursive: bool) returns (out: seq<Path>)
    requires dir.Directory?
    ensures multiset(out) == FilesIn(path, dir, recursive)
  {
    var stack := [Child(path, dir)];
    out := [];
    ghost var started := false;
    while stack != []
      invariant AreDirectories(stack)
      invariant !started ==> stack == [Child(path, dir)] && out == []
      invariant started ==> multiset(out) + AllFiles(stack, true) == FilesIn(path, dir, recursive)
      invariant started && !recursive ==> stack == []
      decreases AllSize(stack)
    {
      Top(stack);
      stack, out := WalkTop(stack, recursive, out);
      started := true;
    }
  }

  lemma Top(stack: seq<Child>)
    requires stack != []
    ensures AllFiles(stack, true)
            == AllFiles(stack[..|stack| - 1], true) + ChildFiles(stack[|stack| - 1], true)
  {
    AllSnoc(stack[..|stack| - 1], stack[|stack| - 1], true);
    assert stack == stack[..|stack| - 1] + [stack[|stack| - 1]];
  }

  // ----- The order in which directories list their entries -----

  /** The same tree, with every directory listed in any order. */
  ghost predicate Reordered(one: Entry, other: Entry)
    decreases one, 1, 0
  {
    match one
    case Directory(readable, items) =>
      other.Directory? && other.readable == readable && Matches(one, 0, other.items)
    case _ => other == one
  }

  /** The entries from position `i` on are those listed, name by name. */
  ghost predicate Matches(dir: Entry, i: nat, listed: seq<Named>)
    requires dir.Directory? && i <= |dir.items|
    decreases dir, 0, |dir.items| - i
  {
    if i == |dir.items| then listed == []
    else exists k :: 0 <= k < |listed| && Pairs(dir, i, listed, k) && Matches(dir, i + 1, Removed(listed, k))
  }

  ghost predicate Pairs(dir: Entry, i: nat, listed: seq<Named>, k: nat)
    requires dir.Directory? && i < |dir.items| && k < |listed|
    decreases dir, 0, 0
  {
    dir.items[i].name == listed[k].name && Reordered(dir.items[i].entry, listed[k].entry)
  }

  function Removed(listed: seq<Named>, k: nat): seq<Named>
    requires k < |listed|
  {
    listed[..k] + listed[k + 1..]
  }

  /** Every entry is listed. */
  lemma {:induction false} EntryIsListed(dir: Entry, i: nat, listed: seq<Named>, j: nat) returns (k: nat)
    requires dir.Directory? && i <= j < |dir.items| && Matches(dir, i, listed)
    ensures k < |listed| && Pairs(dir, j, listed, k)
    decreases j - i
  {
    var l :| 0 <= l < |listed| && Pairs(dir, i, listed, l) && Matches(dir, i + 1, Removed(listed, l));
    if i == j {
      k := l;
    } else {
      var k' := EntryIsListed(dir, i + 1, Removed(listed, l), j);
      k := if k' < l then k' else k' + 1;
      assert Removed(listed, l)[k'] == listed[k];
    }
  }

  /** Everything listed is an entry. */
  lemma {:induction false} ListedIsEntry(dir: Entry, i: nat, listed: seq<Named>, k: nat) returns (j: nat)
    requires dir.Directory? && i <= |dir.items| && k < |listed| && Matches(dir, i, listed)
    ensures i <= j < |dir.items| && Pairs(dir, j, listed, k)
    decreases |dir.items| - i
  {
    var l :| 0 <= l < |listed| && Pairs(dir, i, listed, l) && Matches(dir, i + 1, Removed(listed, l));
    if k == l {
      j := i;
    } else {
      var k' := if k < l then k else k - 1;
      assert Removed(listed, l)[k'] == listed[k];
      j := ListedIsEntry(dir, i + 1, Removed(listed, l), k');
    }
  }

  /** The same names lead to files. */
  lemma {:induction false} ReorderedLeads(one: Entry, other: Entry, names: seq<string>, recursive: bool)
    requires Reordered(one, other)
    ensures LeadsToFile(one, names, recursive) <==> LeadsToFile(other, names, recursive)
    decreases |names|, 1
  {
    if names != [] && one.Directory? {
      if LeadsToFile(one, names, recursive) {
        var j :| 0 <= j < |one.items| && ItemLeads(one.items[j], names, recursive);
        var k := EntryIsListed(one, 0, other.items, j);
        PairLeads(one, j, other.items, k, names, recursive);
      }
      if LeadsToFile(other, names, recursive) {
        var k :| 0 <= k < |other.items| && ItemLeads(other.items[k], names, recursive);
        var j := ListedIsEntry(one, 0, other.items, k);
        PairLeads(one, j, other.items, k, names, recursive);
      }
    }
  }

  lemma {:induction false} PairLeads(dir: Entry, j: nat, listed: seq<Named>, k: nat, names: seq<string>, recursive: bool)
    requires dir.Directory? && j < |dir.items| && k < |listed| && Pairs(dir, j, listed, k) && names != []
    ensures ItemLeads(dir.items[j], names, recursive) <==> ItemLeads(listed[k], names, recursive)
    decreases |names|, 0
  {
    if |names| > 1 {
      ReorderedLeads(dir.items[j].entry, listed[k].entry, names[1..], recursive);
    }
  }

  /** Walks of one tree give the same list, in whatever order its directories are
      listed each time. */
  lemma OrderDoesNotMatter(a: seq<Path>, b: seq<Path>, one: Entry, other: Entry, path: Path, recursive: bool)
    requires AreFilesBelow(a, one, path, recursive) && AreFilesBelow(b, other, path, recursive)
    requires Reordered(one, other)
    ensures a == b
  {
    forall p
      ensures p in a <==> p in b
    {
      if |path| < |p| && p[..|path|] == path {
        ReorderedLeads(one, other, p[|path|..], recursive);
      }
      assert p in a <==> IsFileBelow(one, path, p, recursive);
      assert p in b <==> IsFileBelow(other, path, p, recursive);
    }
    SameSortedLists(a, b);
  }

  lemma SameSortedLists(a: seq<Path>, b: seq<Path>)
    requires Sorted(a) && Sorted(b) && NoDuplicates(a) && NoDuplicates(b)
    requires forall p :: p in a <==> p in b
    ensures a == b
  {
    forall p
      ensures multiset(a)[p] == multiset(b)[p]
    {
      OnceOrNever(a, p);
      OnceOrNever(b, p);
      assert p in a <==> p in b;
    }
    assert multiset(a) == multiset(b);
    SortedUnique(a, b);
  }

  lemma {:induction false} OnceOrNever(files: seq<Path>, p: Path)
    requires NoDuplicates(files)
    ensures multiset(files)[p] == if p in files then 1 else 0
  {
    if files != [] {
      OnceOrNever(files[1..], p);
      assert files == [files[0]] + files[1..];
    }
  }
}
