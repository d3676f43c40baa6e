/** Paths as lists of components, and sorting them. */
module Paths {

  type Path = seq<string>

  // ----- The order on paths: component by component, character by character -----

  predicate TextAtMost(a: string, b: string) {
    a == [] || (b != [] && (a[0] < b[0] || (a[0] == b[0] && TextAtMost(a[1..], b[1..]))))
  }

  predicate AtMost(a: Path, b: Path) {
    a == [] || (b != [] && if a[0] == b[0] then AtMost(a[1..], b[1..]) else TextAtMost(a[0], b[0]))
  }

  lemma {:induction false} TextTotal(a: string, b: string)
    ensures TextAtMost(a, b) || TextAtMost(b, a)
    ensures TextAtMost(a, b) && TextAtMost(b, a) ==> a == b
  {
    if a != [] && b != [] && a[0] == b[0] {
      TextTotal(a[1..], b[1..]);
      assert a == [a[0]] + a[1..] && b == [b[0]] + b[1..];
    }
  }

  lemma {:induction false} TextTransitive(a: string, b: string, c: string)
    requires TextAtMost(a, b) && TextAtMost(b, c)
    ensures TextAtMost(a, c)
  {
    if a != [] && a[0] == b[0] == c[0] {
      TextTransitive(a[1..], b[1..], c[1..]);
    }
  }

  lemma {:induction false} Total(a: Path, b: Path)
    ensures AtMost(a, b) || AtMost(b, a)
    ensures AtMost(a, b) && AtMost(b, a) ==> a == b
  {
    if a != [] && b != [] {
      TextTotal(a[0], b[0]);
      if a[0] == b[0] {
        Total(a[1..], b[1..]);
        assert a == [a[0]] + a[1..] && b == [b[0]] + b[1..];
      }
    }
  }

  lemma {:induction false} Transitive(a: Path, b: Path, c: Path)
    requires AtMost(a, b) && AtMost(b, c)
    ensures AtMost(a, c)
  {
    if a != [] {
      if a[0] == b[0] == c[0] {
        Transitive(a[1..], b[1..], c[1..]);
      } else if a[0] != b[0] && b[0] != c[0] {
        TextTransitive(a[0], b[0], c[0]);
        TextTotal(a[0], b[0]);
      }
    }
  }

  // ----- What the order means, by position -----

  /** One text begins the other, or the first characters that differ decide. */
  ghost predicate TextComesFirst(a: string, b: string) {
    a <= b || exists i :: TextDiffersAt(a, b, i)
  }

  ghost predicate TextDiffersAt(a: string, b: string, i: int) {
    0 <= i < |a| && i < |b| && a[i] < b[i] && forall j | 0 <= j < i :: a[j] == b[j]
  }

  lemma {:induction false} TextOrder(a: string, b: string)
    ensures TextAtMost(a, b) <==> TextComesFirst(a, b)
  {
    if a != [] && b != [] {
      var x, y := a[1..], b[1..];
      TextOrder(x, y);
      assert a == [a[0]] + x && b == [b[0]] + y;
      assert a <= b <==> a[0] == b[0] && x <= y;
      if a[0] < b[0] {
        assert TextDiffersAt(a, b, 0);
      }
      if i :| TextDiffersAt(x, y, i) && a[0] == b[0] {
        assert TextDiffersAt(a, b, i + 1);
      }
      if i :| TextDiffersAt(a, b, i) && i > 0 {
        assert TextDiffersAt(x, y, i - 1);
      }
    }
  }

  /** The same for paths, with components for characters. */
  ghost predicate ComesFirst(a: Path, b: Path) {
    a <= b || exists i :: DiffersAt(a, b, i)
  }

  ghost predicate DiffersAt(a: Path, b: Path, i: int) {
    0 <= i < |a| && i < |b| && a[i] != b[i] && TextComesFirst(a[i], b[i]) && forall j | 0 <= j < i :: a[j] == b[j]
  }

  lemma {:induction false} PathOrder(a: Path, b: Path)
    ensures AtMost(a, b) <==> ComesFirst(a, b)
  {
    if a != [] && b != [] {
      var x, y := a[1..], b[1..];
      PathOrder(x, y);
      TextOrder(a[0], b[0]);
      assert a == [a[0]] + x && b == [b[0]] + y;
      assert a <= b <==> a[0] == b[0] && x <= y;
      if a[0] != b[0] && TextComesFirst(a[0], b[0]) {
        assert DiffersAt(a, b, 0);
      }
      if i :| DiffersAt(x, y, i) && a[0] == b[0] {
        assert DiffersAt(a, b, i + 1);
      }
      if i :| DiffersAt(a, b, i) && i > 0 {
        assert DiffersAt(x, y, i - 1);
      }
    }
  }

  // ----- Sorting -----

  ghost predicate Sorted(paths: seq<Path>) {
    forall i, j | 0 <= i < j < |paths| :: AtMost(paths[i], paths[j])
  }

  ghost predicate NoDuplicates(paths: seq<Path>) {
    forall i, j | 0 <= i < j < |paths| :: paths[i] != paths[j]
  }

  function Insert(p: Path, sorted: seq<Path>): seq<Path> {
    if sorted == [] || AtMost(p, sorted[0]) then [p] + sorted else [sorted[0]] + Insert(p, sorted[1..])
  }

  function Sort(paths: seq<Path>): seq<Path> {
    if paths == [] then [] else Insert(paths[0], Sort(paths[1..]))
  }

  /** The library's `dedup`: runs of equal neighbours shrink to one. */
  function Dedup(paths: seq<Path>): seq<Path> {
    if |paths| < 2 then paths
    else if paths[0] == paths[1] then Dedup(paths[1..])
    else [paths[0]] + Dedup(paths[1..])
  }

  lemma {:induction false} InsertedFrom(p: Path, sorted: seq<Path>, x: Path)
    requires x in Insert(p, sorted)
    ensures x == p || x in sorted
  {
    if sorted != [] && !AtMost(p, sorted[0]) && x != sorted[0] {
      InsertedFrom(p, sorted[1..], x);
    }
  }

  lemma {:induction false} InsertSorts(p: Path, sorted: seq<Path>)
    requires Sorted(sorted)
    ensures Sorted(Insert(p, sorted))
    ensures multiset(Insert(p, sorted)) == multiset(sorted) + multiset{p}
  {
    if sorted != [] {
      assert sorted == [sorted[0]] + sorted[1..];
      if AtMost(p, sorted[0]) {
        forall j | 0 <= j < |sorted|
          ensures AtMost(p, sorted[j])
        {
          if j > 0 {
            Transitive(p, sorted[0], sorted[j]);
          }
        }
      } else {
        Total(p, sorted[0]);
        InsertSorts(p, sorted[1..]);
        var rest := Insert(p, sorted[1..]);
        forall j | 0 <= j < |rest|
          ensures AtMost(sorted[0], rest[j])
        {
          InsertedFrom(p, sorted[1..], rest[j]);
        }
      }
    }
  }

  lemma {:induction false} SortSorts(paths: seq<Path>)
    ensures Sorted(Sort(paths)) && multiset(Sort(paths)) == multiset(paths)
  {
    if paths != [] {
      SortSorts(paths[1..]);
      InsertSorts(paths[0], Sort(paths[1..]));
      assert paths == [paths[0]] + paths[1..];
    }
  }

  lemma SameMembers(a: seq<Path>, b: seq<Path>)
    requires multiset(a) == multiset(b)
    ensures forall p :: p in a <==> p in b
  {
    forall p
      ensures p in a <==> p in b
    {
      assert p in a <==> p in multiset(a);
      assert p in b <==> p in multiset(b);
    }
  }

  lemma SameLeast(a: seq<Path>, b: seq<Path>)
    requires Sorted(a) && Sorted(b) && multiset(a) == multiset(b) && a != []
    ensures b != [] && a[0] == b[0]
  {
    SameMembers(a, b);
    assert a[0] in b;
    assert b[0] in a;
    Total(a[0], b[0]);
  }

  /** A sorted list is determined by its members and how often each occurs. */
  lemma {:induction false} SortedUnique(a: seq<Path>, b: seq<Path>)
    requires Sorted(a) && Sorted(b) && multiset(a) == multiset(b)
    ensures a == b
  {
    if a == [] {
      assert |multiset(b)| == 0;
    } else {
      SameLeast(a, b);
      assert a == [a[0]] + a[1..];
      assert b == [b[0]] + b[1..];
      assert multiset(a[1..]) == multiset(a) - multiset{a[0]} == multiset(b[1..]);
      SortedUnique(a[1..], b[1..]);
    }
  }

  lemma {:induction false} DedupKeeps(paths: seq<Path>)
    ensures |Dedup(paths)| <= |paths|
    ensures forall p :: p in Dedup(paths) <==> p in paths
  {
    if |paths| >= 2 {
      DedupKeeps(paths[1..]);
      assert paths == [paths[0]] + paths[1..] && paths[1] in paths[1..];
    }
  }

  lemma {:induction false} DedupSorted(paths: seq<Path>)
    requires Sorted(paths)
    ensures Sorted(Dedup(paths))
  {
    if |paths| >= 2 {
      DedupSorted(paths[1..]);
      DedupKeeps(paths[1..]);
      var rest := Dedup(paths[1..]);
      forall j | 0 <= j < |rest|
        ensures AtMost(paths[0], rest[j])
      {
        assert rest[j] in paths[1..];
      }
    }
  }
}
