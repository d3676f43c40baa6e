/** The bounded buffer of staged writes, which drops the least recently staged path
    first, against what a whole history of writes says it should hold. */
module StagingCache {
  import opened Prelude

  datatype Write = Write(path: string, bytes: Bytes)

  // ----- What a history means -----

  /** No later write has the same path. */
  predicate IsFinal(history: seq<Write>, i: nat)
    requires i < |history|
  {
    forall j | i < j < |history| :: history[j].path != history[i].path
  }

  /** The paths staged from position `i` on, each at its last write: oldest first. */
  function Finals(history: seq<Write>, i: nat): seq<string>
    requires i <= |history|
    decreases |history| - i
  {
    if i == |history| then []
    else if IsFinal(history, i) then [history[i].path] + Finals(history, i + 1)
    else Finals(history, i + 1)
  }

  /** The last bytes staged under a path. */
  function LastBytes(history: seq<Write>, path: string): Option<Bytes> {
    if history == [] then None
    else
      var w := history[|history| - 1];
      if w.path == path then Some(w.bytes) else LastBytes(history[..|history| - 1], path)
  }

  /** The `k` most recently staged distinct paths, oldest first. */
  function Recent(history: seq<Write>, k: nat): seq<string> {
    TakeLast(Finals(history, 0), k)
  }

  function TakeLast(s: seq<string>, k: nat): seq<string> {
    if |s| <= k then s else s[|s| - k..]
  }

  /** The paths staged after position `i`. */
  ghost function StagedAfter(history: seq<Write>, i: nat): set<string> {
    set j | i < j < |history| :: history[j].path
  }

  ghost predicate Distinct(s: seq<string>) {
    forall i, j | 0 <= i < j < |s| :: s[i] != s[j]
  }

  lemma {:induction false} FinalsAre(history: seq<Write>, i: nat)
    requires i <= |history|
    ensures Distinct(Finals(history, i))
    ensures forall p :: p in Finals(history, i) <==> exists j :: i <= j < |history| && history[j].path == p
    decreases |history| - i
  {
    if i < |history| {
      FinalsAre(history, i + 1);
      var rest := Finals(history, i + 1);
      if IsFinal(history, i) {
        assert history[i].path !in rest;
        DistinctCons(history[i].path, rest);
      }
      forall p
        ensures p in Finals(history, i) <==> exists j :: i <= j < |history| && history[j].path == p
      {
        if p == history[i].path && !IsFinal(history, i) {
          assert p in rest;
        }
        if p != history[i].path && exists j :: i <= j < |history| && history[j].path == p {
          assert p in rest;
        }
      }
    }
  }

  lemma DistinctCons(p: string, s: seq<string>)
    requires Distinct(s) && p !in s
    ensures Distinct([p] + s)
  {
  }

  /** Where a path's last write splits the list: what comes after it is what was
      staged later. */
  lemma {:induction false} FinalsSplit(history: seq<Write>, i: nat, at: nat)
    requires i <= at < |history| && IsFinal(history, at)
    ensures |Finals(history, i)| > |Finals(history, at + 1)|
    ensures Finals(history, i)[|Finals(history, i)| - |Finals(history, at + 1)|..] == Finals(history, at + 1)
    ensures Finals(history, i)[|Finals(history, i)| - |Finals(history, at + 1)| - 1] == history[at].path
    decreases at - i
  {
    if i < at {
      FinalsSplit(history, i + 1, at);
      assert Finals(history, i) == Finals(history, i + 1) || Finals(history, i)[1..] == Finals(history, i + 1);
    }
  }

  lemma {:induction false} DistinctCount(s: seq<string>)
    requires Distinct(s)
    ensures |set p | p in s| == |s|
  {
    if s != [] {
      DistinctCount(s[1..]);
      assert (set p | p in s) == {s[0]} + set p | p in s[1..];
    }
  }

  lemma TakeLastKeeps(s: seq<string>, k: nat, at: nat)
    requires Distinct(s) && at < |s|
    ensures s[at] in TakeLast(s, k) <==> |s| - at <= k
  {
    var last := TakeLast(s, k);
    var gap := |s| - |last|;
    assert forall j | 0 <= j < |last| :: last[j] == s[gap + j];
    if gap <= at {
      assert last[at - gap] == s[at];
    }
  }

  /** A path is recent exactly when it was staged and fewer than `k` other paths were
      staged after its last write. */
  lemma RecentMeans(history: seq<Write>, k: nat, path: string)
    ensures path in Recent(history, k)
            <==> exists i :: 0 <= i < |history| && history[i].path == path && IsFinal(history, i)
                   && |StagedAfter(history, i)| < k
  {
    var all := Finals(history, 0);
    FinalsAre(history, 0);
    if path in all {
      var at := LastAt(history, path);
      FinalsSplit(history, 0, at);
      FinalsAre(history, at + 1);
      var later := Finals(history, at + 1);
      DistinctCount(later);
      assert StagedAfter(history, at) == set p | p in later;
      TakeLastKeeps(all, k, |all| - |later| - 1);
      forall i | 0 <= i < |history| && history[i].path == path && IsFinal(history, i)
        ensures i == at
      {
      }
    }
  }

  /** The position of a path's last write. */
  lemma LastAt(history: seq<Write>, path: string) returns (at: nat)
    requires exists j :: 0 <= j < |history| && history[j].path == path
    ensures at < |history| && history[at].path == path && IsFinal(history, at)
  {
    var j :| 0 <= j < |history| && history[j].path == path;
    at := |history| - 1;
    while history[at].path != path
      invariant j <= at < |history|
      invariant forall m | at < m < |history| :: history[m].path != path
      decreases at
    {
      at := at - 1;
    }
  }

  /** The write at `i` is the path's last one, brought these bytes, and fewer than `k`
      other paths were written after it. */
  ghost predicate IsHeldFrom(history: seq<Write>, k: nat, path: string, bytes: Bytes, i: nat) {
    && i < |history| && history[i] == Write(path, bytes)
    && (forall j | i < j < |history| :: history[j].path != path)
    && |set j | i < j < |history| :: history[j].path| < k
  }

  lemma {:induction false} LastBytesAt(history: seq<Write>, path: string, i: nat)
    requires i < |history| && history[i].path == path && IsFinal(history, i)
    ensures LastBytes(history, path) == Some(history[i].bytes)
  {
    var n := |history| - 1;
    if i < n {
      LastBytesAt(history[..n], path, i);
    }
  }

  /** What a path holds, by the writes. */
  lemma HeldExactly(history: seq<Write>, k: nat, path: string)
    ensures var held := if path in Recent(history, k) then LastBytes(history, path) else None;
            && (forall bytes :: held == Some(bytes) <==> exists i: nat :: IsHeldFrom(history, k, path, bytes, i))
            && (held == None <==> forall i: nat, bytes :: !IsHeldFrom(history, k, path, bytes, i))
  {
    RecentMeans(history, k, path);
    forall i: nat, bytes | IsHeldFrom(history, k, path, bytes, i)
      ensures path in Recent(history, k) && LastBytes(history, path) == Some(bytes)
    {
      assert StagedAfter(history, i) == set j | i < j < |history| :: history[j].path;
      LastBytesAt(history, path, i);
    }
    if path in Recent(history, k) {
      var i: nat :| i < |history| && history[i].path == path && IsFinal(history, i) && |StagedAfter(history, i)| < k;
      assert StagedAfter(history, i) == set j | i < j < |history| :: history[j].path;
      LastBytesAt(history, path, i);
      assert IsHeldFrom(history, k, path, history[i].bytes, i);
    }
  }

  // ----- One more write -----

  function Without(s: seq<string>, path: string): seq<string> {
    if s == [] then []
    else if s[0] == path then Without(s[1..], path)
    else [s[0]] + Without(s[1..], path)
  }

  lemma {:induction false} WithoutAbsent(s: seq<string>, path: string)
    requires path !in s
    ensures Without(s, path) == s
  {
    if s != [] {
      WithoutAbsent(s[1..], path);
    }
  }

  lemma Reassociate(a: seq<string>, b: seq<string>, c: seq<string>)
    ensures a + (b + c) == (a + b) + c
  {
  }

  lemma {:induction false} WithoutConcat(s: seq<string>, t: seq<string>, path: string)
    ensures Without(s + t, path) == Without(s, path) + Without(t, path)
  {
    if s == [] {
      assert s + t == t;
    } else {
      WithoutConcat(s[1..], t, path);
      assert (s + t)[1..] == s[1..] + t;
      Reassociate([s[0]], Without(s[1..], path), Without(t, path));
    }
  }

  /** Removing a path from a list without repeats. */
  lemma {:induction false} WithoutIs(s: seq<string>, path: string)
    requires Distinct(s)
    ensures Distinct(Without(s, path))
    ensures forall p :: p in Without(s, path) <==> p in s && p != path
    ensures |Without(s, path)| == if path in s then |s| - 1 else |s|
  {
    if s != [] {
      var rest := Without(s[1..], path);
      WithoutIs(s[1..], path);
      assert s == [s[0]] + s[1..] && s[0] !in s[1..];
      if s[0] != path {
        DistinctCons(s[0], rest);
        assert path in s <==> path in s[1..];
      } else {
        WithoutAbsent(s[1..], path);
      }
    }
  }

  /** A new write moves its path to the end of the list. */
  lemma {:induction false} FinalsSnoc(history: seq<Write>, w: Write, i: nat)
    requires i <= |history|
    ensures Finals(history + [w], i) == Without(Finals(history, i), w.path) + [w.path]
    decreases |history| - i
  {
    var longer := history + [w];
    if i == |history| {
      assert IsFinal(longer, i);
      assert Finals(longer, i + 1) == [];
    } else {
      FinalsSnoc(history, w, i + 1);
      assert longer[i] == history[i];
      assert IsFinal(longer, i) <==> IsFinal(history, i) && history[i].path != w.path by {
        assert longer[|history|] == w;
        assert forall j | i < j < |history| :: longer[j] == history[j];
      }
      if IsFinal(history, i) {
        assert Finals(history, i)[1..] == Finals(history, i + 1);
      }
    }
  }

  /** How the list of recent paths moves: the path goes to the end, and if it is new
      and the list is over the limit, the oldest goes. */
  lemma RecentSnoc(history: seq<Write>, w: Write, k: nat)
    ensures Recent(history + [w], k) == TakeLast(Without(Recent(history, k), w.path) + [w.path], k)
  {
    var all := Finals(history, 0);
    FinalsAre(history, 0);
    FinalsSnoc(history, w, 0);
    assert Finals(history + [w], 0) == Without(all, w.path) + [w.path];
    MoveToEnd(all, w.path, k);
  }

  lemma MoveToEnd(all: seq<string>, path: string, k: nat)
    requires Distinct(all)
    ensures TakeLast(Without(all, path) + [path], k) == TakeLast(Without(TakeLast(all, k), path) + [path], k)
  {
    if |all| > k {
      var older, recent := all[..|all| - k], TakeLast(all, k);
      assert all == older + recent;
      WithoutConcat(older, recent, path);
      assert Distinct(recent);
      WithoutIs(recent, path);
      if path in recent {
        var at :| 0 <= at < |recent| && recent[at] == path;
        assert all[|older| + at] == path;
        WithoutAbsent(older, path);
      }
      var gone, kept := Without(older, path), Without(recent, path) + [path];
      assert Without(all, path) + [path] == gone + kept;
      LongEnough(gone, kept, k);
    }
  }

  lemma LongEnough(front: seq<string>, back: seq<string>, k: nat)
    requires |back| >= k
    ensures TakeLast(front + back, k) == TakeLast(back, k)
  {
  }

  lemma {:induction false} LastBytesSnoc(history: seq<Write>, w: Write, path: string)
    ensures LastBytes(history + [w], path) == if path == w.path then Some(w.bytes) else LastBytes(history, path)
  {
    assert (history + [w])[..|history|] == history;
  }

  // ----- The buffer -----

  class StagingCache {
    var maxOpenFiles: nat
    var files: map<string, Bytes>
    var openOrder: seq<string>
    /** Every write since the buffer was empty. */
    ghost var history: seq<Write>

    ghost predicate Consistent()
      reads this
    {
      Agree(openOrder, files)
    }

    /** The buffer holds exactly the most recently staged distinct paths, each with
        its last bytes, and lists them once each, oldest first. */
    ghost predicate Valid()
      reads this
    {
      && Consistent()
      && openOrder == Recent(history, maxOpenFiles)
      && forall p | p in files :: LastBytes(history, p) == Some(files[p])
    }

    constructor (maxOpenFiles: nat)
      ensures Valid() && history == [] && this.maxOpenFiles == maxOpenFiles
    {
      this.maxOpenFiles, files, openOrder, history := maxOpenFiles, map[], [], [];
    }

    /** Stages bytes under a path. */
    method Stage(path: string, bytes: Bytes)
      requires Valid()
      modifies this
      ensures Valid() && maxOpenFiles == old(maxOpenFiles)
      ensures history == old(history) + [Write(path, bytes)]
    {
      ghost var before := openOrder;
      WithoutIs(openOrder, path);
      if path in files {
        openOrder := Without(openOrder, path);
      } else {
        WithoutAbsent(openOrder, path);
      }
      openOrder := openOrder + [path];
      files := files[path := bytes];
      RecentSnoc(history, Write(path, bytes), maxOpenFiles);
      forall p | p in files
        ensures LastBytes(history + [Write(path, bytes)], p) == Some(files[p])
      {
        LastBytesSnoc(history, Write(path, bytes), p);
      }
      EvictIfNeeded();
      history := history + [Write(path, bytes)];
    }

    /** Drops the oldest paths until the limit holds. */
    method EvictIfNeeded()
      requires Consistent()
      modifies this`files, this`openOrder
      ensures Consistent()
      ensures openOrder == TakeLast(old(openOrder), maxOpenFiles)
      ensures IsPart(files, old(files))
    {
      ghost var before, was := openOrder, files;
      AgreeCount(openOrder, files);
      while |files| > maxOpenFiles
        invariant Agree(openOrder, files) && |files| == |openOrder|
        invariant TakeLast(openOrder, maxOpenFiles) == TakeLast(before, maxOpenFiles)
        invariant IsPart(files, was)
        decreases |openOrder|
      {
        if openOrder == [] {
          break;
        }
        DropFirst(openOrder, files);
        ShorterSameLast(openOrder, maxOpenFiles);
        files := files - {openOrder[0]};
        openOrder := openOrder[1..];
        AgreeCount(openOrder, files);
      }
    }

    /** The bytes under a path: its last ones if the path is among the most recently
        staged, and nothing otherwise. By the writes: those of the last write of the
        path, if fewer than the limit of other paths were written after it. */
    method Get(path: string) returns (r: Option<Bytes>)
      requires Valid()
      ensures r == if path in Recent(history, maxOpenFiles) then LastBytes(history, path) else None
      ensures forall bytes :: r == Some(bytes) <==> exists i: nat :: IsHeldFrom(history, maxOpenFiles, path, bytes, i)
      ensures r == None <==> forall i: nat, bytes :: !IsHeldFrom(history, maxOpenFiles, path, bytes, i)
    {
      HeldExactly(history, maxOpenFiles, path);
      if path in files {
        return Some(files[path]);
      }
      return None;
    }

    method StagedCount() returns (n: nat)
      requires Valid()
      ensures n == Min(maxOpenFiles, |set i | 0 <= i < |history| :: history[i].path|)
    {
      n := |files|;
      DistinctCount(openOrder);
      FinalsAre(history, 0);
      DistinctCount(Finals(history, 0));
      assert (set i | 0 <= i < |history| :: history[i].path) == set p | p in Finals(history, 0);
    }
  }

  /** The list names exactly the files, once each. */
  ghost predicate Agree(order: seq<string>, files: map<string, Bytes>) {
    Distinct(order) && files.Keys == set p | p in order
  }

  lemma ShorterSameLast(s: seq<string>, k: nat)
    requires |s| > k
    ensures TakeLast(s[1..], k) == TakeLast(s, k)
  {
  }

  ghost predicate IsPart(part: map<string, Bytes>, whole: map<string, Bytes>) {
    forall p | p in part :: p in whole && whole[p] == part[p]
  }

  lemma DropFirst(order: seq<string>, files: map<string, Bytes>)
    requires Agree(order, files) && order != []
    ensures Agree(order[1..], files - {order[0]})
  {
    assert order == [order[0]] + order[1..];
    assert (files - {order[0]}).Keys == files.Keys - {order[0]};
  }

  lemma AgreeCount(order: seq<string>, files: map<string, Bytes>)
    requires Agree(order, files)
    ensures |files| == |order|
  {
    DistinctCount(order);
    assert |files| == |files.Keys|;
  }
}
