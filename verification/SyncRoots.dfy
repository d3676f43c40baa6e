/** Admission of sync roots, and the status of a path among the admitted roots. */
module SyncRoots {
  import opened Prelude
  import Text
  import PathText

  /** A canonical absolute path, as its components. */
  type Components = seq<string>

  // ----- Admission -----

  datatype Issue =
    | PathDoesNotExist
    | PathIsNotADirectory
    | AlreadyTracked
    | OverlapsExisting(existing: string)
    | InsideMountedDrive(mount: string)
    | InsideIgnoredFolder(ignored: string)

  /** What the file system says about a candidate: its canonical path, if any, and
      whether that is a directory. */
  datatype Candidate = Candidate(canonical: Option<Components>, isDirectory: bool)

  /** The component that begins an absolute path. */
  const ROOT := "/"

  function WithoutDots(names: Components): Components {
    if names == [] then []
    else if names[0] == "." then WithoutDots(names[1..])
    else [names[0]] + WithoutDots(names[1..])
  }

  /** The components of a path's text: the root if it is absolute, then its names. A name
      "." is skipped, unless it begins a relative path. */
  function Parts(path: string): Components {
    var names := PathText.Segments(path);
    if path != [] && path[0] == '/' then [ROOT] + WithoutDots(names)
    else if names != [] && names[0] == "." then ["."] + WithoutDots(names[1..])
    else WithoutDots(names)
  }

  /** The components of a canonical path. */
  function Whole(canonical: Components): Components {
    [ROOT] + canonical
  }

  ghost predicate Nested(a: Components, b: Components) {
    a <= b || b <= a
  }

  function TrimEndSeparators(s: string): string {
    if s != [] && (s[|s| - 1] == '/' || s[|s| - 1] == '\\') then TrimEndSeparators(s[..|s| - 1]) else s
  }

  predicate IsIgnoredUnder(candidate: string, prefix: string) {
    var trimmed := TrimEndSeparators(prefix);
    && trimmed != [] && trimmed <= candidate
    && (candidate == trimmed || candidate[|trimmed|] == '/' || candidate[|trimmed|] == '\\')
  }

  /** All paths of a list, read. */
  function PartsOf(paths: seq<string>): seq<Components> {
    seq(|paths|, i requires 0 <= i < |paths| => Parts(paths[i]))
  }

  ghost predicate FirstNested(own: Components, roots: seq<Components>, i: nat) {
    && i < |roots| && Nested(own, roots[i])
    && forall j | 0 <= j < i :: !Nested(own, roots[j])
  }

  ghost predicate NestedInNone(own: Components, roots: seq<Components>) {
    forall i | 0 <= i < |roots| :: !Nested(own, roots[i])
  }

  ghost predicate FirstMount(own: Components, mounts: seq<Components>, i: nat) {
    && i < |mounts| && mounts[i] <= own
    && forall j | 0 <= j < i :: !(mounts[j] <= own)
  }

  ghost predicate UnderNoMount(own: Components, mounts: seq<Components>) {
    forall i | 0 <= i < |mounts| :: !(mounts[i] <= own)
  }

  ghost predicate FirstIgnored(text: string, ignored: seq<string>, i: nat) {
    && i < |ignored| && IsIgnoredUnder(text, ignored[i])
    && forall j | 0 <= j < i :: !IsIgnoredUnder(text, ignored[j])
  }

  ghost predicate UnderNothingIgnored(text: string, ignored: seq<string>) {
    forall i | 0 <= i < |ignored| :: !IsIgnoredUnder(text, ignored[i])
  }

  /** The candidate collides with no tracked root, no mounted drive and no ignored
      folder. */
  ghost predicate IsFree(canonical: Components, existing: seq<string>, mounts: seq<string>, ignored: seq<string>) {
    && NestedInNone(Whole(canonical), PartsOf(existing)) && UnderNoMount(Whole(canonical), PartsOf(mounts))
    && UnderNothingIgnored(PathText.Render(canonical), ignored)
  }

  method FindNested(own: Components, roots: seq<Components>) returns (i: nat)
    ensures i <= |roots|
    ensures i < |roots| ==> FirstNested(own, roots, i)
    ensures i == |roots| ==> NestedInNone(own, roots)
  {
    i := 0;
    while i < |roots|
      invariant 0 <= i <= |roots|
      invariant forall j | 0 <= j < i :: !Nested(own, roots[j])
    {
      if own == roots[i] || roots[i] <= own || own <= roots[i] {
        return;
      }
      i := i + 1;
    }
  }

  method FindMount(own: Components, mounts: seq<Components>) returns (i: nat)
    ensures i <= |mounts|
    ensures i < |mounts| ==> FirstMount(own, mounts, i)
    ensures i == |mounts| ==> UnderNoMount(own, mounts)
  {
    i := 0;
    while i < |mounts|
      invariant 0 <= i <= |mounts|
      invariant forall j | 0 <= j < i :: !(mounts[j] <= own)
    {
      if own == mounts[i] || mounts[i] <= own {
        return;
      }
      i := i + 1;
    }
  }

  method FindIgnored(text: string, ignored: seq<string>) returns (i: nat)
    ensures i <= |ignored|
    ensures i < |ignored| ==> FirstIgnored(text, ignored, i)
    ensures i == |ignored| ==> UnderNothingIgnored(text, ignored)
  {
    i := 0;
    while i < |ignored|
      invariant 0 <= i <= |ignored|
      invariant forall j | 0 <= j < i :: !IsIgnoredUnder(text, ignored[j])
    {
      if IsIgnoredUnder(text, ignored[i]) {
        return;
      }
      i := i + 1;
    }
  }

  /** What the first collision says, in the order of the checks. */
  ghost predicate IsVerdict(
    canonical: Components, existing: seq<string>, mounts: seq<string>, ignored: seq<string>, r: Result<Components, Issue>)
  {
    var own, text := Whole(canonical), PathText.Render(canonical);
    var roots, drives := PartsOf(existing), PartsOf(mounts);
    if !NestedInNone(own, roots) then
      exists i: nat :: FirstNested(own, roots, i)
        && r == Err(if roots[i] == own then AlreadyTracked else OverlapsExisting(existing[i]))
    else if !UnderNoMount(own, drives) then
      exists i: nat :: FirstMount(own, drives, i) && r == Err(InsideMountedDrive(mounts[i]))
    else if !UnderNothingIgnored(text, ignored) then
      exists i: nat :: FirstIgnored(text, ignored, i) && r == Err(InsideIgnoredFolder(ignored[i]))
    else r == Ok(canonical)
  }

  /** A candidate is accepted exactly when it is a directory that collides with
      nothing; otherwise the first tracked root it is nested with decides, then the
      first mount, then the first ignored folder. */
  method Classify(candidate: Candidate, existing: seq<string>, mounts: seq<string>, ignored: seq<string>)
    returns (r: Result<Components, Issue>)
    ensures candidate.canonical.None? ==> r == Err(PathDoesNotExist)
    ensures candidate.canonical.Some? && !candidate.isDirectory ==> r == Err(PathIsNotADirectory)
    ensures candidate.canonical.Some? && candidate.isDirectory ==>
              && (r.Ok? <==> IsFree(candidate.canonical.value, existing, mounts, ignored))
              && IsVerdict(candidate.canonical.value, existing, mounts, ignored, r)
  {
    if candidate.canonical.None? {
      return Err(PathDoesNotExist);
    }
    var canonical := candidate.canonical.value;
    if !candidate.isDirectory {
      return Err(PathIsNotADirectory);
    }
    var own := Whole(canonical);
    var roots := PartsOf(existing);
    var i := FindNested(own, roots);
    if i < |existing| {
      assert FirstNested(own, roots, i);
      return Err(if own == roots[i] then AlreadyTracked else OverlapsExisting(existing[i]));
    }
    var drives := PartsOf(mounts);
    i := FindMount(own, drives);
    if i < |mounts| {
      assert FirstMount(own, drives, i);
      return Err(InsideMountedDrive(mounts[i]));
    }
    var text := PathText.Render(canonical);
    i := FindIgnored(text, ignored);
    if i < |ignored| {
      assert FirstIgnored(text, ignored, i);
      return Err(InsideIgnoredFolder(ignored[i]));
    }
    return Ok(canonical);
  }

  // ----- Runs of additions and removals -----

  datatype Change =
    | Add(candidate: Candidate, mounts: seq<string>, ignored: seq<string>)
    | Remove(i: nat)

  /** An accepted candidate is tracked under its printed canonical path. */
  ghost function Changed(roots: seq<string>, change: Change): seq<string> {
    match change
    case Add(Candidate(canonical, isDirectory), mounts, ignored) =>
      if canonical.Some? && isDirectory && IsFree(canonical.value, roots, mounts, ignored)
      then roots + [PathText.Render(canonical.value)]
      else roots
    case Remove(i) => if i < |roots| then roots[..i] + roots[i + 1..] else roots
  }

  ghost function RootsAfter(changes: seq<Change>, n: nat): seq<string>
    requires n <= |changes|
  {
    if n == 0 then [] else Changed(RootsAfter(changes, n - 1), changes[n - 1])
  }

  /** Proper components, none of them ".". */
  ghost predicate IsCanonical(canonical: Components) {
    PathText.AreSegments(canonical) && "." !in canonical
  }

  lemma {:induction false} NoDotsToSkip(names: Components)
    requires "." !in names
    ensures WithoutDots(names) == names
  {
    if names != [] {
      NoDotsToSkip(names[1..]);
    }
  }

  /** A printed canonical path is read as it was. */
  lemma PartsOfRender(canonical: Components)
    requires IsCanonical(canonical)
    ensures Parts(PathText.Render(canonical)) == Whole(canonical)
  {
    PathText.SegmentsOfRender(canonical);
    NoDotsToSkip(canonical);
    var text := PathText.Render(canonical);
    assert text != [] && text[0] == '/' by {
      PathText.NormalForm(text);
    }
  }

  /** A relative path collides with no candidate, unless it is empty: then it is nested
      with every one. */
  lemma RelativeRoots(canonical: Components, existing: string)
    requires existing == [] || existing[0] != '/'
    requires PathText.AreSegments(canonical)
    ensures Nested(Whole(canonical), Parts(existing)) <==> existing == []
  {
    PathText.SegmentsAreSegments(existing);
    var names, parts := PathText.Segments(existing), Parts(existing);
    PartsAreNames(names);
    if existing != [] {
      HasName(existing);
      assert names[0] in names && PathText.AreSegments(names[1..]);
      PartsAreNames(names[1..]);
      assert PathText.AreSegments(parts) && parts != [];
      assert PathText.IsSegment(parts[0]) && parts[0] != ROOT;
      assert Whole(canonical)[0] == ROOT;
    }
  }

  lemma {:induction false} HasName(path: string)
    requires path != [] && path[0] != '/'
    ensures PathText.Segments(path) != []
  {
    var n := |path| - 1;
    assert path == path[..n] + [path[n]];
    if n == 0 {
      PathText.SegmentsChar([], path[0]);
      assert [] + [path[0]] == path;
    } else if path[n] == '/' {
      HasName(path[..n]);
      PathText.SegmentsSlash(path[..n]);
    } else {
      PathText.SegmentsChar(path[..n], path[n]);
    }
  }

  lemma {:induction false} PartsAreNames(names: Components)
    requires PathText.AreSegments(names)
    ensures PathText.AreSegments(WithoutDots(names))
  {
    if names != [] {
      PartsAreNames(names[1..]);
    }
  }

  /** The file system's canonical paths have proper components. */
  ghost predicate AreCanonical(changes: seq<Change>) {
    forall i | 0 <= i < |changes| && changes[i].Add? && changes[i].candidate.canonical.Some? ::
      IsCanonical(changes[i].candidate.canonical.value)
  }

  /** A printed canonical path. */
  ghost predicate IsTracked(root: string) {
    PathText.IsNormal(root) && "." !in PathText.Segments(root)
  }

  /** The roots are printed canonical paths, no two nested. */
  ghost predicate Separate(roots: seq<string>) {
    && (forall i | 0 <= i < |roots| :: IsTracked(roots[i]))
    && (forall i, j | 0 <= i < j < |roots| :: !Nested(Parts(roots[i]), Parts(roots[j])))
  }

  lemma AddKeepsSeparate(roots: seq<string>, canonical: Components, mounts: seq<string>, ignored: seq<string>)
    requires Separate(roots) && IsCanonical(canonical) && IsFree(canonical, roots, mounts, ignored)
    ensures Separate(roots + [PathText.Render(canonical)])
  {
    var root := PathText.Render(canonical);
    PathText.SegmentsOfRender(canonical);
    PathText.NormalForm(root);
    PartsOfRender(canonical);
    var longer := roots + [root];
    forall i, j | 0 <= i < j < |longer|
      ensures !Nested(Parts(longer[i]), Parts(longer[j]))
    {
      if j == |roots| {
        assert !Nested(Whole(canonical), PartsOf(roots)[i]);
      }
    }
  }

  /** Whatever is added and removed, the tracked roots stay pairwise non-nested. */
  lemma {:induction false} RootsStaySeparate(changes: seq<Change>, n: nat)
    requires n <= |changes| && AreCanonical(changes)
    ensures Separate(RootsAfter(changes, n))
  {
    if n > 0 {
      RootsStaySeparate(changes, n - 1);
      var roots, change := RootsAfter(changes, n - 1), changes[n - 1];
      match change {
        case Add(Candidate(canonical, isDirectory), mounts, ignored) =>
          if canonical.Some? && isDirectory && IsFree(canonical.value, roots, mounts, ignored) {
            assert changes[n - 1].candidate.canonical == canonical;
            AddKeepsSeparate(roots, canonical.value, mounts, ignored);
          }
        case Remove(i) =>
      }
    }
  }

  // ----- Which root a path is in -----

  datatype RootView = RootView(syncId: nat, localPath: string, paused: bool)

  datatype Inputs = Inputs(roots: seq<RootView>, pausedIds: seq<nat>, queuedIds: seq<nat>, erroredIds: seq<nat>)

  datatype Status = InSync | InProgress | NoSync | Invalid

  /** The textual test, where `/` is the platform's separator, as on Unix. */
  predicate PathWithin(candidate: string, root: string) {
    candidate == root || (root < candidate && candidate[|root|] == '/')
  }

  function RootStatus(root: RootView, inputs: Inputs): Status {
    if root.paused || root.syncId in inputs.pausedIds then NoSync
    else if root.syncId in inputs.erroredIds then NoSync
    else if root.syncId in inputs.queuedIds then InProgress
    else InSync
  }

  /** A root that contains the path, and no root with a longer path does. */
  ghost predicate IsDeepest(roots: seq<RootView>, path: string, root: RootView) {
    && root in roots && PathWithin(path, root.localPath)
    && forall other | other in roots && PathWithin(path, other.localPath) :: |other.localPath| <= |root.localPath|
  }

  /** The verdicts that the set of roots permits. */
  ghost predicate Permits(inputs: Inputs, path: string, status: Status) {
    if exists root :: root in inputs.roots && PathWithin(path, root.localPath) then
      exists root :: IsDeepest(inputs.roots, path, root) && status == RootStatus(root, inputs)
    else status == Invalid
  }

  method FilesystemStatus(path: string, inputs: Inputs) returns (status: Status)
    ensures Permits(inputs, path, status)
  {
    var best: Option<RootView> := None;
    var roots := inputs.roots;
    for i := 0 to |roots|
      invariant best.None? ==> forall j | 0 <= j < i :: !PathWithin(path, roots[j].localPath)
      invariant best.Some? ==>
                  && best.value in roots && PathWithin(path, best.value.localPath)
                  && forall j | 0 <= j < i && PathWithin(path, roots[j].localPath) ::
                       |roots[j].localPath| <= |best.value.localPath|
    {
      var root := roots[i];
      if PathWithin(path, root.localPath) && (best.None? || |root.localPath| > |best.value.localPath|) {
        best := Some(root);
      }
    }
    if best.None? {
      return Invalid;
    }
    var root := best.value;
    assert IsDeepest(roots, path, root);
    if root.paused || root.syncId in inputs.pausedIds {
      return NoSync;
    }
    if root.syncId in inputs.erroredIds {
      return NoSync;
    }
    if root.syncId in inputs.queuedIds {
      return InProgress;
    }
    return InSync;
  }

  ghost predicate DistinctPaths(roots: seq<RootView>) {
    forall a, b | a in roots && b in roots && a.localPath == b.localPath :: a == b
  }

  /** With distinct local paths the verdict does not depend on the order of the
      roots, nor on how often one is listed. */
  lemma OrderDoesNotMatter(inputs: Inputs, other: Inputs, path: string, status: Status, status': Status)
    requires other == inputs.(roots := other.roots)
    requires forall root :: root in inputs.roots <==> root in other.roots
    requires DistinctPaths(inputs.roots)
    requires Permits(inputs, path, status) && Permits(other, path, status')
    ensures status == status'
  {
    if exists root :: root in inputs.roots && PathWithin(path, root.localPath) {
      var a :| IsDeepest(inputs.roots, path, a) && status == RootStatus(a, inputs);
      var b :| IsDeepest(other.roots, path, b) && status' == RootStatus(b, other);
      assert |a.localPath| == |b.localPath|;
      assert a.localPath == path[..|a.localPath|] == b.localPath;
    }
  }

  // ----- Text containment and component containment -----

  lemma {:induction false} SlashedConcat(a: Components, b: Components)
    ensures PathText.Slashed(a + b) == PathText.Slashed(a) + PathText.Slashed(b)
  {
    if b == [] {
      assert a + b == a;
    } else {
      var n := |b| - 1;
      SlashedConcat(a, b[..n]);
      assert a + b == (a + b[..n]) + [b[n]];
      PathText.SlashedSnoc(a + b[..n], b[n]);
    }
  }

  /** On canonical paths the textual test is containment of components, except
      that the file system root contains nothing but itself. */
  lemma WithinIsPrefix(path: Components, root: Components)
    requires PathText.AreSegments(path) && PathText.AreSegments(root)
    ensures PathWithin(PathText.Render(path), PathText.Render(root)) <==> root <= path && (root == [] ==> path == [])
  {
    var c, r := PathText.Render(path), PathText.Render(root);
    PathText.SegmentsOfRender(path);
    PathText.SegmentsOfRender(root);
    PathText.SlashedIsClean(path);
    if root == [] {
      assert PathText.NoDoubleSlash(c);
    } else {
      if root <= path {
        var rest := path[|root|..];
        assert path == root + rest;
        SlashedConcat(root, rest);
        assert PathText.AreSegments(rest);
        PathText.SlashedIsClean(rest);
      }
      if PathWithin(c, r) && c != r {
        var x := c[|r| + 1..];
        assert c == r + ['/'] + x;
        Text.SplitConcat(r, '/', x);
        Text.NonEmptyConcat(Text.Split(r, '/'), Text.Split(x, '/'));
        assert path == root + PathText.Segments(x);
      }
    }
  }

  /** So at most one tracked root contains any given path, and the status of a
      path is the status of that root. */
  lemma AtMostOneRoot(roots: seq<string>, path: Components, i: nat, j: nat)
    requires Separate(roots) && PathText.AreSegments(path)
    requires i < |roots| && j < |roots|
    requires PathWithin(PathText.Render(path), roots[i]) && PathWithin(PathText.Render(path), roots[j])
    ensures i == j
  {
    var a, b := PathText.Segments(roots[i]), PathText.Segments(roots[j]);
    TrackedParts(roots[i]);
    TrackedParts(roots[j]);
    WithinIsPrefix(path, a);
    WithinIsPrefix(path, b);
    PrefixesAreNested(a, b, path);
  }

  lemma PrefixesAreNested(a: Components, b: Components, path: Components)
    requires a <= path && b <= path
    ensures Nested(Whole(a), Whole(b)) && Nested(Whole(b), Whole(a))
  {
    assert a == path[..|a|] && b == path[..|b|];
    assert Whole(a) == Whole(path)[..|a| + 1] && Whole(b) == Whole(path)[..|b| + 1];
  }

  lemma TrackedParts(root: string)
    requires IsTracked(root)
    ensures var names := PathText.Segments(root);
            PathText.AreSegments(names) && root == PathText.Render(names) && Parts(root) == Whole(names)
  {
    PathText.NormalForm(root);
    PathText.SegmentsAreSegments(root);
    PartsOfRender(PathText.Segments(root));
  }

  // ----- Admission, read off the components -----

  /** Slashes and backslashes at the end of an ignored folder do not count; the folder
      itself is ignored, and what follows it after a slash or a backslash. */
  lemma IgnoredExactly(candidate: string, folder: string, tail: string)
    requires forall i | 0 <= i < |tail| :: tail[i] == '/' || tail[i] == '\\'
    requires folder == [] || (folder[|folder| - 1] != '/' && folder[|folder| - 1] != '\\')
    ensures IsIgnoredUnder(candidate, folder + tail) <==>
            && folder != []
            && (candidate == folder || exists rest: string :: candidate == folder + "/" + rest || candidate == folder + "\\" + rest)
  {
    TrimmedEnd(folder, tail);
    if folder < candidate {
      var rest := candidate[|folder| + 1..];
      assert candidate == folder + [candidate[|folder|]] + rest;
    }
    if rest: string :| candidate == folder + "/" + rest || candidate == folder + "\\" + rest {
      assert candidate[..|folder|] == folder;
    }
  }

  lemma {:induction false} TrimmedEnd(s: string, tail: string)
    requires forall i | 0 <= i < |tail| :: tail[i] == '/' || tail[i] == '\\'
    requires s == [] || (s[|s| - 1] != '/' && s[|s| - 1] != '\\')
    ensures TrimEndSeparators(s + tail) == s
  {
    if tail == [] {
      assert s + tail == s;
    } else {
      var n := |tail| - 1;
      TrimmedEnd(s, tail[..n]);
      assert (s + tail)[..|s| + n] == s + tail[..n] && (s + tail)[|s| + n] == tail[n];
    }
  }

  /** Names without a backslash. */
  ghost predicate IsPlain(canonical: Components) {
    IsCanonical(canonical) && forall i | 0 <= i < |canonical| :: '\\' !in canonical[i]
  }

  lemma {:induction false} NoBackslash(canonical: Components)
    requires IsPlain(canonical)
    ensures '\\' !in PathText.Slashed(canonical)
    decreases |canonical|
  {
    if canonical != [] {
      NoBackslash(canonical[..|canonical| - 1]);
    }
  }

  /** An ignored folder written out in full holds the paths that begin with its names;
      the root directory cannot be ignored. */
  lemma IgnoredIsPrefix(canonical: Components, folder: Components)
    requires IsPlain(canonical) && IsPlain(folder)
    ensures IsIgnoredUnder(PathText.Render(canonical), PathText.Render(folder)) <==> folder != [] && folder <= canonical
  {
    var c, f := PathText.Render(canonical), PathText.Render(folder);
    WithinIsPrefix(canonical, folder);
    NoBackslash(canonical);
    NoBackslash(folder);
    if folder == [] {
      TrimmedEnd([], f);
      assert [] + f == f;
    } else {
      PathText.SlashedIsClean(folder);
      TrimmedEnd(f, []);
      assert f + [] == f;
      if f < c {
        assert c[|f|] in c;
      }
    }
  }

  function Rendered(paths: seq<Components>): seq<string> {
    seq(|paths|, i requires 0 <= i < |paths| => PathText.Render(paths[i]))
  }

  ghost predicate AllPlain(paths: seq<Components>) {
    forall i | 0 <= i < |paths| :: IsPlain(paths[i])
  }

  /** A candidate is free exactly when it neither lies in nor holds a tracked root, lies
      in no mounted drive, and lies in no ignored folder. */
  lemma FreeExactly(canonical: Components, roots: seq<Components>, mounts: seq<Components>, ignored: seq<Components>)
    requires IsPlain(canonical) && AllPlain(roots) && AllPlain(mounts) && AllPlain(ignored)
    ensures IsFree(canonical, Rendered(roots), Rendered(mounts), Rendered(ignored)) <==>
            && (forall i | 0 <= i < |roots| :: !(roots[i] <= canonical) && !(canonical <= roots[i]))
            && (forall i | 0 <= i < |mounts| :: !(mounts[i] <= canonical))
            && (forall i | 0 <= i < |ignored| :: ignored[i] == [] || !(ignored[i] <= canonical))
  {
    NestedByNames(canonical, roots);
    MountedByNames(canonical, mounts);
    IgnoredByNames(canonical, ignored);
  }

  lemma WholePrefix(a: Components, b: Components)
    ensures Whole(a) <= Whole(b) <==> a <= b
  {
    if |a| <= |b| {
      assert Whole(b)[..|a| + 1] == Whole(b[..|a|]);
      assert Whole(a)[1..] == a && Whole(b[..|a|])[1..] == b[..|a|];
    }
  }

  lemma NestedByNames(canonical: Components, roots: seq<Components>)
    requires AllPlain(roots)
    ensures NestedInNone(Whole(canonical), PartsOf(Rendered(roots))) <==>
            forall i | 0 <= i < |roots| :: !(roots[i] <= canonical) && !(canonical <= roots[i])
  {
    var parts := PartsOf(Rendered(roots));
    forall i | 0 <= i < |roots|
      ensures Nested(Whole(canonical), parts[i]) <==> roots[i] <= canonical || canonical <= roots[i]
    {
      PartsOfRender(roots[i]);
      WholePrefix(roots[i], canonical);
      WholePrefix(canonical, roots[i]);
    }
  }

  lemma MountedByNames(canonical: Components, mounts: seq<Components>)
    requires AllPlain(mounts)
    ensures UnderNoMount(Whole(canonical), PartsOf(Rendered(mounts))) <==>
            forall i | 0 <= i < |mounts| :: !(mounts[i] <= canonical)
  {
    var parts := PartsOf(Rendered(mounts));
    forall i | 0 <= i < |mounts|
      ensures parts[i] <= Whole(canonical) <==> mounts[i] <= canonical
    {
      PartsOfRender(mounts[i]);
      WholePrefix(mounts[i], canonical);
    }
  }

  lemma IgnoredByNames(canonical: Components, ignored: seq<Components>)
    requires IsPlain(canonical) && AllPlain(ignored)
    ensures UnderNothingIgnored(PathText.Render(canonical), Rendered(ignored)) <==>
            forall i | 0 <= i < |ignored| :: ignored[i] == [] || !(ignored[i] <= canonical)
  {
    forall i | 0 <= i < |ignored|
      ensures IsIgnoredUnder(PathText.Render(canonical), Rendered(ignored)[i]) <==> ignored[i] != [] && ignored[i] <= canonical
    {
      IgnoredIsPrefix(canonical, ignored[i]);
    }
  }

  /** A name "." counts for nothing in an absolute path. */
  lemma DotIsSkipped(a: Components, b: Components)
    requires PathText.AreSegments(a) && PathText.AreSegments(b)
    ensures Parts(PathText.Render(a + ["."] + b)) == Parts(PathText.Render(a + b))
  {
    var dotted := a + ["."] + b;
    assert forall x | x in dotted :: PathText.IsSegment(x);
    PathText.SegmentsOfRender(dotted);
    PathText.SegmentsOfRender(a + b);
    PathText.NormalForm(PathText.Render(dotted));
    PathText.NormalForm(PathText.Render(a + b));
    DotDropped(a, b);
  }

  lemma {:induction false} DotDropped(a: Components, b: Components)
    ensures WithoutDots(a + ["."] + b) == WithoutDots(a + b)
  {
    if a == [] {
      assert a + b == b && (a + ["."] + b)[1..] == b;
    } else {
      DotDropped(a[1..], b);
      assert (a + ["."] + b)[1..] == a[1..] + ["."] + b && (a + b)[1..] == a[1..] + b;
    }
  }

  /** What a root's status says about its four flags. */
  lemma StatusExactly(root: RootView, inputs: Inputs)
    ensures var stopped := root.paused || root.syncId in inputs.pausedIds || root.syncId in inputs.erroredIds;
            && (RootStatus(root, inputs) == NoSync <==> stopped)
            && (RootStatus(root, inputs) == InProgress <==> !stopped && root.syncId in inputs.queuedIds)
            && (RootStatus(root, inputs) == InSync <==> !stopped && root.syncId !in inputs.queuedIds)
  {
  }
}
