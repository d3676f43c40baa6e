/** Resolution of drive paths to numeric ids, with a bounded cache whose entries
    live for a fixed time. */
module PathResolver {
  import opened Prelude
  import PathText

  datatype Kind = Folder | File

  datatype ListEntry = ListEntry(name: string, isFolder: bool, folderId: Option<nat>, fileId: Option<nat>)

  datatype Listing = Listing(folderId: nat, entries: seq<ListEntry>)

  datatype ApiError = ResultCode(code: nat) | Unreachable

  /** What `listfolder` answers at a moment, for a path. */
  type World = (nat, string) -> Result<Listing, ApiError>

  datatype ResolveError =
    | InvalidPath(path: string)
    | NotFound(path: string, segment: string)
    | ExpectedFolder(path: string)
    | ExpectedFile(path: string)
    | Ambiguous(path: string, count: nat)
    | MissingId(path: string)
    | Transport(path: string, source: ApiError)

  datatype Found = Found(kind: Kind, id: nat)

  function TransportErr(path: string, err: ApiError): ResolveError {
    if err == ResultCode(2005) then NotFound(path, path) else Transport(path, err)
  }

  function MatchKind(path: string, actual: Kind, id: nat, expected: Kind): Result<nat, ResolveError> {
    match (actual, expected)
    case (Folder, Folder) => Ok(id)
    case (File, File) => Ok(id)
    case (File, Folder) => Err(ExpectedFolder(path))
    case (Folder, File) => Err(ExpectedFile(path))
  }

  /** The id an entry carries for its kind. */
  function IdOf(e: ListEntry): Option<nat> {
    if e.isFolder then e.folderId else e.fileId
  }

  function Named(entries: seq<ListEntry>, name: string): seq<ListEntry> {
    if entries == [] then []
    else
      var n := |entries| - 1;
      Named(entries[..n], name) + if entries[n].name == name then [entries[n]] else []
  }

  // ----- Resolution without a cache -----

  /** What the drive holds at a normalised path at moment `t`. */
  function Locate(world: World, t: nat, path: string): Result<Found, ResolveError>
    requires '/' in path
  {
    if path == "/" then
      match world(t, "/")
      case Err(err) => Err(TransportErr(path, err))
      case Ok(listing) => Ok(Found(Folder, listing.folderId))
    else
      var (parent, last) := PathText.SplitParent(path);
      match world(t, parent)
      case Err(err) => Err(TransportErr(path, err))
      case Ok(listing) => Identify(path, last, Named(listing.entries, last))
  }

  function Identify(path: string, last: string, matches: seq<ListEntry>): Result<Found, ResolveError> {
    if matches == [] then Err(NotFound(path, last))
    else if |matches| > 1 then Err(Ambiguous(path, |matches|))
    else
      var id := IdOf(matches[0]);
      if id.None? then Err(MissingId(path))
      else Ok(Found(if matches[0].isFolder then Folder else File, id.value))
  }

  /** The answer when every lookup asks the server. The root is known to be a
      folder without asking. */
  function Uncached(world: World, t: nat, path: string, expected: Kind): Result<nat, ResolveError>
    requires '/' in path
  {
    if path == "/" && expected == File then Err(ExpectedFile(path))
    else
      match Locate(world, t, path)
      case Err(error) => Err(error)
      case Ok(found) => MatchKind(path, found.kind, found.id, expected)
  }

  // ----- The answer, read off the parent's listing -----

  /** Where the listing has an entry of this name. */
  ghost function Positions(entries: seq<ListEntry>, name: string): set<nat> {
    set i: nat | i < |entries| && entries[i].name == name
  }

  /** The entry at `i`, and no other, has this name. */
  ghost predicate OnlyAt(entries: seq<ListEntry>, name: string, i: nat) {
    i < |entries| && entries[i].name == name && forall j | 0 <= j < |entries| && entries[j].name == name :: j == i
  }

  lemma {:induction false} NamedAreCounted(entries: seq<ListEntry>, name: string)
    ensures |Named(entries, name)| == |Positions(entries, name)|
  {
    if entries == [] {
      assert Positions(entries, name) == {};
    } else {
      var n := |entries| - 1;
      NamedAreCounted(entries[..n], name);
      assert Positions(entries, name)
             == Positions(entries[..n], name) + if entries[n].name == name then {n} else {};
    }
  }

  /** A single entry of that name stands at one position only. */
  lemma {:induction false} NamedAreThere(entries: seq<ListEntry>, name: string)
    ensures |Named(entries, name)| == |Positions(entries, name)|
    ensures |Named(entries, name)| == 1 ==> exists i: nat :: OnlyAt(entries, name, i)
  {
    NamedAreCounted(entries, name);
    if |Named(entries, name)| == 1 {
      var i :| i in Positions(entries, name);
      forall j | 0 <= j < |entries| && entries[j].name == name
        ensures j == i
      {
        assert {i, j} <= Positions(entries, name);
        TwoAreMore(i, j, Positions(entries, name));
      }
      assert OnlyAt(entries, name, i);
    }
  }

  lemma TwoAreMore(i: nat, j: nat, s: set<nat>)
    requires {i, j} <= s && |s| == 1
    ensures i == j
  {
    assert i in s && j in s;
    assert |s - {i}| == 0;
    assert j !in s - {i};
  }

  lemma NonePositioned(entries: seq<ListEntry>, name: string)
    ensures |Positions(entries, name)| == 0 <==> forall i | 0 <= i < |entries| :: entries[i].name != name
  {
    if i: nat :| i < |entries| && entries[i].name == name {
      assert i in Positions(entries, name);
    }
    if i :| i in Positions(entries, name) {
      assert entries[i].name == name;
    }
  }

  lemma {:induction false} OnePositioned(entries: seq<ListEntry>, name: string, i: nat)
    requires OnlyAt(entries, name, i)
    ensures Named(entries, name) == [entries[i]]
  {
    var n := |entries| - 1;
    if i == n {
      NamedAreCounted(entries[..n], name);
      NonePositioned(entries[..n], name);
    } else {
      OnePositioned(entries[..n], name, i);
    }
  }

  /** What the path's parent lists at this moment. */
  function Parent(world: World, t: nat, segments: seq<string>): Result<Listing, ApiError>
    requires segments != []
  {
    world(t, PathText.Render(segments[..|segments| - 1]))
  }

  /** The answer comes from the parent's listing and the last segment. */
  lemma LastSegmentDecides(world: World, t: nat, segments: seq<string>, expected: Kind)
    requires PathText.AreSegments(segments) && segments != []
    ensures var path, last, listing := PathText.Render(segments), segments[|segments| - 1], Parent(world, t, segments);
            && '/' in path && path != "/" && last != path
            && Uncached(world, t, path, expected)
               == match listing
                  case Err(e) => Err(TransportErr(path, e))
                  case Ok(list) =>
                    match Identify(path, last, Named(list.entries, last))
                    case Err(e) => Err(e)
                    case Ok(found) => MatchKind(path, found.kind, found.id, expected)
  {
    PathText.SplitParentOf(segments);
    var last := segments[|segments| - 1];
    assert last in segments;
    assert |PathText.Render(segments)| > |last|;
  }

  /** A path resolves to an id exactly when one entry of the parent's listing, and only
      one, has the last segment as its name, is of the expected kind and carries the id. */
  lemma ResolvesWhenUnique(world: World, t: nat, segments: seq<string>, expected: Kind, id: nat)
    requires PathText.AreSegments(segments) && segments != []
    ensures var path, last := PathText.Render(segments), segments[|segments| - 1];
            && '/' in path
            && (Uncached(world, t, path, expected) == Ok(id) <==>
                && Parent(world, t, segments).Ok?
                && var entries := Parent(world, t, segments).value.entries;
                exists i: nat ::
                  && OnlyAt(entries, last, i)
                  && entries[i].isFolder == (expected == Folder)
                  && (if expected == Folder then entries[i].folderId else entries[i].fileId) == Some(id))
  {
    LastSegmentDecides(world, t, segments, expected);
    if Parent(world, t, segments).Ok? {
      var entries, last := Parent(world, t, segments).value.entries, segments[|segments| - 1];
      NamedAreThere(entries, last);
      if i: nat :| OnlyAt(entries, last, i) {
        OnePositioned(entries, last, i);
      }
    }
  }

  /** The last segment is reported missing exactly when the listing is there and no
      entry has that name; a number of entries is reported exactly when it is the number
      of entries with that name, and more than one. */
  lemma NotFoundAndAmbiguousExactly(world: World, t: nat, segments: seq<string>, expected: Kind, n: nat)
    requires PathText.AreSegments(segments) && segments != []
    ensures var path, last, parent := PathText.Render(segments), segments[|segments| - 1], Parent(world, t, segments);
            && '/' in path
            && (Uncached(world, t, path, expected) == Err(NotFound(path, last)) <==>
                parent.Ok? && forall i | 0 <= i < |parent.value.entries| :: parent.value.entries[i].name != last)
            && (Uncached(world, t, path, expected) == Err(Ambiguous(path, n)) <==>
                parent.Ok? && n > 1 && |set i: nat | i < |parent.value.entries| && parent.value.entries[i].name == last| == n)
  {
    LastSegmentDecides(world, t, segments, expected);
    if Parent(world, t, segments).Ok? {
      var entries, last := Parent(world, t, segments).value.entries, segments[|segments| - 1];
      NamedAreThere(entries, last);
      NonePositioned(entries, last);
      assert Positions(entries, last) == set i: nat | i < |entries| && entries[i].name == last;
    }
  }

  /** The one entry of that name carries no id for its own kind, or is of the other kind. */
  lemma UnusableExactly(world: World, t: nat, segments: seq<string>, expected: Kind)
    requires PathText.AreSegments(segments) && segments != []
    ensures var path, last, parent := PathText.Render(segments), segments[|segments| - 1], Parent(world, t, segments);
            && '/' in path
            && var answer := Uncached(world, t, path, expected);
            && (answer == Err(MissingId(path)) <==>
                parent.Ok? && exists i: nat ::
                  && OnlyAt(parent.value.entries, last, i)
                  && (if parent.value.entries[i].isFolder then parent.value.entries[i].folderId == None
                      else parent.value.entries[i].fileId == None))
            && (answer == Err(ExpectedFolder(path)) <==>
                expected == Folder && parent.Ok? && exists i: nat ::
                  && OnlyAt(parent.value.entries, last, i)
                  && !parent.value.entries[i].isFolder && parent.value.entries[i].fileId.Some?)
            && (answer == Err(ExpectedFile(path)) <==>
                expected == File && parent.Ok? && exists i: nat ::
                  && OnlyAt(parent.value.entries, last, i)
                  && parent.value.entries[i].isFolder && parent.value.entries[i].folderId.Some?)
  {
    LastSegmentDecides(world, t, segments, expected);
    if Parent(world, t, segments).Ok? {
      var entries, last := Parent(world, t, segments).value.entries, segments[|segments| - 1];
      NamedAreThere(entries, last);
      if i: nat :| OnlyAt(entries, last, i) {
        OnePositioned(entries, last, i);
      }
    }
  }

  /** A refused listing: code 2005 says that the path is not there, anything else is
      handed on. */
  lemma RefusedExactly(world: World, t: nat, segments: seq<string>, expected: Kind, e: ApiError)
    requires PathText.AreSegments(segments) && segments != []
    ensures var path, parent := PathText.Render(segments), Parent(world, t, segments);
            && '/' in path
            && var answer := Uncached(world, t, path, expected);
            && (answer == Err(NotFound(path, path)) <==> parent == Err(ResultCode(2005)))
            && (answer == Err(Transport(path, e)) <==> parent == Err(e) && e != ResultCode(2005))
  {
    LastSegmentDecides(world, t, segments, expected);
  }

  /** The root is a folder without asking, and its id is the listing's own. */
  lemma RootExactly(world: World, t: nat, expected: Kind, id: nat)
    ensures Uncached(world, t, "/", expected) == Ok(id) <==>
            expected == Folder && world(t, "/").Ok? && world(t, "/").value.folderId == id
    ensures Uncached(world, t, "/", expected) == Err(ExpectedFile("/")) <==> expected == File
  {
  }

  ghost predicate Unchanging(world: World) {
    forall t, p :: world(t, p) == world(0, p)
  }

  /** Against a drive that does not change, the moment of asking does not matter. */
  lemma MomentDoesNotMatter(world: World, t: nat, u: nat, path: string, expected: Kind)
    requires '/' in path
    requires Unchanging(world)
    ensures Uncached(world, t, path, expected) == Uncached(world, u, path, expected)
  {
  }

  // ----- The resolver -----

  datatype CachedEntry = CachedEntry(id: nat, kind: Kind, expiresAt: nat)

  datatype Key = Key(fingerprint: Bytes, path: string)

  /** When an entry's listing was read, and when the entry was stored. */
  datatype Stamp = Stamp(listed: nat, stored: nat)

  datatype Request = Request(path: string, expected: Kind, lookupAt: nat, listedAt: nat, storedAt: nat)

  /** The answer to one request by a resolver that remembers nothing. */
  function WithoutCache(world: World, q: Request): Result<nat, ResolveError> {
    if q.path == [] || q.path[0] != '/' then Err(InvalidPath(q.path))
    else
      RenderHasSlash(q.path);
      Uncached(world, q.listedAt, PathText.Render(PathText.Segments(q.path)), q.expected)
  }

  class RemotePathResolver {
    const ttl: nat
    const capacity: nat
    const fingerprint: Bytes
    var cache: map<Key, CachedEntry>
    ghost var stamps: map<Key, Stamp>
    ghost var clock: nat

    /** Every cached entry was the drive's own answer at the moment its listing
        was read, and expires one ttl after it was stored. */
    ghost predicate Valid(world: World)
      reads this
    {
      && 1 <= capacity && |cache| <= capacity
      && (forall k | k in cache :: k in stamps && Backed(world, k, cache[k], stamps[k]))
    }

    ghost predicate Backed(world: World, k: Key, entry: CachedEntry, stamp: Stamp)
      reads this
    {
      && '/' in k.path
      && stamp.listed <= stamp.stored <= clock
      && entry.expiresAt == stamp.stored + ttl
      && Locate(world, stamp.listed, k.path) == Ok(Found(entry.kind, entry.id))
    }

    constructor (ghost world: World, fingerprint: Bytes, ttl: nat, capacity: nat)
      ensures Valid(world) && clock == 0
      ensures this.ttl == ttl && this.capacity == Max(capacity, 1) && this.fingerprint == fingerprint
    {
      this.ttl := ttl;
      this.capacity := Max(capacity, 1);
      this.fingerprint := fingerprint;
      cache, stamps, clock := map[], map[], 0;
    }

    method CacheLookup(ghost world: World, path: string, now: nat) returns (hit: Option<CachedEntry>)
      requires Valid(world)
      modifies this`cache
      ensures Valid(world)
      ensures var key := Key(fingerprint, path);
              if key in old(cache) && old(cache)[key].expiresAt > now
              then hit == Some(old(cache)[key]) && cache == old(cache)
              else hit == None && cache == old(cache) - {key}
    {
      var key := Key(fingerprint, path);
      if key in cache {
        if cache[key].expiresAt > now {
          return Some(cache[key]);
        }
        var kept := cache - {key};
        assert kept.Keys == cache.Keys - {key};
        cache := kept;
      }
      return None;
    }

    /** Stores an entry. A full cache first gives up one of the entries that
        expire soonest, and no other entry changes. */
    method CacheStore(path: string, entry: CachedEntry)
      requires 1 <= capacity && |cache| <= capacity
      modifies this`cache
      ensures |cache| <= capacity
      ensures var key := Key(fingerprint, path);
              || (|old(cache)| < capacity && cache == old(cache)[key := entry])
              || exists victim ::
                   && victim in old(cache) && SoonestToExpire(old(cache), victim)
                   && cache == (old(cache) - {victim})[key := entry]
    {
      var key := Key(fingerprint, path);
      if |cache| >= capacity {
        SomeExpireSoonest(cache);
        var victim :| victim in cache && SoonestToExpire(cache, victim);
        assert (cache - {victim}).Keys == cache.Keys - {victim};
        cache := cache - {victim};
      }
      assert cache[key := entry].Keys == cache.Keys + {key};
      cache := cache[key := entry];
    }

    /** The part of a lookup after the cache has missed: reads one listing, and
        stores what it finds. */
    method Fetch(world: World, normalized: string, expected: Kind, listedAt: nat, storedAt: nat)
      returns (r: Result<nat, ResolveError>)
      requires Valid(world) && '/' in normalized && listedAt <= storedAt == clock
      modifies this`cache, this`stamps
      ensures Valid(world)
      ensures r == Uncached(world, listedAt, normalized, expected)
    {
      if normalized == "/" {
        if expected == File {
          return Err(ExpectedFile(normalized));
        }
        var root := world(listedAt, "/");
        if root.Err? {
          return Err(TransportErr(normalized, root.error));
        }
        Remember(world, normalized, Found(Folder, root.value.folderId), listedAt, storedAt);
        return Ok(root.value.folderId);
      }

      var (parent, last) := PathText.SplitParent(normalized);
      var listing := world(listedAt, parent);
      if listing.Err? {
        return Err(TransportErr(normalized, listing.error));
      }
      var matches := Named(listing.value.entries, last);
      if matches == [] {
        return Err(NotFound(normalized, last));
      }
      if |matches| > 1 {
        return Err(Ambiguous(normalized, |matches|));
      }
      var matched := matches[0];
      var kind, id := Folder, matched.folderId;
      if !matched.isFolder {
        kind, id := File, matched.fileId;
      }
      if id.None? {
        return Err(MissingId(normalized));
      }
      Remember(world, normalized, Found(kind, id.value), listedAt, storedAt);
      return MatchKind(normalized, kind, id.value, expected);
    }

    /** Resolves a path, given the times at which it looks into the cache, reads
        the listing and stores the answer. The result is what resolution without a
        cache gives as of some moment: the present listing, or one whose answer
        was stored less than one ttl before the lookup. */
    method Resolve(world: World, path: string, expected: Kind, lookupAt: nat, listedAt: nat, storedAt: nat)
      returns (r: Result<nat, ResolveError>, ghost asOf: Stamp)
      requires Valid(world) && clock <= lookupAt <= listedAt <= storedAt
      modifies this
      ensures Valid(world) && clock == storedAt
      ensures path == [] || path[0] != '/' ==> r == Err(InvalidPath(path))
      ensures path != [] && path[0] == '/' ==>
                var normalized := PathText.Render(PathText.Segments(path));
                '/' in normalized && r == Uncached(world, asOf.listed, normalized, expected)
      ensures asOf == Stamp(listedAt, storedAt)
           || (asOf.listed <= asOf.stored <= lookupAt < asOf.stored + ttl)
    {
      clock := storedAt;
      asOf := Stamp(listedAt, storedAt);
      var normalizing := PathText.NormalizePath(path);
      if normalizing.Err? {
        return Err(InvalidPath(path)), asOf;
      }
      var normalized := normalizing.value;
      RenderHasSlash(path);

      var cached := CacheLookup(world, normalized, lookupAt);
      if cached.Some? {
        asOf := stamps[Key(fingerprint, normalized)];
        return MatchKind(normalized, cached.value.kind, cached.value.id, expected), asOf;
      }
      r := Fetch(world, normalized, expected, listedAt, storedAt);
    }

    /** A run of lookups, with all their moments in order. */
    ghost predicate InOrder(requests: seq<Request>, i: nat, from: nat)
      requires i <= |requests|
      decreases |requests| - i
    {
      i == |requests| ||
      (from <= requests[i].lookupAt <= requests[i].listedAt <= requests[i].storedAt
       && InOrder(requests, i + 1, requests[i].storedAt))
    }

    method ResolveOne(world: World, q: Request) returns (r: Result<nat, ResolveError>)
      requires Valid(world) && Unchanging(world)
      requires clock <= q.lookupAt <= q.listedAt <= q.storedAt
      modifies this
      ensures Valid(world) && clock == q.storedAt
      ensures r == WithoutCache(world, q)
    {
      ghost var asOf: Stamp;
      r, asOf := Resolve(world, q.path, q.expected, q.lookupAt, q.listedAt, q.storedAt);
      if q.path != [] && q.path[0] == '/' {
        RenderHasSlash(q.path);
        MomentDoesNotMatter(world, asOf.listed, q.listedAt, PathText.Render(PathText.Segments(q.path)), q.expected);
      }
    }

    /** Against a drive that does not change, every run of lookups answers each
        request as if there were no cache. */
    method ResolveAll(world: World, requests: seq<Request>) returns (answers: seq<Result<nat, ResolveError>>)
      requires Valid(world) && InOrder(requests, 0, clock)
      requires Unchanging(world)
      modifies this
      ensures Valid(world)
      ensures |answers| == |requests|
      ensures forall i | 0 <= i < |requests| :: answers[i] == WithoutCache(world, requests[i])
    {
      answers := [];
      for i := 0 to |requests|
        invariant Valid(world) && InOrder(requests, i, clock)
        invariant |answers| == i && AreRight(world, requests, answers)
      {
        var r := ResolveOne(world, requests[i]);
        OneMoreRight(world, requests, answers, r);
        answers := answers + [r];
      }
    }

    /** Stores what has just been located, to expire one ttl from now. */
    method Remember(ghost world: World, path: string, found: Found, ghost listedAt: nat, storedAt: nat)
      requires Valid(world) && '/' in path
      requires listedAt <= storedAt == clock
      requires Locate(world, listedAt, path) == Ok(found)
      modifies this`cache, this`stamps
      ensures Valid(world)
    {
      stamps := stamps[Key(fingerprint, path) := Stamp(listedAt, storedAt)];
      CacheStore(path, CachedEntry(found.id, found.kind, storedAt + ttl));
    }
  }

  /** The answers so far are those of a resolver that remembers nothing. */
  ghost predicate AreRight(world: World, requests: seq<Request>, answers: seq<Result<nat, ResolveError>>) {
    |answers| <= |requests| && forall j | 0 <= j < |answers| :: answers[j] == WithoutCache(world, requests[j])
  }

  lemma OneMoreRight(
    world: World, requests: seq<Request>, answers: seq<Result<nat, ResolveError>>, r: Result<nat, ResolveError>)
    requires AreRight(world, requests, answers) && |answers| < |requests|
    requires r == WithoutCache(world, requests[|answers|])
    ensures AreRight(world, requests, answers + [r])
  {
  }

  lemma RenderHasSlash(path: string)
    ensures '/' in PathText.Render(PathText.Segments(path))
  {
    PathText.NormalForm(path);
    var normalized := PathText.Render(PathText.Segments(path));
    assert normalized[0] == '/';
  }

  predicate SoonestToExpire(cache: map<Key, CachedEntry>, victim: Key)
    requires victim in cache
  {
    forall k | k in cache :: cache[victim].expiresAt <= cache[k].expiresAt
  }

  lemma SomeExpireSoonest(cache: map<Key, CachedEntry>)
    requires |cache| > 0
    ensures exists victim :: victim in cache && SoonestToExpire(cache, victim)
    decreases |cache|
  {
    var k :| k in cache;
    var rest := cache - {k};
    assert rest.Keys == cache.Keys - {k};
    if |rest| > 0 {
      SomeExpireSoonest(rest);
      var v :| v in rest && SoonestToExpire(rest, v);
      var victim := if cache[k].expiresAt <= cache[v].expiresAt then k else v;
      assert forall j | j in cache :: j == k || j in rest;
      assert SoonestToExpire(cache, victim);
    } else {
      assert forall j | j in cache :: j == k || j in rest;
      assert SoonestToExpire(cache, k);
    }
  }
}
