/** Grandfather-father-son retention: which snapshots are kept, and pruning. */
module Retention {
  import opened Prelude
  import Text
  import opened Paths

  const SECS_PER_DAY := 86_400
  const WEEKLY_BUCKETS := 8
  const MONTHLY_BUCKETS := 6

  /** A listed archive; the modification time is in seconds since the epoch. */
  datatype Snapshot = Snapshot(path: Path, mtime: int)

  datatype Span = Daily | Weekly | Monthly

  /** A file's bucket: the n-th day, week or month back, or none. */
  datatype Bucket = In(span: Span, n: nat) | Outside

  /** Times before the epoch count as the epoch itself. */
  function Seconds(time: int): nat {
    Max(time, 0)
  }

  /** How many buckets there are of each kind. Future dates fall into day 0 even
      when no daily retention is asked for. */
  function Buckets(span: Span, days: nat): nat {
    match span
    case Daily => Max(days, 1)
    case Weekly => WEEKLY_BUCKETS
    case Monthly => MONTHLY_BUCKETS
  }

  function BucketOf(s: Snapshot, days: nat, now: nat): (b: Bucket)
    ensures b.In? ==> b.n < Buckets(b.span, days)
  {
    var m := Seconds(s.mtime);
    if m > now then In(Daily, 0)
    else
      var age := (now - m) / SECS_PER_DAY;
      if age < days then In(Daily, age)
      else if age < days + WEEKLY_BUCKETS * 7 then In(Weekly, (age - days) / 7)
      else if age < days + WEEKLY_BUCKETS * 7 + MONTHLY_BUCKETS * 30 then
        In(Monthly, (age - days - WEEKLY_BUCKETS * 7) / 30)
      else Outside
  }

  // ----- The buckets as stretches of time -----

  /** How many seconds old a file is that is not dated in the future. */
  function Age(s: Snapshot, now: nat): int {
    now - if s.mtime < 0 then 0 else s.mtime
  }

  /** The n-th day back, of 86400 seconds; after the retention days come eight weeks,
      and after those six months of thirty days. */
  predicate Lies(s: Snapshot, days: nat, now: nat, span: Span, n: nat) {
    match span
    case Daily =>
      if s.mtime > now then n == 0 else n < days && n * 86400 <= Age(s, now) < (n + 1) * 86400
    case Weekly =>
      s.mtime <= now && n < 8 && (days + 7 * n) * 86400 <= Age(s, now) < (days + 7 * n + 7) * 86400
    case Monthly =>
      s.mtime <= now && n < 6 && (days + 56 + 30 * n) * 86400 <= Age(s, now) < (days + 56 + 30 * n + 30) * 86400
  }

  /** Buckets are exactly these stretches. */
  lemma BucketExactly(s: Snapshot, days: nat, now: nat, span: Span, n: nat)
    ensures BucketOf(s, days, now) == In(span, n) <==> Lies(s, days, now, span, n)
  {
    if s.mtime <= now {
      var age: nat := Age(s, now) / 86400;
      assert age * 86400 <= Age(s, now) < (age + 1) * 86400;
      match span
      case Daily => WholeDays(Age(s, now), n, n + 1);
      case Weekly => WholeDays(Age(s, now), days + 7 * n, days + 7 * n + 7);
      case Monthly => WholeDays(Age(s, now), days + 56 + 30 * n, days + 56 + 30 * n + 30);
    }
  }

  lemma WholeDays(age: nat, from: nat, to: nat)
    ensures from <= age / 86400 < to <==> from * 86400 <= age < to * 86400
  {
  }

  /** A file as the retention rule sees it. */
  datatype Filed = Filed(bucket: Bucket, secs: nat, path: Path)

  function File(s: Snapshot, days: nat, now: nat): Filed {
    Filed(BucketOf(s, days, now), Seconds(s.mtime), s.path)
  }

  function FileAll(files: seq<Snapshot>, days: nat, now: nat): seq<Filed> {
    seq(|files|, i requires 0 <= i < |files| => File(files[i], days, now))
  }

  /** Among the first `n` files, `k` is the newest of bucket `b`, and the first
      listed of those equally new. */
  ghost predicate Leads(filed: seq<Filed>, n: nat, b: Bucket, k: nat)
    requires n <= |filed|
  {
    && k < n && filed[k].bucket == b
    && forall j | 0 <= j < n && filed[j].bucket == b ::
         filed[j].secs < filed[k].secs || (filed[j].secs == filed[k].secs && k <= j)
  }

  /** The file is the first listed of the newest in its bucket. */
  ghost predicate IsKept(filed: seq<Filed>, k: nat) {
    k < |filed| && filed[k].bucket.In? && Leads(filed, |filed|, filed[k].bucket, k)
  }

  /** The newest of some stretch, and the first listed of those equally new. */
  ghost predicate IsNewest(files: seq<Snapshot>, days: nat, now: nat, span: Span, n: nat, k: nat)
  {
    && k < |files| && Lies(files[k], days, now, span, n)
    && forall j | 0 <= j < |files| && Lies(files[j], days, now, span, n) ::
         Max(files[j].mtime, 0) < Max(files[k].mtime, 0) || (Max(files[j].mtime, 0) == Max(files[k].mtime, 0) && k <= j)
  }

  ghost predicate IsKeptByAge(files: seq<Snapshot>, days: nat, now: nat, k: nat) {
    exists span, n: nat :: IsNewest(files, days, now, span, n, k)
  }

  /** Keeping the leader of each bucket is keeping the newest of each stretch. */
  lemma KeptByAge(files: seq<Snapshot>, days: nat, now: nat, k: nat)
    ensures IsKept(FileAll(files, days, now), k) <==> IsKeptByAge(files, days, now, k)
  {
    var filed := FileAll(files, days, now);
    if k < |files| {
      forall span, n: nat
        ensures IsNewest(files, days, now, span, n, k) <==> Leads(filed, |filed|, In(span, n), k)
      {
        NewestLeads(files, days, now, span, n, k);
      }
      if IsKept(filed, k) {
        assert IsNewest(files, days, now, filed[k].bucket.span, filed[k].bucket.n, k);
      }
      if span, n: nat :| IsNewest(files, days, now, span, n, k) {
        assert Leads(filed, |filed|, In(span, n), k);
      }
    }
  }

  lemma NewestLeads(files: seq<Snapshot>, days: nat, now: nat, span: Span, n: nat, k: nat)
    requires k < |files|
    ensures var filed := FileAll(files, days, now);
            IsNewest(files, days, now, span, n, k) <==> Leads(filed, |filed|, In(span, n), k)
  {
    var filed := FileAll(files, days, now);
    forall j | 0 <= j < |files|
      ensures filed[j].bucket == In(span, n) <==> Lies(files[j], days, now, span, n)
      ensures filed[j].secs == Max(files[j].mtime, 0)
    {
      BucketExactly(files[j], days, now, span, n);
    }
  }

  // ----- Computing the keep set -----

  type Slots = map<nat, (nat, Path)>

  /** The entry of a bucket after seeing one more file. */
  function Pick(slot: Slots, bucket: nat, m: nat, p: Path): Slots {
    if bucket in slot && m <= slot[bucket].0 then slot else slot[bucket := (m, p)]
  }

  /** The map of one span holds, for each of its buckets seen so far, the entry of
      the bucket's leader. */
  ghost predicate Holds(filed: seq<Filed>, n: nat, span: Span, slot: Slots, lead: map<nat, nat>)
    requires n <= |filed|
  {
    && lead.Keys == slot.Keys
    && (forall j | 0 <= j < n && filed[j].bucket.In? && filed[j].bucket.span == span :: filed[j].bucket.n in slot)
    && (forall k | k in slot :: IsEntry(filed, n, In(span, k), lead[k], slot[k]))
  }

  ghost predicate IsEntry(filed: seq<Filed>, n: nat, b: Bucket, k: nat, entry: (nat, Path))
    requires n <= |filed|
  {
    Leads(filed, n, b, k) && entry == (filed[k].secs, filed[k].path)
  }

  /** How a leader fares when one more file is seen. */
  lemma LeadsNext(filed: seq<Filed>, i: nat, b: Bucket, k: nat)
    requires i < |filed| && Leads(filed, i, b, k)
    ensures filed[i].bucket != b || filed[i].secs <= filed[k].secs ==> Leads(filed, i + 1, b, k)
    ensures filed[i].bucket == b && filed[k].secs < filed[i].secs ==> Leads(filed, i + 1, b, i)
  {
  }

  lemma LeadsFirst(filed: seq<Filed>, i: nat, b: Bucket)
    requires i < |filed| && filed[i].bucket == b
    requires forall j | 0 <= j < i :: filed[j].bucket != b
    ensures Leads(filed, i + 1, b, i)
  {
  }

  /** The map of a span after one more file. */
  function Picked(slot: Slots, span: Span, f: Filed): Slots {
    if f.bucket.In? && f.bucket.span == span then Pick(slot, f.bucket.n, f.secs, f.path) else slot
  }

  lemma HoldsNext(filed: seq<Filed>, i: nat, span: Span, slot: Slots, lead: map<nat, nat>) returns (lead': map<nat, nat>)
    requires i < |filed| && Holds(filed, i, span, slot, lead)
    ensures Holds(filed, i + 1, span, Picked(slot, span, filed[i]), lead')
  {
    var slot' := Picked(slot, span, filed[i]);
    lead' := if slot' == slot then lead else lead[filed[i].bucket.n := i];
    forall k | k in slot'
      ensures IsEntry(filed, i + 1, In(span, k), lead'[k], slot'[k])
    {
      if k in slot {
        assert IsEntry(filed, i, In(span, k), lead[k], slot[k]);
        LeadsNext(filed, i, In(span, k), lead[k]);
      } else {
        LeadsFirst(filed, i, In(span, k));
      }
    }
  }

  /** The map of a span after the first `n` files. */
  function Filled(filed: seq<Filed>, n: nat, span: Span): Slots
    requires n <= |filed|
  {
    if n == 0 then map[] else Picked(Filled(filed, n - 1, span), span, filed[n - 1])
  }

  lemma {:induction false} FilledHolds(filed: seq<Filed>, n: nat, span: Span) returns (lead: map<nat, nat>)
    requires n <= |filed|
    ensures Holds(filed, n, span, Filled(filed, n, span), lead)
  {
    lead := map[];
    if n > 0 {
      lead := FilledHolds(filed, n - 1, span);
      lead := HoldsNext(filed, n - 1, span, Filled(filed, n - 1, span), lead);
    }
  }

  /** The paths in buckets 0 to `n`, in bucket order. */
  function Collected(slot: Slots, n: nat): seq<Path> {
    if n == 0 then []
    else Collected(slot, n - 1) + if n - 1 in slot then [slot[n - 1].1] else []
  }

  lemma {:induction false} CollectedHas(slot: Slots, n: nat)
    ensures |Collected(slot, n)| <= n
    ensures forall p :: p in Collected(slot, n) <==> exists k :: 0 <= k < n && k in slot && slot[k].1 == p
  {
    if n > 0 {
      CollectedHas(slot, n - 1);
    }
  }

  ghost predicate KeptAs(filed: seq<Filed>, p: Path) {
    exists k: nat :: IsKept(filed, k) && filed[k].path == p
  }

  /** A kept path, from a bucket of the given span. */
  ghost predicate KeptIn(filed: seq<Filed>, span: Span, p: Path) {
    exists k: nat :: IsKept(filed, k) && filed[k].path == p && filed[k].bucket.span == span
  }

  /** What is collected from one map are the leaders' paths of that span. */
  lemma CollectedAreKept(filed: seq<Filed>, span: Span, slot: Slots, lead: map<nat, nat>, bound: nat, p: Path)
    requires Holds(filed, |filed|, span, slot, lead)
    requires forall k | 0 <= k < |filed| && filed[k].bucket.In? && filed[k].bucket.span == span :: filed[k].bucket.n < bound
    ensures p in Collected(slot, bound) <==> KeptIn(filed, span, p)
  {
    CollectedHas(slot, bound);
    if KeptIn(filed, span, p) {
      var k: nat :| IsKept(filed, k) && filed[k].path == p && filed[k].bucket.span == span;
      var n := filed[k].bucket.n;
      assert IsEntry(filed, |filed|, In(span, n), lead[n], slot[n]);
      assert lead[n] == k;
    }
    if n :| 0 <= n < bound && n in slot && slot[n].1 == p {
      assert IsEntry(filed, |filed|, In(span, n), lead[n], slot[n]);
      assert IsKept(filed, lead[n]);
    }
  }

  lemma KeptInSomeSpan(filed: seq<Filed>, p: Path)
    ensures KeptAs(filed, p) <==> KeptIn(filed, Daily, p) || KeptIn(filed, Weekly, p) || KeptIn(filed, Monthly, p)
  {
    if k: nat :| IsKept(filed, k) && filed[k].path == p {
      assert KeptIn(filed, filed[k].bucket.span, p);
    }
  }

  /** Sorting and removing equal neighbours keeps the members. */
  lemma SortedOnce(pushed: seq<Path>)
    ensures Sorted(Dedup(Sort(pushed))) && |Dedup(Sort(pushed))| <= |pushed|
    ensures forall p :: p in Dedup(Sort(pushed)) <==> p in pushed
  {
    SortSorts(pushed);
    SameMembers(Sort(pushed), pushed);
    DedupKeeps(Sort(pushed));
    DedupSorted(Sort(pushed));
    SameLength(Sort(pushed), pushed);
  }

  /** The loop body: the file goes into the map of its bucket. */
  method PickFile(s: Snapshot, days: nat, now: nat, daily: Slots, weekly: Slots, monthly: Slots)
    returns (daily': Slots, weekly': Slots, monthly': Slots)
    ensures daily' == Picked(daily, Daily, File(s, days, now))
    ensures weekly' == Picked(weekly, Weekly, File(s, days, now))
    ensures monthly' == Picked(monthly, Monthly, File(s, days, now))
  {
    daily', weekly', monthly' := daily, weekly, monthly;
    var m := Seconds(s.mtime);
    if m > now {
      daily' := Pick(daily, 0, m, s.path);
      return;
    }
    var ageDays := (now - m) / SECS_PER_DAY;
    if ageDays < days {
      daily' := Pick(daily, ageDays, m, s.path);
    } else if ageDays < days + WEEKLY_BUCKETS * 7 {
      weekly' := Pick(weekly, (ageDays - days) / 7, m, s.path);
    } else if ageDays < days + WEEKLY_BUCKETS * 7 + MONTHLY_BUCKETS * 30 {
      monthly' := Pick(monthly, (ageDays - days - WEEKLY_BUCKETS * 7) / 30, m, s.path);
    }
  }

  /** The three maps after all files. */
  method FillSlots(files: seq<Snapshot>, days: nat, now: nat) returns (daily: Slots, weekly: Slots, monthly: Slots)
    ensures daily == Filled(FileAll(files, days, now), |files|, Daily)
    ensures weekly == Filled(FileAll(files, days, now), |files|, Weekly)
    ensures monthly == Filled(FileAll(files, days, now), |files|, Monthly)
  {
    daily, weekly, monthly := map[], map[], map[];
    ghost var filed := FileAll(files, days, now);
    for i := 0 to |files|
      invariant daily == Filled(filed, i, Daily)
      invariant weekly == Filled(filed, i, Weekly)
      invariant monthly == Filled(filed, i, Monthly)
    {
      daily, weekly, monthly := PickFile(files[i], days, now, daily, weekly, monthly);
    }
  }

  lemma CollectedKept(filed: seq<Filed>, span: Span, bound: nat, p: Path)
    requires forall k | 0 <= k < |filed| && filed[k].bucket.In? && filed[k].bucket.span == span :: filed[k].bucket.n < bound
    ensures p in Collected(Filled(filed, |filed|, span), bound) <==> KeptIn(filed, span, p)
  {
    var lead := FilledHolds(filed, |filed|, span);
    CollectedAreKept(filed, span, Filled(filed, |filed|, span), lead, bound, p);
  }

  /** The kept paths, sorted, at most one for each bucket there can be: those of the
      newest file of each day, week and month. */
  method GfsKeepSet(files: seq<Snapshot>, days: nat, nowTime: int) returns (out: seq<Path>)
    ensures Sorted(out) && |out| <= Max(days, 1) + 8 + 6
    ensures forall p :: p in out <==> KeptAs(FileAll(files, days, Seconds(nowTime)), p)
    ensures forall p :: p in out <==> IsNewestPath(files, days, Max(nowTime, 0), p)
  {
    var now := Seconds(nowTime);
    ghost var filed := FileAll(files, days, now);
    var daily, weekly, monthly := FillSlots(files, days, now);
    var dayPaths := Collected(daily, Max(days, 1));
    var weekPaths := Collected(weekly, WEEKLY_BUCKETS);
    var monthPaths := Collected(monthly, MONTHLY_BUCKETS);
    CollectedHas(daily, Max(days, 1));
    CollectedHas(weekly, WEEKLY_BUCKETS);
    CollectedHas(monthly, MONTHLY_BUCKETS);
    var pushed := dayPaths + weekPaths + monthPaths;
    SortedOnce(pushed);
    out := Dedup(Sort(pushed));
    forall p
      ensures p in out <==> KeptAs(filed, p)
      ensures p in out <==> IsNewestPath(files, days, now, p)
    {
      assert p in pushed <==> p in dayPaths || p in weekPaths || p in monthPaths;
      AllCollected(filed, days, p);
      NewestPathIsKept(files, days, now, p);
    }
  }

  /** What is collected from the three maps. */
  lemma AllCollected(filed: seq<Filed>, days: nat, p: Path)
    requires forall k | 0 <= k < |filed| && filed[k].bucket.In? :: filed[k].bucket.n < Buckets(filed[k].bucket.span, days)
    ensures KeptAs(filed, p) <==>
            || p in Collected(Filled(filed, |filed|, Daily), Max(days, 1))
            || p in Collected(Filled(filed, |filed|, Weekly), WEEKLY_BUCKETS)
            || p in Collected(Filled(filed, |filed|, Monthly), MONTHLY_BUCKETS)
  {
    CollectedKept(filed, Daily, Max(days, 1), p);
    CollectedKept(filed, Weekly, WEEKLY_BUCKETS, p);
    CollectedKept(filed, Monthly, MONTHLY_BUCKETS, p);
    KeptInSomeSpan(filed, p);
  }

  /** The path of the newest file of some stretch. */
  ghost predicate IsNewestPath(files: seq<Snapshot>, days: nat, now: nat, p: Path) {
    exists k: nat :: k < |files| && IsKeptByAge(files, days, now, k) && files[k].path == p
  }

  lemma NewestPathIsKept(files: seq<Snapshot>, days: nat, now: nat, p: Path)
    ensures KeptAs(FileAll(files, days, now), p) <==> IsNewestPath(files, days, now, p)
  {
    var filed := FileAll(files, days, now);
    forall k: nat
      ensures IsKept(filed, k) <==> IsKeptByAge(files, days, now, k)
    {
      KeptByAge(files, days, now, k);
    }
  }

  /** With no retention days a daily file is kept exactly when some file is dated in
      the future. */
  lemma DailyWithoutDays(files: seq<Snapshot>, now: nat)
    ensures var filed := FileAll(files, 0, now);
            (exists k: nat :: IsKept(filed, k) && filed[k].bucket.span == Daily)
            <==> exists i :: 0 <= i < |files| && files[i].mtime > now
  {
    var filed := FileAll(files, 0, now);
    assert forall i | 0 <= i < |files| :: filed[i] == File(files[i], 0, now);
    if i :| 0 <= i < |files| && files[i].mtime > now {
      assert filed[i].bucket == In(Daily, 0);
      var lead := FilledHolds(filed, |filed|, Daily);
      var slot := Filled(filed, |filed|, Daily);
      assert IsEntry(filed, |filed|, In(Daily, 0), lead[0], slot[0]);
      assert IsKept(filed, lead[0]);
    }
  }

  // ----- Pruning -----

  const SIDECAR_SUFFIX := ".manifest.json"

  function SidecarFor(archive: Path): Path
    requires archive != []
  {
    var n := |archive| - 1;
    archive[..n] + [archive[n] + SIDECAR_SUFFIX]
  }

  /** The sidecar lies beside the archive, its name lengthened by ".manifest.json". */
  lemma SidecarExactly(folder: Path, name: string)
    ensures SidecarFor(folder + [name]) == folder + [name + ".manifest.json"]
  {
  }

  /** What a directory listing gives: distinct archives, none of them a sidecar. */
  predicate IsListing(files: seq<Snapshot>) {
    && (forall i | 0 <= i < |files| :: IsArchivePath(files[i].path))
    && (forall i, j | 0 <= i < j < |files| :: files[i].path != files[j].path)
  }

  predicate IsArchivePath(p: Path) {
    p != [] && !Text.EndsWith(p[|p| - 1], SIDECAR_SUFFIX)
  }

  /** The kept paths of a listing. */
  ghost function KeptPaths(filed: seq<Filed>): set<Path> {
    set k | 0 <= k < |filed| && IsKept(filed, k) :: filed[k].path
  }

  /** The first `n` listed paths that are not kept, in listing order. */
  function Discarded(files: seq<Snapshot>, kept: set<Path>, n: nat): seq<Path>
    requires n <= |files|
  {
    if n == 0 then []
    else Discarded(files, kept, n - 1) + if files[n - 1].path in kept then [] else [files[n - 1].path]
  }

  /** What is left when those have gone, and those of their sidecars that can be
      removed. */
  function LeftAfter(present: set<Path>, files: seq<Snapshot>, kept: set<Path>, removable: Path -> bool, n: nat): set<Path>
    requires n <= |files| && IsListing(files)
  {
    if n == 0 then present
    else
      var left := LeftAfter(present, files, kept, removable, n - 1);
      var p := files[n - 1].path;
      if p in kept then left else left - Gone(p, removable)
  }

  /** What disappears with an archive. */
  function Gone(archive: Path, removable: Path -> bool): set<Path>
    requires archive != []
  {
    if removable(SidecarFor(archive)) then {archive, SidecarFor(archive)} else {archive}
  }

  /** The first listed archive that is to go and cannot be removed. */
  ghost predicate StuckAt(files: seq<Snapshot>, kept: set<Path>, removable: Path -> bool, n: nat) {
    && n < |files| && files[n].path !in kept && !removable(files[n].path)
    && AllGo(files, kept, removable, n)
  }

  ghost predicate AllGo(files: seq<Snapshot>, kept: set<Path>, removable: Path -> bool, n: nat)
    requires n <= |files|
  {
    forall i | 0 <= i < n :: files[i].path in kept || removable(files[i].path)
  }

  class Directory {
    var present: set<Path>

    constructor (present: set<Path>)
      ensures this.present == present
    {
      this.present := present;
    }

    /** Removes every listed archive that is not kept, with its sidecar, in listing
        order. An archive that cannot be removed ends the pruning with an error: those
        before it are gone, unreported, and those after it stay. A sidecar that cannot
        be removed is ignored. */
    method PruneExecute(files: seq<Snapshot>, days: nat, nowTime: int, removable: Path -> bool)
      returns (r: Result<seq<Path>, ()>)
      requires IsListing(files)
      modifies this
      ensures var kept := KeptPaths(FileAll(files, days, Seconds(nowTime)));
              && (r.Ok? <==> AllGo(files, kept, removable, |files|))
              && (r.Ok? ==>
                    && r.value == Discarded(files, kept, |files|)
                    && present == LeftAfter(old(present), files, kept, removable, |files|))
              && (r.Err? ==>
                    exists n: nat :: StuckAt(files, kept, removable, n)
                      && present == LeftAfter(old(present), files, kept, removable, n))
      ensures r.Ok? ==>
                forall i: nat | i < |files| && files[i].path in old(present) ::
                  && (files[i].path in present <==> IsKeptByAge(files, days, Max(nowTime, 0), i))
                  && (files[i].path in r.value <==> !IsKeptByAge(files, days, Max(nowTime, 0), i))
    {
      var keep := GfsKeepSet(files, days, nowTime);
      ghost var kept := KeptPaths(FileAll(files, days, Seconds(nowTime)));
      KeptPathsAre(FileAll(files, days, Seconds(nowTime)), keep);
      PruneByAge(files, days, Max(nowTime, 0), removable, present);
      r := RemoveOthers(files, keep, kept, removable);
    }

    /** The loop over the listing. */
    method RemoveOthers(files: seq<Snapshot>, keep: seq<Path>, ghost kept: set<Path>, removable: Path -> bool)
      returns (r: Result<seq<Path>, ()>)
      requires IsListing(files) && forall p :: p in keep <==> p in kept
      modifies this
      ensures r.Ok? <==> AllGo(files, kept, removable, |files|)
      ensures r.Ok? ==>
                && r.value == Discarded(files, kept, |files|)
                && present == LeftAfter(old(present), files, kept, removable, |files|)
      ensures r.Err? ==>
                exists n: nat :: StuckAt(files, kept, removable, n)
                  && present == LeftAfter(old(present), files, kept, removable, n)
    {
      var removed := [];
      for i := 0 to |files|
        invariant AllGo(files, kept, removable, i)
        invariant removed == Discarded(files, kept, i)
        invariant present == LeftAfter(old(present), files, kept, removable, i)
      {
        var path := files[i].path;
        if path !in keep {
          if !removable(path) {
            assert StuckAt(files, kept, removable, i);
            return Err(());
          }
          removed := removed + [path];
          RemoveWithSidecar(path, removable);
        }
      }
      return Ok(removed);
    }

    method RemoveWithSidecar(path: Path, removable: Path -> bool)
      requires path != []
      modifies this
      ensures present == old(present) - Gone(path, removable)
    {
      present := present - {path};
      var sidecar := SidecarFor(path);
      if sidecar in present && removable(sidecar) {
        present := present - {sidecar};
      }
    }
  }

  lemma KeptPathsAre(filed: seq<Filed>, keep: seq<Path>)
    requires forall p :: p in keep <==> KeptAs(filed, p)
    ensures forall p :: p in keep <==> p in KeptPaths(filed)
  {
  }

  lemma {:induction false} LeftAfterHas(
    present: set<Path>, files: seq<Snapshot>, kept: set<Path>, removable: Path -> bool, n: nat, p: Path)
    requires n <= |files| && IsListing(files)
    ensures IsArchivePath(p) ==>
              (p in LeftAfter(present, files, kept, removable, n) <==> p in present && p !in Discarded(files, kept, n))
    ensures p in present && p !in LeftAfter(present, files, kept, removable, n) ==>
              p in Discarded(files, kept, n) || exists q :: q in Discarded(files, kept, n) && q != [] && p == SidecarFor(q)
  {
    if n > 0 {
      LeftAfterHas(present, files, kept, removable, n - 1, p);
      var last := files[n - 1].path;
      SidecarIsNoArchive(last);
      if last !in kept {
        assert last in Discarded(files, kept, n);
        assert forall q | q in Discarded(files, kept, n - 1) :: q in Discarded(files, kept, n);
      }
    }
  }

  lemma {:induction false} DiscardedHas(files: seq<Snapshot>, kept: set<Path>, n: nat, p: Path)
    requires n <= |files|
    ensures p in Discarded(files, kept, n) <==> p !in kept && exists i :: 0 <= i < n && files[i].path == p
  {
    if n > 0 {
      DiscardedHas(files, kept, n - 1, p);
    }
  }

  /** Kept and removed archives partition the listing: an archive that was there
      stays exactly when it is the first listed of the newest in its bucket, and
      nothing else disappears but sidecars of removed archives. */
  lemma PruneOutcome(files: seq<Snapshot>, days: nat, now: nat, removable: Path -> bool, present: set<Path>, i: nat)
    requires IsListing(files) && i < |files| && files[i].path in present
    ensures var filed := FileAll(files, days, now);
            var kept := KeptPaths(filed);
            && (IsKept(filed, i) <==> files[i].path in LeftAfter(present, files, kept, removable, |files|))
            && (IsKept(filed, i) <==> files[i].path !in Discarded(files, kept, |files|))
  {
    var filed := FileAll(files, days, now);
    var kept := KeptPaths(filed);
    LeftAfterHas(present, files, kept, removable, |files|, files[i].path);
    DiscardedHas(files, kept, |files|, files[i].path);
    if files[i].path in kept {
      var k :| 0 <= k < |filed| && IsKept(filed, k) && filed[k].path == files[i].path;
      assert k == i;
    }
    if IsKept(filed, i) {
      assert filed[i].path in kept;
    }
  }

  /** The same by age: what stays is the newest of each day, week and month. */
  lemma PruneByAge(files: seq<Snapshot>, days: nat, now: nat, removable: Path -> bool, present: set<Path>)
    requires IsListing(files)
    ensures var kept := KeptPaths(FileAll(files, days, now));
            forall i: nat | i < |files| && files[i].path in present ::
              && (files[i].path in LeftAfter(present, files, kept, removable, |files|) <==> IsKeptByAge(files, days, now, i))
              && (files[i].path in Discarded(files, kept, |files|) <==> !IsKeptByAge(files, days, now, i))
  {
    forall i: nat | i < |files| && files[i].path in present
      ensures var kept := KeptPaths(FileAll(files, days, now));
              && (files[i].path in LeftAfter(present, files, kept, removable, |files|) <==> IsKeptByAge(files, days, now, i))
              && (files[i].path in Discarded(files, kept, |files|) <==> !IsKeptByAge(files, days, now, i))
    {
      KeptByAge(files, days, now, i);
      PruneOutcome(files, days, now, removable, present, i);
    }
  }

  lemma SidecarIsNoArchive(p: Path)
    requires p != []
    ensures SidecarFor(p) != p && !IsArchivePath(SidecarFor(p))
  {
    var n := |p| - 1;
    var name := SidecarFor(p)[n];
    assert name == p[n] + SIDECAR_SUFFIX;
    assert name[|name| - |SIDECAR_SUFFIX|..] == SIDECAR_SUFFIX;
    assert |name| > |p[n]|;
  }

  lemma SameSidecar(p: Path, q: Path)
    requires p != [] && q != [] && SidecarFor(p) == SidecarFor(q)
    ensures p == q
  {
    var n := |p| - 1;
    assert |SidecarFor(p)| == |p| && |SidecarFor(q)| == |q|;
    assert p[..n] == SidecarFor(p)[..n] == q[..n];
    var text := SidecarFor(p)[n];
    assert text == p[n] + SIDECAR_SUFFIX == q[n] + SIDECAR_SUFFIX;
    assert p[n] == text[..|text| - |SIDECAR_SUFFIX|] == q[n];
    assert p == p[..n] + [p[n]] && q == q[..n] + [q[n]];
  }

  /** The sidecar of a listed archive goes with it, unless the archive is kept or the
      sidecar cannot be removed. */
  lemma {:induction false} SidecarOutcome(
    present: set<Path>, files: seq<Snapshot>, kept: set<Path>, removable: Path -> bool, n: nat, i: nat)
    requires IsListing(files) && i < n <= |files|
    ensures var sidecar := SidecarFor(files[i].path);
            sidecar in LeftAfter(present, files, kept, removable, n)
            <==> sidecar in present && (files[i].path in kept || !removable(sidecar))
  {
    var last := files[n - 1].path;
    assert IsArchivePath(last) && IsArchivePath(files[i].path);
    SidecarIsNoArchive(files[i].path);
    if i < n - 1 {
      SidecarOutcome(present, files, kept, removable, n - 1, i);
      if SidecarFor(last) == SidecarFor(files[i].path) {
        SameSidecar(last, files[i].path);
      }
    } else {
      SidecarUntouched(present, files, kept, removable, i, i);
    }
  }

  lemma {:induction false} SidecarUntouched(
    present: set<Path>, files: seq<Snapshot>, kept: set<Path>, removable: Path -> bool, n: nat, i: nat)
    requires IsListing(files) && n <= i < |files|
    ensures SidecarFor(files[i].path) in LeftAfter(present, files, kept, removable, n) <==> SidecarFor(files[i].path) in present
  {
    SidecarIsNoArchive(files[i].path);
    if n > 0 {
      SidecarUntouched(present, files, kept, removable, n - 1, i);
      assert IsArchivePath(files[n - 1].path);
      if SidecarFor(files[n - 1].path) == SidecarFor(files[i].path) {
        SameSidecar(files[n - 1].path, files[i].path);
      }
    }
  }

  ghost predicate WasKept(files: seq<Snapshot>, days: nat, now: nat, s: Snapshot) {
    exists k: nat :: IsKept(FileAll(files, days, now), k) && files[k] == s
  }

  /** Pruning again at the same instant removes nothing, in whatever order the
      directory then lists the archives that were kept. */
  lemma PruningTwice(files: seq<Snapshot>, kept: seq<Snapshot>, days: nat, now: nat, a: nat)
    requires IsListing(files) && IsListing(kept) && a < |kept|
    requires forall b | 0 <= b < |kept| :: WasKept(files, days, now, kept[b])
    ensures IsKept(FileAll(kept, days, now), a)
  {
    var filed, again := FileAll(files, days, now), FileAll(kept, days, now);
    assert WasKept(files, days, now, kept[a]);
    var k: nat :| IsKept(filed, k) && files[k] == kept[a];
    assert again[a] == filed[k];
    forall j | 0 <= j < |kept| && again[j].bucket == again[a].bucket
      ensures j == a
    {
      assert WasKept(files, days, now, kept[j]);
      var l: nat :| IsKept(filed, l) && files[l] == kept[j];
      assert again[j] == filed[l];
      assert k == l;
    }
    assert Leads(again, |again|, again[a].bucket, a);
  }
}
