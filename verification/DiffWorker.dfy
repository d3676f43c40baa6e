/** The continuous diff worker: polling, dispatch, the persisted cursor, and what
    reaches the dispatcher over runs with crashes and restarts. */
module DiffWorker {
  import opened Prelude

  // All times are in milliseconds.
  const INITIAL_WAIT := 30_000
  const MAX_WAIT := 60_000
  const MAX_ATTEMPTS := 6
  const U32_MAX := 0xFFFF_FFFF

  datatype DiffEntry = DiffEntry(id: nat, event: Option<nat>, path: string)

  datatype Family = Filesystem | Share | Crypto | Account | Unknown

  datatype Kind =
    | CreateFolder | ModifyFolder | DeleteFolder | CreateFile | ModifyFile | DeleteFile
    | ModifyUserInfo | ShareRequestIn | ShareRequestOut | ShareAcceptedIn | ShareAcceptedOut
    | ShareDeclinedIn | ShareDeclinedOut | ShareCancelledIn | ShareCancelledOut | ShareRemovedIn
    | ShareRemovedOut | ShareModifiedIn | ShareModifiedOut
    | BusinessShareEstablishedIn | BusinessShareEstablishedOut | BusinessShareModifiedIn
    | BusinessShareModifiedOut | BusinessShareRemovedIn | BusinessShareRemovedOut
    | CryptoPassChange | ModifyAccountInfo | UnknownKind(tag: nat)
  {
    /** The backend that handles events of this kind. */
    function Family(): Family {
      match this
      case CreateFolder => Filesystem
      case ModifyFolder => Filesystem
      case DeleteFolder => Filesystem
      case CreateFile => Filesystem
      case ModifyFile => Filesystem
      case DeleteFile => Filesystem
      case ModifyUserInfo => Account
      case ShareRequestIn => Share
      case ShareRequestOut => Share
      case ShareAcceptedIn => Share
      case ShareAcceptedOut => Share
      case ShareDeclinedIn => Share
      case ShareDeclinedOut => Share
      case ShareCancelledIn => Share
      case ShareCancelledOut => Share
      case ShareRemovedIn => Share
      case ShareRemovedOut => Share
      case ShareModifiedIn => Share
      case ShareModifiedOut => Share
      case BusinessShareEstablishedIn => Share
      case BusinessShareEstablishedOut => Share
      case BusinessShareModifiedIn => Share
      case BusinessShareModifiedOut => Share
      case BusinessShareRemovedIn => Share
      case BusinessShareRemovedOut => Share
      case CryptoPassChange => Crypto
      case ModifyAccountInfo => Account
      case UnknownKind(_) => Unknown
    }

    /** The number documented for the kind. */
    function Number(): nat {
      match this
      case CreateFolder => 1
      case ModifyFolder => 2
      case DeleteFolder => 3
      case CreateFile => 4
      case ModifyFile => 5
      case DeleteFile => 6
      case ModifyUserInfo => 7
      case ShareRequestIn => 8
      case ShareRequestOut => 9
      case ShareAcceptedIn => 10
      case ShareAcceptedOut => 11
      case ShareDeclinedIn => 12
      case ShareDeclinedOut => 13
      case ShareCancelledIn => 14
      case ShareCancelledOut => 15
      case ShareRemovedIn => 16
      case ShareRemovedOut => 17
      case ShareModifiedIn => 18
      case ShareModifiedOut => 19
      case BusinessShareEstablishedIn => 20
      case BusinessShareEstablishedOut => 21
      case BusinessShareModifiedIn => 22
      case BusinessShareModifiedOut => 23
      case BusinessShareRemovedIn => 24
      case BusinessShareRemovedOut => 25
      case CryptoPassChange => 26
      case ModifyAccountInfo => 27
      case UnknownKind(tag) => tag
    }
  }

  /** What an event number stands for. Numbers that are not known are kept. */
  function KindOf(tag: nat): Kind {
    match tag
    case 1 => CreateFolder
    case 2 => ModifyFolder
    case 3 => DeleteFolder
    case 4 => CreateFile
    case 5 => ModifyFile
    case 6 => DeleteFile
    case 7 => ModifyUserInfo
    case 8 => ShareRequestIn
    case 9 => ShareRequestOut
    case 10 => ShareAcceptedIn
    case 11 => ShareAcceptedOut
    case 12 => ShareDeclinedIn
    case 13 => ShareDeclinedOut
    case 14 => ShareCancelledIn
    case 15 => ShareCancelledOut
    case 16 => ShareRemovedIn
    case 17 => ShareRemovedOut
    case 18 => ShareModifiedIn
    case 19 => ShareModifiedOut
    case 20 => BusinessShareEstablishedIn
    case 21 => BusinessShareEstablishedOut
    case 22 => BusinessShareModifiedIn
    case 23 => BusinessShareModifiedOut
    case 24 => BusinessShareRemovedIn
    case 25 => BusinessShareRemovedOut
    case 26 => CryptoPassChange
    case 27 => ModifyAccountInfo
    case _ => UnknownKind(tag)
  }

  datatype Delivery = Delivery(family: Family, kind: Kind, entry: DiffEntry)

  /** How an entry with an event number is handed over. */
  function Route(e: DiffEntry): Delivery
    requires e.event.Some?
  {
    var kind := KindOf(e.event.value);
    Delivery(kind.Family(), kind, e)
  }

  /** What dispatching the entries from `i` to `j` hands over: every entry that
      carries an event number, in order. */
  function Deliveries(entries: seq<DiffEntry>, i: nat, j: nat): seq<Delivery>
    requires i <= j <= |entries|
    decreases j - i
  {
    if i == j then []
    else
      var e := entries[j - 1];
      Deliveries(entries, i, j - 1) + if e.event.Some? then [Route(e)] else []
  }

  datatype Batch = Batch(entries: seq<DiffEntry>, cursor: nat, hasMore: bool)

  datatype Outcome =
    | Idle(diffid: nat, wait: nat)
    | Processed(diffid: nat, dispatched: nat, moreAvailable: bool)
    | BackoffPending(pause: nat, attempt: nat, error: string)

  datatype TickError = Persist | GiveUp(attempts: nat, lastError: string)

  /** The three things a tick can change for good. */
  datatype Progress = Progress(cursor: nat, persisted: Option<nat>, delivered: seq<Delivery>)

  /** Dispatch, then advance, then persist; an empty batch changes nothing. */
  function AfterBatch(p: Progress, batch: Batch, saved: bool): Progress {
    if batch.entries == [] then p
    else Progress(batch.cursor,
                  if saved then Some(batch.cursor) else p.persisted,
                  p.delivered + Deliveries(batch.entries, 0, |batch.entries|))
  }

  class Dispatcher {
    var delivered: seq<Delivery>

    constructor ()
      ensures delivered == []
    {
      delivered := [];
    }

    method DispatchBatch(entries: seq<DiffEntry>) returns (dispatched: nat)
      modifies this
      ensures delivered == old(delivered) + Deliveries(entries, 0, |entries|)
      ensures dispatched == |Deliveries(entries, 0, |entries|)|
    {
      dispatched := 0;
      for i := 0 to |entries|
        invariant delivered == old(delivered) + Deliveries(entries, 0, i)
        invariant dispatched == |Deliveries(entries, 0, i)|
      {
        var tag := entries[i].event;
        if tag.None? {
          continue;
        }
        delivered := delivered + [Route(entries[i])];
        dispatched := dispatched + 1;
      }
    }
  }

  /** The single row that survives a restart. */
  class CursorStore {
    var diffid: Option<nat>

    constructor ()
      ensures diffid == None
    {
      diffid := None;
    }

    /** Saving either replaces the row or fails and leaves it. */
    method Save(cursor: nat, works: bool) returns (ok: bool)
      modifies this
      ensures ok == works && diffid == if works then Some(cursor) else old(diffid)
    {
      if works {
        diffid := Some(cursor);
      }
      return works;
    }
  }

  function RestoredCursor(persisted: Option<nat>): nat {
    match persisted
    case Some(cursor) => cursor
    case None => 0
  }

  /** Whether a tick at `now` may call the server. A clock set back counts as no time
      gone by. */
  predicate IsDue(lastAttempt: Option<nat>, wait: nat, now: nat) {
    lastAttempt.None? || Max(now - lastAttempt.value, 0) >= wait
  }

  /** The first tick is due; a later one when the wait since the last attempt is over. */
  lemma DueExactly(lastAttempt: Option<nat>, wait: nat, now: nat)
    ensures IsDue(lastAttempt, wait, now) <==>
            lastAttempt == None || wait == 0 || lastAttempt.value + wait <= now
  {
  }

  class DiffWorker {
    var cursor: nat
    var nextWait: nat
    var lastAttempt: Option<nat>
    var retryAttempt: nat

    constructor (initialCursor: nat)
      ensures cursor == initialCursor && nextWait == INITIAL_WAIT && lastAttempt == None && retryAttempt == 0
    {
      cursor := initialCursor;
      nextWait := INITIAL_WAIT;
      lastAttempt := None;
      retryAttempt := 0;
    }

    /** One iteration. `reply` is the server's answer if it is asked, `backoff` the
        wait the retry policy would name, and `saveWorks` whether the row can be
        written. */
    method Tick(now: nat, reply: Result<Batch, string>, backoff: nat, saveWorks: bool,
                store: CursorStore, dispatcher: Dispatcher)
      returns (r: Result<Outcome, TickError>)
      requires backoff <= 60_000 && nextWait <= 60_000
      modifies this, store, dispatcher
      ensures nextWait <= 60_000
      // Too early: nothing happens, and the server is not asked.
      ensures !IsDue(old(lastAttempt), old(nextWait), now) ==>
                && r == Ok(Idle(cursor, nextWait))
                && lastAttempt == old(lastAttempt) && nextWait == old(nextWait) && retryAttempt == old(retryAttempt)
      ensures IsDue(old(lastAttempt), old(nextWait), now) ==> lastAttempt == Some(now)
      // Only an answered call makes progress, and exactly the progress of its batch.
      ensures Progress(cursor, store.diffid, dispatcher.delivered) ==
              if IsDue(old(lastAttempt), old(nextWait), now) && reply.Ok?
              then AfterBatch(Progress(old(cursor), old(store.diffid), old(dispatcher.delivered)), reply.value, saveWorks)
              else Progress(old(cursor), old(store.diffid), old(dispatcher.delivered))
      ensures IsDue(old(lastAttempt), old(nextWait), now) && reply.Ok? ==>
                && retryAttempt == 0
                && if reply.value.entries == [] then
                     nextWait == Min(2 * old(nextWait), 60_000) && r == Ok(Idle(cursor, nextWait))
                   else
                     nextWait == 30_000
                     && r == if saveWorks
                             then Ok(Processed(cursor, |Deliveries(reply.value.entries, 0, |reply.value.entries|)|, reply.value.hasMore))
                             else Err(Persist)
      // A failed call backs off, until the attempts are used up.
      ensures IsDue(old(lastAttempt), old(nextWait), now) && reply.Err? ==>
                && retryAttempt == Min(old(retryAttempt) + 1, U32_MAX)
                && if retryAttempt >= 6 then
                     nextWait == old(nextWait) && r == Err(GiveUp(retryAttempt, reply.error))
                   else
                     nextWait == backoff && r == Ok(BackoffPending(backoff, retryAttempt, reply.error))
    {
      if lastAttempt.Some? {
        if Max(now - lastAttempt.value, 0) < nextWait {
          return Ok(Idle(cursor, nextWait));
        }
      }
      lastAttempt := Some(now);
      match reply {
        case Ok(batch) =>
          retryAttempt := 0;
          var dispatched := dispatcher.DispatchBatch(batch.entries);
          if batch.entries == [] {
            nextWait := Min(2 * nextWait, MAX_WAIT);
            return Ok(Idle(cursor, nextWait));
          }
          nextWait := INITIAL_WAIT;
          cursor := batch.cursor;
          var saved := store.Save(cursor, saveWorks);
          if !saved {
            return Err(Persist);
          }
          return Ok(Processed(cursor, dispatched, batch.hasMore));
        case Err(error) =>
          retryAttempt := Min(retryAttempt + 1, U32_MAX);
          if retryAttempt >= MAX_ATTEMPTS {
            return Err(GiveUp(retryAttempt, error));
          }
          nextWait := backoff;
          return Ok(BackoffPending(backoff, retryAttempt, error));
      }
    }
  }

  // ----- The server -----

  /** Ids are positive and grow along the log. */
  ghost predicate IsLog(log: seq<DiffEntry>) {
    && (forall i | 0 <= i < |log| :: log[i].id > 0)
    && (forall i, j | 0 <= i < j < |log| :: log[i].id < log[j].id)
  }

  /** The cursor stands after the first `i` entries. */
  ghost predicate StandsAt(log: seq<DiffEntry>, cursor: nat, i: nat) {
    i <= |log| && cursor == if i == 0 then 0 else log[i - 1].id
  }

  /** The first `i` entries are the ones the cursor has passed. */
  ghost predicate FirstAfter(log: seq<DiffEntry>, cursor: nat, i: nat) {
    && i <= |log|
    && (forall k | 0 <= k < i :: log[k].id <= cursor)
    && (forall k | i <= k < |log| :: log[k].id > cursor)
  }

  ghost predicate IsStretch(log: seq<DiffEntry>, i: nat, entries: seq<DiffEntry>) {
    i + |entries| <= |log| && entries == log[i..i + |entries|]
  }

  /** An honest answer: the next entries with larger ids, and the id of the last. */
  ghost predicate Answers(log: seq<DiffEntry>, cursor: nat, batch: Batch) {
    && (exists i: nat :: FirstAfter(log, cursor, i) && IsStretch(log, i, batch.entries))
    && (batch.entries != [] ==> batch.cursor == batch.entries[|batch.entries| - 1].id)
  }

  lemma AnswerStartsAtCursor(log: seq<DiffEntry>, cursor: nat, batch: Batch, i: nat)
    requires IsLog(log) && StandsAt(log, cursor, i) && Answers(log, cursor, batch)
    ensures IsStretch(log, i, batch.entries)
    ensures batch.entries != [] ==> StandsAt(log, batch.cursor, i + |batch.entries|)
  {
    var j: nat :| FirstAfter(log, cursor, j) && IsStretch(log, j, batch.entries);
    assert i == j by {
      if i > 0 {
        assert log[i - 1].id == cursor;
      }
      if j > 0 {
        assert log[j - 1].id <= cursor;
      }
    }
  }

  // ----- Runs -----

  /** The system between two moments: the server's log only grows; a worker takes a
      batch; a call fails or is not yet due; or the worker dies after dispatching
      part of a batch it has not saved, and a new one starts from the saved row. */
  datatype Event =
    | Grown(more: seq<DiffEntry>)
    | Ticked(batch: Batch, saved: bool)
    | Waited
    | Crashed(batch: Batch, dispatched: nat)

  datatype System = System(log: seq<DiffEntry>, progress: Progress)

  ghost predicate Enabled(s: System, event: Event) {
    match event
    case Grown(more) => IsLog(s.log + more)
    case Ticked(batch, _) => Answers(s.log, s.progress.cursor, batch)
    case Waited => true
    case Crashed(batch, dispatched) => Answers(s.log, s.progress.cursor, batch) && dispatched <= |batch.entries|
  }

  function Next(s: System, event: Event): System {
    match event
    case Grown(more) => s.(log := s.log + more)
    case Ticked(batch, saved) => s.(progress := AfterBatch(s.progress, batch, saved))
    case Waited => s
    case Crashed(batch, dispatched) =>
      var n := Min(dispatched, |batch.entries|);
      var p := s.progress;
      s.(progress := Progress(RestoredCursor(p.persisted), p.persisted, p.delivered + Deliveries(batch.entries, 0, n)))
  }

  function Start(log: seq<DiffEntry>): System {
    System(log, Progress(0, None, []))
  }

  function After(log: seq<DiffEntry>, events: seq<Event>, n: nat): System
    requires n <= |events|
  {
    if n == 0 then Start(log) else Next(After(log, events, n - 1), events[n - 1])
  }

  ghost predicate IsRun(log: seq<DiffEntry>, events: seq<Event>, n: nat)
    requires n <= |events|
  {
    if n == 0 then IsLog(log) else IsRun(log, events, n - 1) && Enabled(After(log, events, n - 1), events[n - 1])
  }

  /** One worker's life: it dispatched the log from `start` up to `stop`. */
  datatype Life = Life(start: nat, stop: nat)

  function DeliveredIn(log: seq<DiffEntry>, lives: seq<Life>, n: nat): seq<Delivery>
    requires n <= |lives|
    requires forall k | 0 <= k < |lives| :: lives[k].start <= lives[k].stop <= |log|
  {
    if n == 0 then [] else DeliveredIn(log, lives, n - 1) + Deliveries(log, lives[n - 1].start, lives[n - 1].stop)
  }

  /** Every life starts where an earlier one had already been: at the saved row. */
  ghost predicate Chained(log: seq<DiffEntry>, lives: seq<Life>) {
    && lives != [] && lives[0].start == 0
    && (forall k | 0 <= k < |lives| :: lives[k].start <= lives[k].stop <= |log|)
    && (forall k | 0 < k < |lives| :: lives[k - 1].start <= lives[k].start <= lives[k - 1].stop)
  }

  /** The deliveries are those of the chain of lives. */
  ghost predicate Accounts(log: seq<DiffEntry>, lives: seq<Life>, delivered: seq<Delivery>) {
    Chained(log, lives) && delivered == DeliveredIn(log, lives, |lives|)
  }

  ghost predicate SavedWithin(log: seq<DiffEntry>, persisted: Option<nat>, life: Life) {
    exists p :: life.start <= p <= life.stop && StandsAt(log, RestoredCursor(persisted), p)
  }

  /** The chain accounts for all deliveries; its last life stands at the cursor,
      and the saved row lies within it. */
  ghost predicate Explained(s: System, lives: seq<Life>) {
    && IsLog(s.log)
    && Accounts(s.log, lives, s.progress.delivered)
    && StandsAt(s.log, s.progress.cursor, lives[|lives| - 1].stop)
    && SavedWithin(s.log, s.progress.persisted, lives[|lives| - 1])
  }

  // ----- Deliveries of stretches -----

  lemma {:induction false} DeliveriesOfStretch(log: seq<DiffEntry>, i: nat, entries: seq<DiffEntry>, n: nat)
    requires IsStretch(log, i, entries) && n <= |entries|
    ensures Deliveries(entries, 0, n) == Deliveries(log, i, i + n)
    decreases n
  {
    if n > 0 {
      DeliveriesOfStretch(log, i, entries, n - 1);
      assert entries[n - 1] == log[i + n - 1];
    }
  }

  lemma {:induction false} DeliveriesJoin(log: seq<DiffEntry>, i: nat, j: nat, k: nat)
    requires i <= j <= k <= |log|
    ensures Deliveries(log, i, j) + Deliveries(log, j, k) == Deliveries(log, i, k)
    decreases k
  {
    if j < k {
      DeliveriesJoin(log, i, j, k - 1);
    }
  }

  lemma {:induction false} DeliveriesGrow(log: seq<DiffEntry>, more: seq<DiffEntry>, i: nat, j: nat)
    requires i <= j <= |log|
    ensures Deliveries(log + more, i, j) == Deliveries(log, i, j)
    decreases j
  {
    if i < j {
      DeliveriesGrow(log, more, i, j - 1);
    }
  }

  /** A dispatched entry with an event number is delivered. */
  lemma {:induction false} DeliveriesContain(log: seq<DiffEntry>, i: nat, j: nat, k: nat)
    requires i <= k < j <= |log| && log[k].event.Some?
    ensures Route(log[k]) in Deliveries(log, i, j)
    decreases j
  {
    if k < j - 1 {
      DeliveriesContain(log, i, j - 1, k);
    }
  }

  /** Where each dispatched entry ends up: behind those of the entries before it. */
  lemma {:induction false} DeliveryStandsAt(log: seq<DiffEntry>, i: nat, j: nat, k: nat)
    requires i <= k < j <= |log| && log[k].event.Some?
    ensures |Deliveries(log, i, k)| < |Deliveries(log, i, j)|
    ensures Deliveries(log, i, j)[|Deliveries(log, i, k)|] == Route(log[k])
    decreases j
  {
    if k < j - 1 {
      DeliveryStandsAt(log, i, j - 1, k);
    }
  }

  /** As many deliveries as there are entries with an event number: with their places
      this says what a dispatch delivers, and in which order. */
  lemma {:induction false} DeliveriesCounted(log: seq<DiffEntry>, i: nat, j: nat)
    requires i <= j <= |log|
    ensures |Deliveries(log, i, j)| == |set k | i <= k < j && log[k].event.Some?|
    decreases j - i
  {
    var tagged := set k | i <= k < j && log[k].event.Some?;
    if i == j {
      assert tagged == {};
    } else {
      DeliveriesCounted(log, i, j - 1);
      var before := set k | i <= k < j - 1 && log[k].event.Some?;
      assert tagged == before + if log[j - 1].event.Some? then {j - 1} else {};
    }
  }

  /** Which backend gets which event numbers. */
  lemma FamilyExactly(e: DiffEntry)
    requires e.event.Some?
    ensures var tag := e.event.value;
            && (Route(e).family == Filesystem <==> 1 <= tag <= 6)
            && (Route(e).family == Share <==> 8 <= tag <= 25)
            && (Route(e).family == Crypto <==> tag == 26)
            && (Route(e).family == Account <==> tag == 7 || tag == 27)
            && (Route(e).family == Unknown <==> tag == 0 || tag > 27)
            && Route(e).entry == e
  {
  }

  /** Reading a number gives the kind it is documented for, and a number that is not
      known is not lost. */
  lemma KindExactly(n: nat, kind: Kind)
    ensures KindOf(n) == kind <==> kind.Number() == n && (kind.UnknownKind? ==> n == 0 || n > 27)
  {
    NumberOfKind(n);
    KindOfNumber(kind);
  }

  lemma NumberOfKind(n: nat)
    ensures KindOf(n).Number() == n && (KindOf(n).UnknownKind? <==> n == 0 || n > 27)
  {
  }

  lemma KindOfNumber(kind: Kind)
    ensures (kind.UnknownKind? ==> kind.tag == 0 || kind.tag > 27) ==> KindOf(kind.Number()) == kind
  {
  }

  // ----- Every run is a chain of lives -----

  lemma {:induction false} DeliveredInGrow(log: seq<DiffEntry>, more: seq<DiffEntry>, lives: seq<Life>, n: nat)
    requires n <= |lives|
    requires forall k | 0 <= k < |lives| :: lives[k].start <= lives[k].stop <= |log|
    ensures DeliveredIn(log + more, lives, n) == DeliveredIn(log, lives, n)
  {
    if n > 0 {
      DeliveredInGrow(log, more, lives, n - 1);
      DeliveriesGrow(log, more, lives[n - 1].start, lives[n - 1].stop);
    }
  }

  lemma {:induction false} DeliveredInPrefix(log: seq<DiffEntry>, lives: seq<Life>, longer: seq<Life>, n: nat)
    requires n <= |lives| && n <= |longer| && lives[..n] == longer[..n]
    requires forall k | 0 <= k < |lives| :: lives[k].start <= lives[k].stop <= |log|
    requires forall k | 0 <= k < |longer| :: longer[k].start <= longer[k].stop <= |log|
    ensures DeliveredIn(log, lives, n) == DeliveredIn(log, longer, n)
  {
    if n > 0 {
      assert lives[..n - 1] == longer[..n][..n - 1] == longer[..n - 1];
      assert lives[n - 1] == lives[..n][n - 1] == longer[n - 1];
      DeliveredInPrefix(log, lives, longer, n - 1);
    }
  }

  /** The last life goes on for the first `n` entries of what it is given next. */
  lemma Prolong(log: seq<DiffEntry>, lives: seq<Life>, delivered: seq<Delivery>, entries: seq<DiffEntry>, n: nat)
      returns (longer: seq<Life>)
    requires Accounts(log, lives, delivered) && n <= |entries|
    requires IsStretch(log, lives[|lives| - 1].stop, entries)
    ensures Accounts(log, longer, delivered + Deliveries(entries, 0, n))
    ensures longer[|longer| - 1] == Life(lives[|lives| - 1].start, lives[|lives| - 1].stop + n)
  {
    var m := |lives| - 1;
    var last := lives[m];
    longer := lives[m := Life(last.start, last.stop + n)];
    assert lives[..m] == longer[..m];
    DeliveredInPrefix(log, lives, longer, m);
    DeliveriesOfStretch(log, last.stop, entries, n);
    DeliveriesJoin(log, last.start, last.stop, last.stop + n);
  }

  /** A new life begins at a place inside the last one. */
  lemma Reborn(log: seq<DiffEntry>, lives: seq<Life>, delivered: seq<Delivery>, p: nat) returns (longer: seq<Life>)
    requires Accounts(log, lives, delivered)
    requires lives[|lives| - 1].start <= p <= lives[|lives| - 1].stop
    ensures Accounts(log, longer, delivered) && longer[|longer| - 1] == Life(p, p)
  {
    longer := lives + [Life(p, p)];
    assert longer[..|lives|] == lives[..|lives|];
    DeliveredInPrefix(log, lives, longer, |lives|);
  }

  lemma GrownExplained(s: System, more: seq<DiffEntry>, lives: seq<Life>)
    requires Explained(s, lives) && IsLog(s.log + more)
    ensures Explained(Next(s, Grown(more)), lives)
  {
    DeliveredInGrow(s.log, more, lives, |lives|);
    var last := lives[|lives| - 1];
    var p :| last.start <= p <= last.stop && StandsAt(s.log, RestoredCursor(s.progress.persisted), p);
    assert StandsAt(s.log + more, RestoredCursor(s.progress.persisted), p);
  }

  lemma TickedExplained(s: System, batch: Batch, saved: bool, lives: seq<Life>) returns (longer: seq<Life>)
    requires Explained(s, lives) && Answers(s.log, s.progress.cursor, batch)
    ensures Explained(Next(s, Ticked(batch, saved)), longer)
  {
    longer := lives;
    if batch.entries != [] {
      longer := ProlongedBy(s, batch, saved, lives);
    }
  }

  lemma ProlongedBy(s: System, batch: Batch, saved: bool, lives: seq<Life>) returns (longer: seq<Life>)
    requires Explained(s, lives) && Answers(s.log, s.progress.cursor, batch) && batch.entries != []
    ensures Accounts(s.log, longer, s.progress.delivered + Deliveries(batch.entries, 0, |batch.entries|))
    ensures StandsAt(s.log, batch.cursor, longer[|longer| - 1].stop)
    ensures SavedWithin(s.log, if saved then Some(batch.cursor) else s.progress.persisted, longer[|longer| - 1])
  {
    var last := lives[|lives| - 1];
    var stop := last.stop + |batch.entries|;
    AnswerStartsAtCursor(s.log, s.progress.cursor, batch, last.stop);
    longer := Prolong(s.log, lives, s.progress.delivered, batch.entries, |batch.entries|);
    TickedSaves(s.log, s.progress.persisted, batch.cursor, saved, last, stop);
  }

  /** The row saved, or the one before, lies in the life that was prolonged. */
  lemma TickedSaves(log: seq<DiffEntry>, persisted: Option<nat>, cursor: nat, saved: bool, last: Life, stop: nat)
    requires SavedWithin(log, persisted, last) && last.start <= last.stop <= stop && StandsAt(log, cursor, stop)
    ensures SavedWithin(log, if saved then Some(cursor) else persisted, Life(last.start, stop))
  {
    SavedLater(log, persisted, last, stop);
    assert StandsAt(log, RestoredCursor(Some(cursor)), stop);
  }

  lemma SavedLater(log: seq<DiffEntry>, persisted: Option<nat>, life: Life, stop: nat)
    requires SavedWithin(log, persisted, life) && life.stop <= stop
    ensures SavedWithin(log, persisted, Life(life.start, stop))
  {
    var p :| life.start <= p <= life.stop && StandsAt(log, RestoredCursor(persisted), p);
    assert life.start <= p <= stop;
  }

  lemma CrashedExplained(s: System, batch: Batch, dispatched: nat, lives: seq<Life>) returns (longer: seq<Life>)
    requires Explained(s, lives) && Answers(s.log, s.progress.cursor, batch) && dispatched <= |batch.entries|
    ensures Explained(Next(s, Crashed(batch, dispatched)), longer)
  {
    var last := lives[|lives| - 1];
    AnswerStartsAtCursor(s.log, s.progress.cursor, batch, last.stop);
    var p :| last.start <= p <= last.stop && StandsAt(s.log, RestoredCursor(s.progress.persisted), p);
    longer := Prolong(s.log, lives, s.progress.delivered, batch.entries, dispatched);
    longer := Reborn(s.log, longer, s.progress.delivered + Deliveries(batch.entries, 0, dispatched), p);
    assert SavedWithin(s.log, s.progress.persisted, Life(p, p));
  }

  lemma StepExplained(s: System, event: Event, lives: seq<Life>) returns (longer: seq<Life>)
    requires Explained(s, lives) && Enabled(s, event)
    ensures Explained(Next(s, event), longer)
  {
    longer := lives;
    match event {
      case Grown(more) => GrownExplained(s, more, lives);
      case Ticked(batch, saved) => longer := TickedExplained(s, batch, saved, lives);
      case Waited =>
      case Crashed(batch, dispatched) => longer := CrashedExplained(s, batch, dispatched, lives);
    }
  }

  /** However the log grows and wherever workers die, the deliveries are those of
      a chain of lives: each one in log order without gap or repeat, each new one
      starting at the saved row, inside what its predecessor had dispatched. */
  lemma {:induction false} RunExplained(log: seq<DiffEntry>, events: seq<Event>, n: nat) returns (lives: seq<Life>)
    requires n <= |events| && IsRun(log, events, n)
    ensures Explained(After(log, events, n), lives)
  {
    if n == 0 {
      lives := [Life(0, 0)];
      assert StandsAt(log, RestoredCursor(None), 0);
      assert DeliveredIn(log, lives, 1) == DeliveredIn(log, lives, 0) + Deliveries(log, 0, 0);
    } else {
      var before := RunExplained(log, events, n - 1);
      lives := StepExplained(After(log, events, n - 1), events[n - 1], before);
    }
  }

  /** No entry that the cursor has passed was left out: each one that carries an
      event number has been delivered. */
  lemma {:induction false} ChainCovers(log: seq<DiffEntry>, lives: seq<Life>, n: nat, k: nat)
    requires Chained(log, lives) && 0 < n <= |lives|
    requires k < lives[n - 1].stop && log[k].event.Some?
    ensures Route(log[k]) in DeliveredIn(log, lives, n)
  {
    if k >= lives[n - 1].start {
      DeliveriesContain(log, lives[n - 1].start, lives[n - 1].stop, k);
    } else {
      ChainCovers(log, lives, n - 1, k);
    }
  }

  lemma NothingSkipped(log: seq<DiffEntry>, events: seq<Event>, n: nat, s: System, k: nat)
    requires n <= |events| && IsRun(log, events, n) && s == After(log, events, n)
    requires k < |s.log| && s.log[k].id <= s.progress.cursor && s.log[k].event.Some?
    ensures Route(s.log[k]) in s.progress.delivered
  {
    var lives := RunExplained(log, events, n);
    var last := lives[|lives| - 1];
    assert k < last.stop by {
      if last.stop > 0 {
        assert s.log[last.stop - 1].id == s.progress.cursor;
      }
    }
    ChainCovers(s.log, lives, |lives|, k);
  }

  lemma StepOnce(s: System, event: Event, i: nat) returns (j: nat)
    requires IsLog(s.log) && Enabled(s, event) && !event.Crashed?
    requires StandsAt(s.log, s.progress.cursor, i) && s.progress.delivered == Deliveries(s.log, 0, i)
    ensures StandsAt(Next(s, event).log, Next(s, event).progress.cursor, j)
    ensures Next(s, event).progress.delivered == Deliveries(Next(s, event).log, 0, j)
  {
    j := i;
    match event {
      case Grown(more) =>
        DeliveriesGrow(s.log, more, 0, i);
      case Ticked(batch, saved) =>
        AnswerStartsAtCursor(s.log, s.progress.cursor, batch, i);
        if batch.entries != [] {
          j := i + |batch.entries|;
          DeliveriesOfStretch(s.log, i, batch.entries, |batch.entries|);
          DeliveriesJoin(s.log, 0, i, j);
        }
      case Waited =>
    }
  }

  /** Without a crash there is one life: the log up to the cursor, each entry once. */
  lemma {:induction false} ExactlyOnceWithoutCrash(log: seq<DiffEntry>, events: seq<Event>, n: nat) returns (i: nat)
    requires n <= |events| && IsRun(log, events, n)
    requires forall k | 0 <= k < n :: !events[k].Crashed?
    ensures var s := After(log, events, n);
            StandsAt(s.log, s.progress.cursor, i) && s.progress.delivered == Deliveries(s.log, 0, i)
  {
    if n == 0 {
      i := 0;
    } else {
      i := ExactlyOnceWithoutCrash(log, events, n - 1);
      var lives := RunExplained(log, events, n - 1);
      i := StepOnce(After(log, events, n - 1), events[n - 1], i);
    }
  }

  // ----- What can be delivered again -----

  ghost predicate AllAfter(deliveries: seq<Delivery>, cursor: nat) {
    forall d | d in deliveries :: d.entry.id > cursor
  }

  lemma {:induction false} DeliveriesAllAfter(entries: seq<DiffEntry>, n: nat, cursor: nat)
    requires n <= |entries| && forall k | 0 <= k < n :: entries[k].id > cursor
    ensures AllAfter(Deliveries(entries, 0, n), cursor)
  {
    if n > 0 {
      DeliveriesAllAfter(entries, n - 1, cursor);
    }
  }

  ghost predicate PastSaved(p: Progress, saved: nat) {
    saved <= p.cursor && saved <= RestoredCursor(p.persisted)
  }

  lemma StepPastSaved(s: System, event: Event, saved: nat)
    requires Enabled(s, event) && PastSaved(s.progress, saved)
    ensures PastSaved(Next(s, event).progress, saved)
    ensures s.progress.delivered <= Next(s, event).progress.delivered
    ensures AllAfter(Next(s, event).progress.delivered[|s.progress.delivered|..], saved)
  {
    if event.Ticked? || event.Crashed? {
      var entries := event.batch.entries;
      var n := if event.Ticked? then |entries| else event.dispatched;
      forall k | 0 <= k < |entries|
        ensures entries[k].id > s.progress.cursor
      {
        var i: nat :| FirstAfter(s.log, s.progress.cursor, i) && IsStretch(s.log, i, entries);
        assert entries[k] == s.log[i + k];
      }
      DeliveriesAllAfter(entries, n, saved);
    }
  }

  /** Whatever is delivered from some moment on, crashes included, lies after the
      row that was saved at that moment: nothing older is ever delivered again. */
  lemma {:induction false} OnlyAfterSaved(log: seq<DiffEntry>, events: seq<Event>, early: nat, late: nat, saved: nat)
    requires early <= late <= |events| && IsRun(log, events, late)
    requires saved == RestoredCursor(After(log, events, early).progress.persisted)
    ensures PastSaved(After(log, events, late).progress, saved)
    ensures After(log, events, early).progress.delivered <= After(log, events, late).progress.delivered
    ensures AllAfter(After(log, events, late).progress.delivered[|After(log, events, early).progress.delivered|..], saved)
    decreases late - early
  {
    if early == late {
      var lives := RunExplained(log, events, early);
    } else {
      OnlyAfterSaved(log, events, early, late - 1, saved);
      StepPastSaved(After(log, events, late - 1), events[late - 1], saved);
    }
  }

  // ----- The worker's cursor and the saved one -----

  /** The last tick of this life that brought entries was saved, or there was none. */
  predicate Settled(events: seq<Event>, n: nat)
    requires n <= |events|
  {
    n == 0 ||
    match events[n - 1]
    case Ticked(batch, saved) => if batch.entries == [] then Settled(events, n - 1) else saved
    case Crashed(_, _) => true
    case _ => Settled(events, n - 1)
  }

  /** Over every run the worker's cursor is the one a restart would restore exactly
      when the last productive tick of this life was saved; otherwise it is ahead. */
  lemma {:induction false} CursorIsSaved(log: seq<DiffEntry>, events: seq<Event>, n: nat)
    requires n <= |events| && IsRun(log, events, n)
    ensures var p := After(log, events, n).progress;
            && RestoredCursor(p.persisted) <= p.cursor
            && (RestoredCursor(p.persisted) == p.cursor <==> Settled(events, n))
  {
    if n > 0 {
      CursorIsSaved(log, events, n - 1);
      var s := After(log, events, n - 1);
      if events[n - 1].Ticked? && events[n - 1].batch.entries != [] {
        AnswerMovesOn(s.log, s.progress.cursor, events[n - 1].batch);
      }
    }
  }

  /** A productive answer carries the cursor forward. */
  lemma AnswerMovesOn(log: seq<DiffEntry>, cursor: nat, batch: Batch)
    requires Answers(log, cursor, batch) && batch.entries != []
    ensures batch.cursor > cursor
  {
    var i: nat :| FirstAfter(log, cursor, i) && IsStretch(log, i, batch.entries);
    assert batch.entries[|batch.entries| - 1] == log[i + |batch.entries| - 1];
  }
}
