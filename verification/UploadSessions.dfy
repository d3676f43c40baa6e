/** The registry of uploads an operator can pause, resume and cancel, and the choice of
    a free remote name. */
module UploadSessions {
  import opened Prelude
  import Decimal

  const TWO_TO_THE_64 := 0x1_0000_0000_0000_0000

  datatype ConflictMode = Refuse | Overwrite | Skip | Rename

  datatype State = Pending | InProgress | Paused | Cancelled | Completed | Failed(reason: string)

  predicate IsTerminal(s: State) {
    s.Cancelled? || s.Completed? || s.Failed?
  }

  function Label(s: State): string {
    match s
    case Pending => "pending"
    case InProgress => "in_progress"
    case Paused => "paused"
    case Cancelled => "cancelled"
    case Completed => "completed"
    case Failed(_) => "failed"
  }

  /** One line of a session's log; the state is kept rather than its label. */
  datatype Entry = Entry(state: State, at: int)

  datatype Session = Session(
    id: nat, path: string, remoteName: string, parent: Option<nat>, state: State, mode: ConflictMode,
    offset: nat, totalBytes: nat, createdAt: int, updatedAt: int, history: seq<Entry>)

  datatype Error = NotFound(id: nat) | InvalidTransition(id: nat, current: string, requested: string)

  datatype Request = MarkInProgress | Pause | Resume | Cancel | Complete | Fail(reason: string)

  // ----- The state machine -----

  /** Where a request leads, or the label it is refused with. */
  function Target(request: Request, s: State): Result<State, string> {
    match request
    case MarkInProgress =>
      match s {
        case Pending | Paused | InProgress => Ok(InProgress)
        case Cancelled => Err("cancelled")
        case Completed => Err("completed")
        case Failed(_) => Err("failed")
      }
    case Pause =>
      match s {
        case Pending | InProgress | Paused => Ok(Paused)
        case Cancelled => Err("cancelled")
        case Completed => Err("completed")
        case Failed(_) => Err("failed")
      }
    case Resume =>
      match s {
        case Paused => Ok(InProgress)
        case Pending => Err("pending")
        case InProgress => Err("in_progress")
        case Cancelled => Err("cancelled")
        case Completed => Err("completed")
        case Failed(_) => Err("failed")
      }
    case Cancel =>
      match s {
        case Pending | InProgress | Paused | Cancelled => Ok(Cancelled)
        case Completed => Err("completed")
        case Failed(_) => Err("failed")
      }
    case Complete =>
      match s {
        case Pending | InProgress => Ok(Completed)
        case Paused => Err("paused")
        case Cancelled => Err("cancelled")
        case Completed => Err("completed")
        case Failed(_) => Err("failed")
      }
    case Fail(reason) =>
      match s {
        case Pending | InProgress | Paused => Ok(Failed(reason))
        case Cancelled => Err("cancelled")
        case Completed => Err("completed")
        case Failed(_) => Err("failed")
      }
  }

  /** The state a request asks for. */
  function Goal(request: Request): State {
    match request
    case MarkInProgress => InProgress
    case Pause => Paused
    case Resume => InProgress
    case Cancel => Cancelled
    case Complete => Completed
    case Fail(reason) => Failed(reason)
  }

  /** An accepted change of state: nothing leaves a terminal state, nothing returns to
      pending, and a paused upload does not complete. */
  predicate IsEdge(a: State, b: State) {
    && !IsTerminal(a) && b != Pending && a != b && !(a == Paused && b == Completed)
  }

  /** Requests make accepted changes or stay, and every accepted change can be made. */
  lemma TargetsAreEdges(a: State, b: State)
    ensures a != b ==> (IsEdge(a, b) <==> exists request :: Target(request, a) == Ok(b))
    ensures forall request :: IsTerminal(a) && Target(request, a).Ok? ==> request == Cancel && a == Cancelled
  {
    if IsEdge(a, b) {
      var request := match b
        case InProgress => MarkInProgress
        case Paused => Pause
        case Cancelled => Cancel
        case Completed => Complete
        case Failed(reason) => Fail(reason)
        case Pending => Pause;
      assert Target(request, a) == Ok(b);
    }
  }

  /** From which states each request is accepted, and that a refusal tells the state. */
  lemma AcceptedExactly(request: Request, s: State)
    ensures Target(request, s).Ok? <==>
            match request
            case MarkInProgress => s == Pending || s == InProgress || s == Paused
            case Pause => s == Pending || s == InProgress || s == Paused
            case Resume => s == Paused
            case Cancel => s == Pending || s == InProgress || s == Paused || s == Cancelled
            case Complete => s == Pending || s == InProgress
            case Fail(_) => s == Pending || s == InProgress || s == Paused
    ensures Target(request, s).Err? ==> Target(request, s).error == Label(s)
  {
  }

  /** A change of state that the documented diagram draws. */
  predicate IsDrawn(a: State, b: State) {
    match a
    case Pending => b.InProgress? || b.Cancelled?
    case InProgress => b.Paused? || b.Completed? || b.Failed?
    case Paused => b.Pending? || b.Cancelled? || b.Failed?
    case _ => false
  }

  /** Where the code and its diagram part: five changes are accepted that are not drawn,
      and the drawn way back from paused to pending is never taken. */
  lemma DiagramDiffers(a: State, b: State)
    requires a != b
    ensures (exists request :: Target(request, a) == Ok(b)) && !IsDrawn(a, b) <==>
              || (a == Pending && (b == Paused || b == Completed || b.Failed?))
              || (a == InProgress && b == Cancelled)
              || (a == Paused && b == InProgress)
    ensures IsDrawn(a, b) && !(exists request :: Target(request, a) == Ok(b)) <==> a == Paused && b == Pending
  {
    TargetsAreEdges(a, b);
  }

  /** The log is one walk of accepted changes, from pending to the current state. */
  ghost predicate IsWalk(history: seq<Entry>, last: State) {
    && history != [] && history[0].state == Pending && history[|history| - 1].state == last
    && forall i | 0 < i < |history| :: IsEdge(history[i - 1].state, history[i].state)
  }

  /** Only the end of a log is terminal, and only its start is pending. */
  lemma WalkEnds(history: seq<Entry>, last: State, i: nat)
    requires IsWalk(history, last) && i < |history|
    ensures IsTerminal(history[i].state) ==> i == |history| - 1
    ensures history[i].state == Pending <==> i == 0
  {
    if i + 1 < |history| {
      assert IsEdge(history[i + 1 - 1].state, history[i + 1].state);
    }
    if i > 0 {
      assert IsEdge(history[i - 1].state, history[i].state);
    }
  }

  ghost predicate IsLawful(s: Session) {
    IsWalk(s.history, s.state) && s.offset <= s.totalBytes
  }

  function Moved(s: Session, next: State, now: int): Session {
    if next == s.state then s else s.(state := next, updatedAt := now, history := s.history + [Entry(next, now)])
  }

  lemma MovedIsLawful(s: Session, request: Request, now: int)
    requires IsLawful(s) && Target(request, s.state).Ok?
    ensures IsLawful(Moved(s, Target(request, s.state).value, now))
  {
    var next := Target(request, s.state).value;
    TargetsAreEdges(s.state, next);
    var moved := Moved(s, next, now);
    forall i | 0 < i < |moved.history|
      ensures IsEdge(moved.history[i - 1].state, moved.history[i].state)
    {
      if i < |s.history| {
        assert moved.history[i] == s.history[i] && moved.history[i - 1] == s.history[i - 1];
      }
    }
  }

  // ----- The registry -----

  class SessionRegistry {
    var byId: map<nat, Session>
    var nextId: nat
    /** How many sessions were ever created. */
    ghost var created: nat

    /** Every session is lawful; the counter wraps at 64 bits, and until it does the
        ids are exactly 1 to the number of sessions created. */
    ghost predicate Valid()
      reads this
    {
      && nextId == (created + 1) % TWO_TO_THE_64
      && (forall id | id in byId :: byId[id].id == id && IsLawful(byId[id]))
      && (created < TWO_TO_THE_64 ==> forall id: nat :: id in byId <==> 1 <= id <= created)
    }

    constructor ()
      ensures Valid() && byId == map[] && created == 0
    {
      byId, nextId, created := map[], 1, 0;
    }

    /** Registers an upload under a fresh id; every other session stays. */
    method Create(path: string, remoteName: string, parent: Option<nat>, totalBytes: nat, mode: ConflictMode, now: int)
      returns (session: Session)
      requires Valid()
      modifies this
      ensures Valid() && created == old(created) + 1
      ensures old(created) < TWO_TO_THE_64 - 1 ==> session.id !in old(byId) && session.id == old(created) + 1
      ensures byId == old(byId)[session.id := session]
      ensures session == Session(
          old(nextId), path, remoteName, parent, Pending, mode, 0, totalBytes, now, now, [Entry(Pending, now)])
    {
      var id := nextId;
      nextId := (nextId + 1) % TWO_TO_THE_64;
      session := Session(id, path, remoteName, parent, Pending, mode, 0, totalBytes, now, now, [Entry(Pending, now)]);
      byId := byId[id := session];
      created := created + 1;
    }

    /** Applies a request to one session. An accepted change of state is logged;
        a refused request, like one that keeps the state, changes nothing. */
    method Transition(id: nat, request: Request, now: int) returns (r: Result<Session, Error>)
      requires Valid()
      modifies this`byId
      ensures Valid()
      ensures id !in old(byId) ==> r == Err(NotFound(id)) && byId == old(byId)
      ensures id in old(byId) ==>
                var target := Target(request, old(byId)[id].state);
                if target.Ok? && target.value == old(byId)[id].state then
                  r == Ok(old(byId)[id]) && byId == old(byId)
                else if target.Ok? then
                  && r.Ok? && byId == old(byId)[id := r.value]
                  && r.value == old(byId)[id].(
                       state := target.value, updatedAt := now,
                       history := old(byId)[id].history + [Entry(target.value, now)])
                else r == Err(InvalidTransition(id, Label(old(byId)[id].state), target.error)) && byId == old(byId)
      ensures id in old(byId) && IsTerminal(old(byId)[id].state) ==> byId == old(byId)
    {
      if id !in byId {
        return Err(NotFound(id));
      }
      var session := byId[id];
      var target := Target(request, session.state);
      if target.Err? {
        return Err(InvalidTransition(id, Label(session.state), target.error));
      }
      TargetsAreEdges(session.state, target.value);
      MovedIsLawful(session, request, now);
      if target.value != session.state {
        session := session.(
          state := target.value, updatedAt := now, history := session.history + [Entry(target.value, now)]);
        byId := byId[id := session];
      }
      return Ok(session);
    }

    /** Records how far an upload came, never beyond its length. No state refuses
        this, not even a terminal one. */
    method RecordProgress(id: nat, offset: nat, now: int) returns (r: Result<Session, Error>)
      requires Valid()
      modifies this`byId
      ensures Valid()
      ensures id !in old(byId) ==> r == Err(NotFound(id)) && byId == old(byId)
      ensures id in old(byId) ==>
                && r == Ok(old(byId)[id].(offset := Min(offset, old(byId)[id].totalBytes), updatedAt := now))
                && byId == old(byId)[id := r.value]
    {
      if id !in byId {
        return Err(NotFound(id));
      }
      var session := byId[id];
      session := session.(offset := Min(offset, session.totalBytes), updatedAt := now);
      byId := byId[id := session];
      return Ok(session);
    }
  }

  /** What an accepted request leads to is its goal. A refusal, which is to name the
      requested state, names it exactly when the session is in that state already: for
      resuming what is in progress, completing what is complete and failing what has
      failed. Every other refusal names the wrong state. */
  lemma RefusalNamesGoal(request: Request, s: State)
    ensures Target(request, s).Ok? ==> Target(request, s).value == Goal(request)
    ensures Target(request, s).Err? ==>
              (Target(request, s).error == Label(Goal(request)) <==>
                 || (request == Resume && s == InProgress)
                 || (request == Complete && s == Completed)
                 || (request.Fail? && s.Failed?))
  {
    LabelsDiffer(s, Goal(request));
  }

  /** A label tells the state, but for the reason of a failure. */
  lemma LabelsDiffer(a: State, b: State)
    ensures Label(a) == Label(b) <==> a == b || (a.Failed? && b.Failed?)
  {
    assert "pending"[1] == 'e' && "paused"[1] == 'a';
    assert "cancelled"[1] == 'a' && "completed"[1] == 'o' && "cancelled"[0] == 'c' && "paused"[0] == 'p';
    assert "failed"[0] == 'f' && "in_progress"[0] == 'i';
  }

  lemma LabelExactly(s: State)
    ensures Label(s) == "pending" <==> s == Pending
    ensures Label(s) == "in_progress" <==> s == InProgress
    ensures Label(s) == "paused" <==> s == Paused
    ensures Label(s) == "cancelled" <==> s == Cancelled
    ensures Label(s) == "completed" <==> s == Completed
    ensures Label(s) == "failed" <==> s.Failed?
  {
    LabelsDiffer(s, Pending);
    LabelsDiffer(s, InProgress);
    LabelsDiffer(s, Paused);
    LabelsDiffer(s, Cancelled);
    LabelsDiffer(s, Completed);
    LabelsDiffer(s, Failed(""));
  }

  // ----- A whole life of one session -----

  function Applied(s: State, request: Request): State {
    if Target(request, s).Ok? then Target(request, s).value else s
  }

  function After(s: State, requests: seq<Request>, n: nat): State
    requires n <= |requests|
  {
    if n == 0 then s else Applied(After(s, requests, n - 1), requests[n - 1])
  }

  /** Once terminal, a session stays as it is whatever is requested, so the first
      terminal state it reaches is its outcome. */
  lemma {:induction false} TerminalIsFinal(s: State, requests: seq<Request>, m: nat, n: nat)
    requires m <= n <= |requests| && IsTerminal(After(s, requests, m))
    ensures After(s, requests, n) == After(s, requests, m)
  {
    if m < n {
      TerminalIsFinal(s, requests, m, n - 1);
    }
  }

  /** A completed upload was never completed out of a pause: the state just before was
      pending or in progress. */
  lemma {:induction false} CompletedFrom(s: State, requests: seq<Request>, n: nat) returns (m: nat)
    requires n <= |requests| && !IsTerminal(s) && After(s, requests, n) == Completed
    ensures m < n && After(s, requests, m + 1) == Completed && requests[m] == Complete
    ensures After(s, requests, m) in {Pending, InProgress}
  {
    var before := After(s, requests, n - 1);
    if before == Completed {
      m := CompletedFrom(s, requests, n - 1);
    } else {
      m := n - 1;
    }
  }

  // ----- A free name -----

  /** The name up to its last dot, and the rest with the dot. */
  function SplitName(name: string): (r: (string, string))
    ensures r.0 + r.1 == name
  {
    SplitAt(name, |name|)
  }

  function SplitAt(name: string, n: nat): (r: (string, string))
    requires n <= |name|
    ensures r.0 + r.1 == name
  {
    if n == 0 then (name, "")
    else if name[n - 1] == '.' then (name[..n - 1], name[n - 1..])
    else SplitAt(name, n - 1)
  }

  /** The split is at the last dot, if there is one. */
  lemma {:induction false} SplitsAtLastDot(name: string, n: nat)
    requires n <= |name| && forall i | n <= i < |name| :: name[i] != '.'
    ensures var (stem, ext) := SplitAt(name, n);
            && (ext == "" <==> '.' !in name)
            && (ext != "" ==> ext[0] == '.' && '.' !in ext[1..])
  {
    if n > 0 && name[n - 1] != '.' {
      SplitsAtLastDot(name, n - 1);
    }
  }

  function Numbered(stem: string, n: nat, ext: string): string {
    stem + " (" + Decimal.Print(n) + ")" + ext
  }

  lemma NumberedSplits(stem: string, n: nat, ext: string)
    ensures Numbered(stem, n, ext) == stem + (" (" + (Decimal.Print(n) + (")" + ext)))
  {
  }

  /** The number comes before the last dot, or at the end of a name without one. */
  lemma NumberedExactly(stem: string, ext: string, n: nat)
    requires '.' !in ext
    ensures var (front, back) := SplitName(stem + "." + ext);
            Numbered(front, n, back) == stem + " (" + Decimal.Print(n) + ")." + ext
    ensures var (front, back) := SplitName(ext); Numbered(front, n, back) == ext + " (" + Decimal.Print(n) + ")"
  {
    var name := stem + "." + ext;
    SplitAtDot(name, |stem|, |name|);
    assert name[..|stem|] == stem && name[|stem|..] == "." + ext;
    assert stem + " (" + Decimal.Print(n) + ")" + ("." + ext) == stem + " (" + Decimal.Print(n) + ")." + ext;
    SplitsAtLastDot(ext, |ext|);
  }

  lemma {:induction false} SplitAtDot(name: string, dot: nat, n: nat)
    requires dot < n <= |name| && name[dot] == '.' && forall i | dot < i < n :: name[i] != '.'
    ensures SplitAt(name, n) == (name[..dot], name[dot..])
  {
    if dot < n - 1 {
      SplitAtDot(name, dot, n - 1);
    }
  }

  /** Different numbers make different names. */
  lemma NumberedInjective(stem: string, a: nat, b: nat, ext: string)
    requires Numbered(stem, a, ext) == Numbered(stem, b, ext)
    ensures a == b
  {
    NumberedSplits(stem, a, ext);
    NumberedSplits(stem, b, ext);
    var x, y := Decimal.Print(a) + (")" + ext), Decimal.Print(b) + (")" + ext);
    var name := Numbered(stem, a, ext);
    assert name[|stem|..] == " (" + x == " (" + y;
    assert (" (" + x)[2..] == x && (" (" + y)[2..] == y;
    Decimal.PrintThen(a, ")" + ext, b, ")" + ext);
  }

  lemma NumberedIsLonger(name: string, n: nat)
    ensures Numbered(SplitName(name).0, n, SplitName(name).1) != name
  {
    var (stem, ext) := SplitName(name);
    assert |Numbered(stem, n, ext)| > |stem| + |ext|;
    assert |name| == |stem| + |ext|;
  }

  ghost predicate AllTaken(stem: string, ext: string, n: nat, existing: set<string>) {
    forall m: nat | 2 <= m < n :: Numbered(stem, m, ext) in existing
  }

  /** Numbers that are all taken are no more than the names that exist. */
  lemma {:induction false} TakenCount(name: string, existing: set<string>, n: nat)
    requires n >= 2 && name in existing && AllTaken(SplitName(name).0, SplitName(name).1, n, existing)
    ensures n - 1 <= |existing|
  {
    var (stem, ext) := SplitName(name);
    if n > 2 {
      var last := Numbered(stem, n - 1, ext);
      var fewer := existing - {last};
      NumberedIsLonger(name, n - 1);
      forall m: nat | 2 <= m < n - 1
        ensures Numbered(stem, m, ext) in fewer
      {
        if Numbered(stem, m, ext) == last {
          NumberedInjective(stem, m, n - 1, ext);
        }
      }
      TakenCount(name, fewer, n - 1);
      assert |fewer| == |existing| - 1;
    } else {
      assert |existing - {name}| == |existing| - 1;
    }
  }

  /** Picks the name itself when it is free, and otherwise the free numbered name with
      the smallest number from 2 up. That number is at most one more than the names
      that exist, so for fewer than 2^64 - 2 of them the result is always free. */
  method PickUniqueName(name: string, existing: set<string>) returns (r: string)
    ensures name !in existing ==> r == name
    ensures name in existing ==>
              exists n: nat ::
                && 2 <= n <= |existing| + 1
                && r == Numbered(SplitName(name).0, n, SplitName(name).1)
                && (r !in existing ==> AllTaken(SplitName(name).0, SplitName(name).1, n, existing))
    ensures |existing| < TWO_TO_THE_64 - 2 ==> r !in existing
  {
    if name !in existing {
      return name;
    }
    var (stem, ext) := SplitName(name);
    var n := 2;
    while n < TWO_TO_THE_64
      invariant 2 <= n <= TWO_TO_THE_64
      invariant AllTaken(stem, ext, n, existing)
    {
      TakenCount(name, existing, n);
      var candidate := Numbered(stem, n, ext);
      if candidate !in existing {
        return candidate;
      }
      n := n + 1;
    }
    TakenCount(name, existing, n);
    return Numbered(stem, 2, ext);
  }

  /** The bound is met: with one name and its first numbers taken, the next is picked. */
  lemma BoundIsMet(name: string, existing: set<string>, n: nat)
    requires n >= 2 && name in existing && |existing| == n - 1
    requires AllTaken(SplitName(name).0, SplitName(name).1, n, existing)
    ensures Numbered(SplitName(name).0, n, SplitName(name).1) !in existing
  {
    if Numbered(SplitName(name).0, n, SplitName(name).1) in existing {
      TakenCount(name, existing, n + 1);
    }
  }
}
