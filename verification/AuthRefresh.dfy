/** When a session is refreshed or ended, and the guard that lets one refresh run at a
    time. */
module AuthRefresh {
  import opened Prelude
  import opened AuthSession

  datatype Decision = NoSession | Healthy | RefreshDue | IdleLogout | Expired

  datatype Outcome = DidRefresh | AlreadyInFlight | NothingToRefresh

  datatype LifecycleError = AuthExpired | NoActiveSession

  /** What the caller's function answers if it is called: a token, an error of its own,
      or no answer at all because it panics. */
  datatype Reply = Fresh(token: Secret) | Refused(message: string) | Panicked

  /** Errors are the caller's own, come from the lifecycle, or are a panic that goes on
      through the caller. */
  datatype RefreshError = Own(message: string) | FromLifecycle(e: LifecycleError) | Unwinding

  // ----- Timing decisions -----

  const DEFAULT_LIFETIME: Duration := 3_600_000_000_000

  /** A lifetime of zero is replaced; one under a second is not, though it counts as no
      seconds at all. */
  function Sanitized(policy: Policy): (p: Policy)
    ensures 0.0 <= p.threshold <= 1.0 && p.lifetime > 0
    ensures 0.0 <= policy.threshold <= 1.0 ==> p.threshold == policy.threshold
    ensures policy.lifetime > 0 ==> p.lifetime == policy.lifetime
    ensures policy.threshold < 0.0 || policy.threshold > 1.0 ==> p.threshold == 0.8
    ensures policy.lifetime == 0 ==> p.lifetime == 3_600_000_000_000
    ensures p.maxIdle == policy.maxIdle
    ensures WholeSeconds(p.lifetime) == 0 <==> 0 < policy.lifetime < 1_000_000_000
  {
    var threshold := if 0.0 <= policy.threshold <= 1.0 then policy.threshold else 0.8;
    Policy(if policy.lifetime == 0 then DEFAULT_LIFETIME else policy.lifetime, threshold, policy.maxIdle)
  }

  ghost predicate IsSane(policy: Policy) {
    0.0 <= policy.threshold <= 1.0 && policy.lifetime > 0
  }

  /** Seconds after which a refresh is due, rounded down. */
  function RefreshAfter(policy: Policy): int {
    (WholeSeconds(policy.lifetime) as real * policy.threshold).Floor
  }

  lemma RefreshAfterBounds(policy: Policy)
    requires IsSane(policy)
    ensures 0 <= RefreshAfter(policy) <= WholeSeconds(policy.lifetime)
  {
    var due := WholeSeconds(policy.lifetime) as real * policy.threshold;
    assert 0.0 <= due <= WholeSeconds(policy.lifetime) as real;
  }

  function SaturatingSub(a: nat, b: nat): nat {
    Max(a - b, 0)
  }

  predicate IsExpired(l: Lifecycle, now: nat) {
    now >= l.expiresAt
  }

  predicate IsIdleExpired(l: Lifecycle, now: nat, policy: Policy) {
    policy.maxIdle.Some? && SaturatingSub(now, l.lastUsedAt) >= WholeSeconds(policy.maxIdle.value)
  }

  predicate ShouldRefresh(l: Lifecycle, now: nat, policy: Policy) {
    now >= Min(l.establishedAt + RefreshAfter(policy), U64_MAX)
  }

  /** The decision at a moment. */
  function DecisionAt(lifecycle: Option<Lifecycle>, now: nat, policy: Policy): Decision {
    if lifecycle.None? then NoSession
    else if IsExpired(lifecycle.value, now) then Expired
    else if IsIdleExpired(lifecycle.value, now, policy) then IdleLogout
    else if ShouldRefresh(lifecycle.value, now, policy) then RefreshDue
    else Healthy
  }

  /** Each decision by its own moments. Expiry comes before idling and idling before a
      refresh; the refresh falls due at the last whole second of its share of the lifetime. */
  lemma DecisionExactly(l: Lifecycle, now: nat, policy: Policy, due: int)
    requires due as real <= (policy.lifetime / 1_000_000_000) as real * policy.threshold < (due + 1) as real
    ensures var d := DecisionAt(Some(l), now, policy);
            var over := now >= l.expiresAt;
            var idle := policy.maxIdle.Some? &&
              (policy.maxIdle.value < 1_000_000_000 || now >= l.lastUsedAt + policy.maxIdle.value / 1_000_000_000);
            var refresh := now >= l.establishedAt + due || now >= 0xFFFF_FFFF_FFFF_FFFF;
            && (d == Expired <==> over)
            && (d == IdleLogout <==> !over && idle)
            && (d == RefreshDue <==> !over && !idle && refresh)
            && (d == Healthy <==> !over && !idle && !refresh)
    ensures DecisionAt(None, now, policy) == NoSession
  {
    var share := WholeSeconds(policy.lifetime) as real * policy.threshold;
    assert share.Floor == due;
    if policy.maxIdle.Some? {
      var secs := WholeSeconds(policy.maxIdle.value);
      assert secs == 0 <==> policy.maxIdle.value < 1_000_000_000;
    }
  }

  function Severity(d: Decision): nat {
    match d
    case NoSession => 0
    case Healthy => 0
    case RefreshDue => 1
    case IdleLogout => 2
    case Expired => 3
  }

  /** Left alone, a session only gets worse: healthy, due for refresh, idle, expired. */
  lemma DecisionsAreMonotone(l: Lifecycle, policy: Policy, now: nat, later: nat)
    requires now <= later
    ensures Severity(DecisionAt(Some(l), now, policy)) <= Severity(DecisionAt(Some(l), later, policy))
  {
  }

  /** After a refresh, without a limit on idling, the session is healthy until the
      threshold, due for refresh until the end of its lifetime, and then expired; the
      clock's last second counts as the end of every lifetime. */
  lemma RefreshWindow(l: Lifecycle, policy: Policy, since: nat, now: nat)
    requires IsSane(policy) && policy.maxIdle.None?
    ensures DecisionAt(Some(Refreshed(l, since, policy)), now, policy)
            == if now >= since + WholeSeconds(policy.lifetime) || now >= U64_MAX then Expired
               else if now >= since + RefreshAfter(policy) then RefreshDue
               else Healthy
    ensures RefreshAfter(policy) <= WholeSeconds(policy.lifetime)
  {
    RefreshAfterBounds(policy);
  }

  // ----- One refresh at a time -----

  class RefreshGuard {
    var inFlight: bool

    constructor ()
      ensures !inFlight
    {
      inFlight := false;
    }

    /** Takes the slot if it is free. */
    method TryBegin() returns (ticket: bool)
      modifies this
      ensures ticket <==> !old(inFlight)
      ensures inFlight
    {
      if inFlight {
        return false;
      }
      inFlight := true;
      return true;
    }

    /** Dropping the ticket frees the slot. */
    method Drop()
      modifies this
      ensures !inFlight
    {
      inFlight := false;
    }
  }

  // ----- Refreshing -----

  /** What a refresh that may run does, given the reply of the caller's function. */
  function RanRefresh(s: Session, now: nat, policy: Policy, reply: Reply)
    : (Session, Result<Outcome, RefreshError>)
  {
    if s.lifecycle.None? then (s, Ok(NothingToRefresh))
    else if reply.Refused? then (s, Err(Own(reply.message)))
    else if reply.Panicked? then (s, Err(Unwinding))
    else
      var (after, recorded) := RecordedRefresh(s, now, policy, reply.token);
      if recorded.Err? then (after, Err(FromLifecycle(NoActiveSession))) else (after, Ok(DidRefresh))
  }

  /** An expired session gets one more attempt. */
  predicate TriesAgain(s: Session, reauth: Option<Reply>) {
    s.lifecycle.Some? && s.lifecycle.value.credentialsRetained && reauth.Some?
  }

  function HandledExpiry(s: Session, now: nat, policy: Policy, reauth: Option<Reply>)
    : (Session, Result<Outcome, RefreshError>)
  {
    if TriesAgain(s, reauth) then
      RanRefresh(s, now, policy, reauth.value)
    else (Session(NOBODY, None), Err(FromLifecycle(AuthExpired)))
  }

  class RefreshCoordinator {
    const policy: Policy
    const guard: RefreshGuard

    constructor (policy: Policy)
      ensures IsSane(this.policy) && fresh(guard) && !guard.inFlight
    {
      this.policy := Sanitized(policy);
      guard := new RefreshGuard();
    }

    method Evaluate(session: SessionManager, now: nat) returns (d: Decision)
      ensures d == DecisionAt(session.lifecycle, now, policy)
    {
      if session.lifecycle.None? {
        return NoSession;
      }
      var l := session.lifecycle.value;
      if IsExpired(l, now) {
        return Expired;
      }
      if IsIdleExpired(l, now, policy) {
        return IdleLogout;
      }
      if ShouldRefresh(l, now, policy) {
        return RefreshDue;
      }
      return Healthy;
    }

    /** Runs the caller's function under the guard. Every way out, a panic included,
        leaves the guard as it was found; while another refresh runs, nothing
        happens. */
    method RunRefresh(session: SessionManager, reply: Reply, now: nat)
      returns (r: Result<Outcome, RefreshError>)
      modifies session, guard
      ensures guard.inFlight == old(guard.inFlight)
      ensures old(guard.inFlight) ==>
                && session.Contents() == old(session.Contents())
                && r == Ok(if old(session.lifecycle).None? then NothingToRefresh else AlreadyInFlight)
      ensures !old(guard.inFlight) ==> (session.Contents(), r) == RanRefresh(old(session.Contents()), now, policy, reply)
    {
      if session.lifecycle.None? {
        return Ok(NothingToRefresh);
      }
      var ticket := guard.TryBegin();
      if !ticket {
        return Ok(AlreadyInFlight);
      }
      if reply.Refused? {
        guard.Drop();
        return Err(Own(reply.message));
      }
      if reply.Panicked? {
        guard.Drop();
        return Err(Unwinding);
      }
      var recorded := session.RecordRefresh(now, policy, reply.token);
      guard.Drop();
      if recorded.Err? {
        return Err(FromLifecycle(NoActiveSession));
      }
      return Ok(DidRefresh);
    }

    /** After the server called the token expired: one attempt with retained
        credentials, or the session ends. */
    method HandleAuthExpired(session: SessionManager, reauth: Option<Reply>, now: nat)
      returns (r: Result<Outcome, RefreshError>)
      modifies session, guard
      ensures guard.inFlight == old(guard.inFlight)
      ensures !old(guard.inFlight) ==>
                (session.Contents(), r) == HandledExpiry(old(session.Contents()), now, policy, reauth)
      ensures old(guard.inFlight) ==>
                if TriesAgain(old(session.Contents()), reauth) then
                  session.Contents() == old(session.Contents()) && r == Ok(AlreadyInFlight)
                else session.Contents() == Session(NOBODY, None) && r == Err(FromLifecycle(AuthExpired))
    {
      var retained := session.lifecycle.Some? && session.lifecycle.value.credentialsRetained;
      if retained && reauth.Some? {
        r := RunRefresh(session, reauth.value, now);
      } else {
        var _ := session.Revoke();
        return Err(FromLifecycle(AuthExpired));
      }
    }
  }

  /** A session that was refreshed is authenticated with the new token and, unless the
      policy leaves no time, healthy; any other outcome of a refresh keeps the token. */
  lemma RefreshRenews(s: Session, now: nat, policy: Policy, reply: Reply)
    requires IsSound(s.snapshot) && IsSane(policy)
    ensures var (after, r) := RanRefresh(s, now, policy, reply);
            && IsSound(after.snapshot)
            && (r == Ok(DidRefresh) <==> s.lifecycle.Some? && reply.Fresh? && s.snapshot.state == Authenticated)
            && (r == Ok(DidRefresh) ==>
                  && after.snapshot == s.snapshot.(token := Some(reply.token))
                  && ((RefreshAfter(policy) > 0 && now < U64_MAX && (policy.maxIdle.Some? ==> WholeSeconds(policy.maxIdle.value) > 0))
                      <==> DecisionAt(after.lifecycle, now, policy) == Healthy))
            && (r != Ok(DidRefresh) ==> after == s)
  {
    RefreshAfterBounds(policy);
  }

  /** After the expiry signal, the session either carries a fresh token, or is over
      unless a refresh attempt failed or found nothing to do. */
  lemma ExpiryEnds(s: Session, now: nat, policy: Policy, reauth: Option<Reply>)
    requires IsSound(s.snapshot)
    ensures var (after, r) := HandledExpiry(s, now, policy, reauth);
            && IsSound(after.snapshot)
            && (r == Err(FromLifecycle(AuthExpired)) <==>
                  s.lifecycle.None? || !s.lifecycle.value.credentialsRetained || reauth.None?)
            && (r == Err(FromLifecycle(AuthExpired)) ==> after == Session(NOBODY, None))
            && (r != Err(FromLifecycle(AuthExpired)) ==> (after, r) == RanRefresh(s, now, policy, reauth.value))
  {
  }

  // ----- Many callers -----

  /** A caller is outside, or runs its function while holding the ticket. */
  datatype Phase = Outside | Holding

  datatype Callers = Callers(inFlight: bool, phase: map<nat, Phase>)

  /** `Finish` is any way out: success, an error, or a panic that unwinds. */
  datatype Move = Begin(caller: nat) | Finish(caller: nat)

  predicate Enabled(c: Callers, m: Move) {
    match m
    case Begin(i) => i in c.phase && c.phase[i].Outside?
    case Finish(i) => i in c.phase && c.phase[i].Holding?
  }

  function Moved(c: Callers, m: Move): Callers {
    if !Enabled(c, m) then c
    else
      match m
      case Begin(i) => if c.inFlight then c else Callers(true, c.phase[i := Holding])
      case Finish(i) => Callers(false, c.phase[i := Outside])
  }

  function MovedAll(c: Callers, moves: seq<Move>, n: nat): Callers
    requires n <= |moves|
  {
    if n == 0 then c else Moved(MovedAll(c, moves, n - 1), moves[n - 1])
  }

  ghost predicate NobodyHolds(c: Callers) {
    !c.inFlight && forall i | i in c.phase :: c.phase[i].Outside?
  }

  /** The slot is taken exactly when some caller holds the ticket, and never two do. */
  ghost predicate OneTicket(c: Callers) {
    && (c.inFlight <==> exists i :: i in c.phase && c.phase[i].Holding?)
    && forall i, j | i in c.phase && j in c.phase && c.phase[i].Holding? && c.phase[j].Holding? :: i == j
  }

  /** Whatever the interleaving, at most one refresh runs, and one can start again
      exactly when none is running. */
  lemma {:induction false} AtMostOneTicket(c: Callers, moves: seq<Move>, n: nat)
    requires NobodyHolds(c) && n <= |moves|
    ensures OneTicket(MovedAll(c, moves, n))
  {
    if n > 0 {
      AtMostOneTicket(c, moves, n - 1);
      MoveKeepsOne(MovedAll(c, moves, n - 1), moves[n - 1]);
    }
  }

  lemma MoveKeepsOne(c: Callers, m: Move)
    requires OneTicket(c)
    ensures OneTicket(Moved(c, m))
    ensures m.Begin? && Enabled(c, m) ==> (Moved(c, m) != c <==> !c.inFlight)
    ensures m.Finish? && Enabled(c, m) ==> NobodyHolds(Moved(c, m))
  {
    var after := Moved(c, m);
    if Enabled(c, m) {
      match m
      case Begin(i) =>
        if !c.inFlight {
          assert after.phase[i].Holding?;
        }
      case Finish(i) =>
        assert forall j | j in after.phase :: after.phase[j].Outside?;
    }
  }
}
