/** Single-flight token refresh: callers, logins, logouts, the network and the rotating server as one state
    machine whose steps interleave freely. Each step is one access to the token store, the lock or the server. */
module TokenRefresh {
  import opened Wrappers

  type Caller = nat
  type Token = nat

  /** What a refresh request comes back with. `Refused` is the server's Unauthenticated. */
  datatype Reply = Refreshed(token: Token) | Refused | Failed

  datatype Wire = Sent | Answered(reply: Reply)

  /** Where a caller is inside refresh_stored_tokens. `epoch` is the number of logins and logouts so far when
      the token of the call was read. */
  datatype Phase =
    | Idle
    | Observed(token: Token, force: bool)
    | Locked(token: Token, force: bool)
    | Calling(token: Token, epoch: nat, wire: Wire)
    | Replied(token: Token, epoch: nat, reply: Reply)
    | Rereading

  /** What happens to a token: a client presents it to the server, a client receives its successor, the storage
      fails to take the successor, or the server consumes it for a caller that never sees the answer. */
  datatype Event =
    | Presented(token: Token)
    | Exchanged(token: Token)
    | WriteFailed(token: Token)
    | Stranded(token: Token)

  /** What refresh_stored_tokens returns. */
  datatype Outcome = Tokens(token: Token) | NoTokens | Error

  /** What callers do with the store: a caller reads it before the lock, looks at it again under the lock, calls the
      server, or returns; and somebody writes or clears it. */
  datatype Access =
    | Saw(caller: Caller, seen: Option<Token>, force: bool, expiresSoon: bool)
    | Looked(caller: Caller, found: Option<Token>, expiresSoon: bool, fault: bool)
    | Called(caller: Caller, token: Token)
    | Returned(caller: Caller, outcome: Outcome)
    | Wrote(stored: Option<Token>)

  /** Client: `stored` token, lock `holder`, `phases` (a missing caller is idle), `logins` issued but not yet
      stored. Server: `live`, `consumed` and `expired` tokens, the `next` fresh one, and the `strays` still on
      their way for callers that gave up. `log` is the history of events, `trace` that of accesses. */
  datatype State = State(
    stored: Option<Token>, holder: Option<Caller>, phases: map<Caller, Phase>, logins: set<Token>, epoch: nat,
    live: set<Token>, consumed: set<Token>, expired: set<Token>, next: Token, strays: set<Token>,
    log: seq<Event>, trace: seq<Access>)
  {
    function PhaseOf(c: Caller): Phase {
      if c in phases then phases[c] else Idle
    }
  }

  const INITIAL := State(None, None, map[], {}, 0, {}, {}, {}, 0, {}, [], [])

  /** `expiresSoon` is what the clock says about the token just read, `fault` an error of the storage. */
  datatype Step =
    | Observe(caller: Caller, force: bool, expiresSoon: bool)
    | Acquire(caller: Caller)
    | Reread(caller: Caller, expiresSoon: bool, fault: bool)
    | Serve(caller: Caller)
    | ServerError(caller: Caller)
    | Deliver(caller: Caller)
    | Lose(caller: Caller)
    | ServeStray(token: Token)
    | Finish(caller: Caller, fault: bool)
    | ReadAgain(caller: Caller)
    | IssueLogin
    | StoreLogin(token: Token)
    | Logout
    | Expire(token: Token)

  predicate Enabled(s: State, step: Step) {
    match step
    case Observe(c, _, _) => s.PhaseOf(c).Idle?
    case Acquire(c) => s.PhaseOf(c).Observed? && s.holder.None?
    case Reread(c, _, _) => s.PhaseOf(c).Locked?
    case Serve(c) => s.PhaseOf(c).Calling? && s.PhaseOf(c).wire.Sent?
    case ServerError(c) => s.PhaseOf(c).Calling? && s.PhaseOf(c).wire.Sent?
    case Deliver(c) => s.PhaseOf(c).Calling? && s.PhaseOf(c).wire.Answered?
    case Lose(c) => s.PhaseOf(c).Calling?
    case ServeStray(t) => t in s.strays
    case Finish(c, _) => s.PhaseOf(c).Replied?
    case ReadAgain(c) => s.PhaseOf(c).Rereading?
    case IssueLogin => true
    case StoreLogin(t) => t in s.logins
    case Logout => true
    case Expire(t) => t in s.live
  }

  function Goes(s: State, c: Caller, phase: Phase): State {
    s.(phases := s.phases[c := phase])
  }

  function Traced(s: State, a: Access): State {
    s.(trace := s.trace + [a])
  }

  /** Returning from refresh_stored_tokens drops the lock guard. */
  function Returns(s: State, c: Caller, outcome: Outcome): State {
    Traced(s, Returned(c, outcome)).(phases := s.phases[c := Idle],
                                    holder := if s.holder == Some(c) then None else s.holder)
  }

  function Writes(s: State, stored: Option<Token>): State {
    Traced(s, Wrote(stored)).(stored := stored)
  }

  function Current(s: State): Outcome {
    if s.stored.Some? then Tokens(s.stored.value) else NoTokens
  }

  /** The server's transaction: consume a live token and issue the next one. */
  function Rotated(s: State, t: Token): State {
    if t in s.live
    then s.(live := s.live - {t} + {s.next}, consumed := s.consumed + {t}, next := s.next + 1)
    else s
  }

  function Logged(s: State, happens: bool, e: Event): State {
    if happens then s.(log := s.log + [e]) else s
  }

  /** A request that its caller gave up on before it was answered. */
  function Strayed(s: State, call: Phase): State
    requires call.Calling?
  {
    if call.wire.Sent? then s.(strays := s.strays + {call.token}) else s
  }

  function Next(s: State, step: Step): State
    requires Enabled(s, step)
  {
    match step
    case Observe(c, force, expiresSoon) =>
      var seen := Traced(s, Saw(c, s.stored, force, expiresSoon));
      if s.stored.None? || (!force && !expiresSoon) then Returns(seen, c, Current(s))
      else Goes(seen, c, Observed(s.stored.value, force))
    case Acquire(c) =>
      Goes(s, c, Locked(s.PhaseOf(c).token, s.PhaseOf(c).force)).(holder := Some(c))
    case Reread(c, expiresSoon, fault) =>
      var observed := s.PhaseOf(c);
      var looked := Traced(s, Looked(c, s.stored, expiresSoon, fault));
      if fault then Returns(looked, c, Error)
      else if s.stored != Some(observed.token) then Returns(looked, c, Current(s))
      else if !observed.force && !expiresSoon then Returns(looked, c, Current(s))
      else
        Goes(Logged(Traced(looked, Called(c, observed.token)), true, Presented(observed.token)), c,
             Calling(observed.token, s.epoch, Sent))
    case Serve(c) =>
      var call := s.PhaseOf(c);
      Goes(Rotated(s, call.token), c,
        call.(wire := Answered(if call.token in s.live then Refreshed(s.next) else Refused)))
    case ServerError(c) =>
      Goes(s, c, s.PhaseOf(c).(wire := Answered(Failed)))
    case Deliver(c) =>
      var call := s.PhaseOf(c);
      Goes(Logged(s, call.wire.reply.Refreshed?, Exchanged(call.token)), c,
        Replied(call.token, call.epoch, call.wire.reply))
    case Lose(c) =>
      var call := s.PhaseOf(c);
      var answered := call.wire.Answered? && call.wire.reply.Refreshed?;
      Goes(Strayed(Logged(s, answered, Stranded(call.token)), call), c, Replied(call.token, call.epoch, Failed))
    case ServeStray(t) =>
      Logged(Rotated(s, t), t in s.live, Stranded(t)).(strays := s.strays - {t})
    case Finish(c, fault) =>
      var call := s.PhaseOf(c);
      (match call.reply
       case Refreshed(n) =>
         if fault then Returns(Logged(s, true, WriteFailed(call.token)), c, Error)
         else if s.stored == Some(call.token) then Returns(Writes(s, Some(n)), c, Tokens(n))
         else Goes(s, c, Rereading)
       case Refused =>
         Returns(if !fault && s.stored == Some(call.token) then Writes(s, None) else s, c, Error)
       case Failed => Returns(s, c, Error))
    case ReadAgain(c) => Returns(s, c, Current(s))
    case IssueLogin => s.(logins := s.logins + {s.next}, live := s.live + {s.next}, next := s.next + 1)
    case StoreLogin(t) => Writes(s, Some(t)).(logins := s.logins - {t}, epoch := s.epoch + 1)
    case Logout => Writes(s, None).(epoch := s.epoch + 1)
    case Expire(t) => s.(live := s.live - {t}, expired := s.expired + {t})
  }

  predicate AllEnabled(s: State, steps: seq<Step>)
    decreases |steps|
  {
    steps != [] ==> Enabled(s, steps[0]) && AllEnabled(Next(s, steps[0]), steps[1..])
  }

  function Run(s: State, steps: seq<Step>): State
    requires AllEnabled(s, steps)
    decreases |steps|
  {
    if steps == [] then s else Run(Next(s, steps[0]), steps[1..])
  }

  // ----- The invariant -----

  /** Between taking and dropping the lock. */
  predicate InCritical(p: Phase) {
    p.Locked? || p.Calling? || p.Replied? || p.Rereading?
  }

  predicate InFlight(p: Phase) {
    p.Calling? || p.Replied?
  }

  /** The answer to the call, on the wire or received. */
  function Answer(p: Phase): Option<Reply> {
    if p.Calling? && p.wire.Answered? then Some(p.wire.reply)
    else if p.Replied? then Some(p.reply)
    else None
  }

  predicate Succeeded(p: Phase) {
    Answer(p).Some? && Answer(p).value.Refreshed?
  }

  predicate WasExchanged(s: State, t: Token) {
    Exchanged(t) in s.log
  }

  predicate WriteOfFailed(s: State, t: Token) {
    WriteFailed(t) in s.log
  }

  /** The server consumed the token and its successor never reached the store. */
  predicate Spoilt(s: State, t: Token) {
    Stranded(t) in s.log || WriteFailed(t) in s.log
  }

  function HolderPhase(s: State): Phase {
    if s.holder.Some? then s.PhaseOf(s.holder.value) else Idle
  }

  /** The lock excludes. */
  ghost predicate Exclusive(s: State) {
    forall c: Caller :: InCritical(s.PhaseOf(c)) <==> s.holder == Some(c)
  }

  /** A token that the client has neither stored nor used. */
  predicate Unused(s: State, t: Token) {
    t < s.next && s.stored != Some(t) && !WasExchanged(s, t) && t !in s.consumed && t !in s.strays
  }

  /** Every token issued is live, consumed or expired, and one of these only. */
  ghost predicate Ledger(s: State) {
    && (forall t: Token :: t < s.next <==> t in s.live || t in s.consumed || t in s.expired)
    && (forall t: Token :: t in s.live ==> t !in s.consumed && t !in s.expired)
    && (forall t: Token :: t in s.consumed ==> t !in s.expired)
  }

  /** Tokens anybody holds were issued; those of pending logins are new. */
  ghost predicate Issued(s: State) {
    && (s.stored.Some? ==> s.stored.value < s.next)
    && (forall t :: t in s.logins ==> Unused(s, t))
    && (forall e :: e in s.log ==> e.token < s.next)
    && (forall t :: t in s.strays ==> t < s.next)
  }

  /** The call in flight carries the stored token until a login or logout replaces it; the token it has been
      given is new; and the server answered as it had to. */
  predicate CallInv(s: State, p: Phase) {
    InFlight(p) ==>
      && p.token < s.next && p.token !in s.logins && p.epoch <= s.epoch
      && (s.stored == Some(p.token) <==> p.epoch == s.epoch)
      && ((WasExchanged(s, p.token) && !WriteOfFailed(s, p.token)) ==> p.Replied? && Succeeded(p))
      && (p.token in s.consumed ==> Spoilt(s, p.token) || Succeeded(p))
      && (Answer(p) == Some(Refused) ==> p.token in s.expired || Spoilt(s, p.token))
      && (Succeeded(p) ==> p.token in s.consumed && (p.Replied? ==> WasExchanged(s, p.token)))
      && (Succeeded(p) ==>
            var n := Answer(p).value.token; Unused(s, n) && n !in s.logins && n != p.token)
  }

  /** The stored token was neither exchanged nor consumed, unless by the call in flight or by a fault of its own. */
  predicate StoredInv(s: State) {
    s.stored.Some? ==>
      var p := HolderPhase(s);
      && ((WasExchanged(s, s.stored.value) && !WriteOfFailed(s, s.stored.value)) ==>
            p.Replied? && Succeeded(p) && p.token == s.stored.value)
      && ((s.stored.value in s.consumed && !Spoilt(s, s.stored.value)) ==> Succeeded(p) && p.token == s.stored.value)
  }

  /** Faults happen to consumed tokens only, and a write fails only after its exchange. */
  predicate Recorded(s: State) {
    && (forall e :: e in s.log && (e.Stranded? || e.WriteFailed?) ==> e.token in s.consumed)
    && (forall e :: e in s.log && e.WriteFailed? ==> WasExchanged(s, e.token))
  }

  /** Every token presented had been exchanged before if and only if a write of its successor had failed. */
  predicate RepeatsExactly(log: seq<Event>) {
    forall j :: 0 <= j < |log| && log[j].Presented? ==>
      (Exchanged(log[j].token) in log[..j] <==> WriteFailed(log[j].token) in log[..j])
  }

  ghost predicate Inv(s: State) {
    && Exclusive(s) && Ledger(s) && Issued(s) && Recorded(s) && CallInv(s, HolderPhase(s)) && StoredInv(s)
    && RepeatsExactly(s.log)
  }

  lemma InitialInv()
    ensures Inv(INITIAL)
  {
  }

  lemma KeepsExclusive(s: State, step: Step)
    requires Enabled(s, step) && Exclusive(s)
    ensures Exclusive(Next(s, step))
  {
    var t := Next(s, step);
    forall c: Caller ensures InCritical(t.PhaseOf(c)) <==> t.holder == Some(c) {
      assert InCritical(s.PhaseOf(c)) <==> s.holder == Some(c);
    }
  }

  lemma RotationKeepsLedger(s: State, t: Token)
    requires Ledger(s)
    ensures Ledger(Rotated(s, t))
  {
  }

  lemma ServerKeepsLedger(s: State, t: Token)
    requires Ledger(s)
    ensures Ledger(s.(logins := s.logins + {s.next}, live := s.live + {s.next}, next := s.next + 1))
    ensures t in s.live ==> Ledger(s.(live := s.live - {t}, expired := s.expired + {t}))
  {
  }

  lemma LedgerIgnoresClient(s: State, t: State)
    requires Ledger(s) && t.live == s.live && t.consumed == s.consumed && t.expired == s.expired && t.next == s.next
    ensures Ledger(t)
  {
  }

  lemma KeepsLedger(s: State, step: Step)
    requires Enabled(s, step) && Ledger(s)
    ensures Ledger(Next(s, step))
  {
    hide Ledger, Rotated;
    match step
    case Serve(c) =>
      RotationKeepsLedger(s, s.PhaseOf(c).token);
      LedgerIgnoresClient(Rotated(s, s.PhaseOf(c).token), Next(s, step));
    case ServeStray(t) =>
      RotationKeepsLedger(s, t);
      LedgerIgnoresClient(Rotated(s, t), Next(s, step));
    case IssueLogin => ServerKeepsLedger(s, 0);
    case Expire(t) => ServerKeepsLedger(s, t);
    case _ => LedgerIgnoresClient(s, Next(s, step));
  }

  /** The caller of a step inside the critical section is the holder. */
  lemma CallerIsHolder(s: State, c: Caller)
    requires Exclusive(s) && InCritical(s.PhaseOf(c))
    ensures s.holder == Some(c) && HolderPhase(s) == s.PhaseOf(c)
  {
  }

  predicate HasHolderCaller(step: Step) {
    step.Reread? || step.Serve? || step.ServerError? || step.Deliver? || step.Lose? || step.Finish? || step.ReadAgain?
  }

  /** Two states that differ at most in where the callers are and what they did with the store. */
  predicate SameButPhases(s: State, t: State) {
    t.(phases := s.phases, holder := s.holder, trace := s.trace) == s
  }

  lemma IssuedIgnoresPhases(s: State, t: State)
    requires Issued(s) && SameButPhases(s, t)
    ensures Issued(t)
  {
    assert forall x :: Unused(s, x) ==> Unused(t, x);
  }

  lemma RotationKeepsIssued(s: State, t: Token)
    requires Issued(s) && t < s.next && t !in s.logins
    ensures Issued(Rotated(s, t))
  {
    assert forall x :: x in s.logins ==> Unused(Rotated(s, t), x);
  }

  lemma LogKeepsIssued(s: State, happens: bool, e: Event)
    requires Issued(s) && (happens ==> e.token < s.next && e.token !in s.logins)
    ensures Issued(Logged(s, happens, e))
  {
    var t := Logged(s, happens, e);
    forall x | x in t.logins ensures Unused(t, x) {
      assert Unused(s, x);
    }
  }

  lemma StoreKeepsIssued(s: State, n: Token)
    requires Issued(s) && n < s.next && n !in s.logins
    ensures Issued(s.(stored := Some(n)))
  {
    assert forall x :: x in s.logins ==> Unused(s, x) && x != n;
  }

  lemma ClearKeepsIssued(s: State)
    requires Issued(s)
    ensures Issued(s.(stored := None)) && Issued(s.(stored := None, epoch := s.epoch + 1))
  {
    assert forall x :: x in s.logins ==> Unused(s, x);
  }

  lemma LossKeepsIssued(s: State, strays: set<Token>, t: Token)
    requires Issued(s) && t < s.next && t !in s.logins && strays <= s.strays + {t}
    ensures Issued(s.(strays := strays)) && Issued(s.(strays := s.strays - {t}))
  {
    assert forall x :: x in s.logins ==> Unused(s, x);
  }

  lemma LoginKeepsIssued(s: State, t: Token, live: set<Token>, expired: set<Token>)
    requires Issued(s) && Ledger(s)
    ensures Issued(s.(logins := s.logins + {s.next}, live := s.live + {s.next}, next := s.next + 1))
    ensures t in s.logins ==> Issued(s.(logins := s.logins - {t}, stored := Some(t), epoch := s.epoch + 1))
    ensures Issued(s.(live := live, expired := expired))
  {
    assert forall x :: x in s.logins ==> Unused(s, x);
  }

  lemma KeepsIssued(s: State, step: Step)
    requires Enabled(s, step) && Inv(s)
    ensures Issued(Next(s, step))
  {
    hide RepeatsExactly, StoredInv, Exclusive, Issued, Ledger, Unused, WasExchanged;
    var t := Next(s, step);
    if HasHolderCaller(step) {
      CallerIsHolder(s, step.caller);
    }
    match step
    case Observe(_, _, _) => IssuedIgnoresPhases(s, t);
    case Acquire(_) => IssuedIgnoresPhases(s, t);
    case Reread(c, _, _) =>
      if t.log == s.log {
        IssuedIgnoresPhases(s, t);
      } else {
        StoredIsIssued(s);
        LogKeepsIssued(s, true, Presented(s.stored.value));
        IssuedIgnoresPhases(Logged(s, true, Presented(s.stored.value)), t);
      }
    case Serve(c) =>
      RotationKeepsIssued(s, s.PhaseOf(c).token);
      IssuedIgnoresPhases(Rotated(s, s.PhaseOf(c).token), t);
    case ServerError(_) => IssuedIgnoresPhases(s, t);
    case Deliver(c) =>
      var call := s.PhaseOf(c);
      LogKeepsIssued(s, call.wire.reply.Refreshed?, Exchanged(call.token));
      IssuedIgnoresPhases(Logged(s, call.wire.reply.Refreshed?, Exchanged(call.token)), t);
    case Lose(c) =>
      var call := s.PhaseOf(c);
      var answered := call.wire.Answered? && call.wire.reply.Refreshed?;
      LogKeepsIssued(s, answered, Stranded(call.token));
      var logged := Logged(s, answered, Stranded(call.token));
      LossKeepsIssued(logged, t.strays, call.token);
      IssuedIgnoresPhases(Strayed(logged, call), t);
    case ServeStray(x) =>
      StoredIsIssued(s);
      RotationKeepsIssued(s, x);
      LogKeepsIssued(Rotated(s, x), x in s.live, Stranded(x));
      LossKeepsIssued(Logged(Rotated(s, x), x in s.live, Stranded(x)), {}, x);
    case Finish(c, fault) =>
      FinishKeepsIssued(s, c, fault);
    case ReadAgain(_) => IssuedIgnoresPhases(s, t);
    case IssueLogin => LoginKeepsIssued(s, 0, {}, {});
    case StoreLogin(x) =>
      LoginKeepsIssued(s, x, {}, {});
      IssuedIgnoresPhases(s.(logins := s.logins - {x}, stored := Some(x), epoch := s.epoch + 1), t);
    case Logout =>
      ClearKeepsIssued(s);
      IssuedIgnoresPhases(s.(stored := None, epoch := s.epoch + 1), t);
    case Expire(_) => LoginKeepsIssued(s, 0, t.live, t.expired);
  }

  lemma StoredIsIssued(s: State)
    requires Issued(s)
    ensures s.stored.Some? ==> s.stored.value < s.next && s.stored.value !in s.logins
    ensures forall x :: x in s.strays ==> x < s.next && x !in s.logins
    ensures forall x :: x in s.logins ==> Unused(s, x)
  {
  }

  lemma FinishKeepsIssued(s: State, c: Caller, fault: bool)
    requires Inv(s) && s.PhaseOf(c).Replied? && HolderPhase(s) == s.PhaseOf(c)
    ensures Issued(Next(s, Finish(c, fault)))
  {
    hide RepeatsExactly, StoredInv, Exclusive, Issued, Ledger, WasExchanged;
    var t, call := Next(s, Finish(c, fault)), s.PhaseOf(c);
    ClearKeepsIssued(s);
    if t.log != s.log {
      LogKeepsIssued(s, true, WriteFailed(call.token));
      IssuedIgnoresPhases(Logged(s, true, WriteFailed(call.token)), t);
    } else if t.stored == s.stored {
      IssuedIgnoresPhases(s, t);
    } else if t.stored == None {
      IssuedIgnoresPhases(s.(stored := None), t);
    } else {
      StoreKeepsIssued(s, t.stored.value);
      IssuedIgnoresPhases(s.(stored := t.stored), t);
    }
  }

  // The call in flight, step by step.

  lemma CallIgnoresOthers(s: State, t: State, p: Phase)
    requires CallInv(s, p) && SameButPhases(s, t)
    ensures CallInv(t, p)
  {
  }

  lemma ServeKeepsCall(s: State, call: Phase)
    requires Inv(s) && call.Calling? && call.wire.Sent? && CallInv(s, call)
    ensures CallInv(Rotated(s, call.token),
      call.(wire := Answered(if call.token in s.live then Refreshed(s.next) else Refused)))
  {
    hide RepeatsExactly, StoredInv, Exclusive;
    assert s.next !in s.logins && s.next !in s.strays && s.next !in s.consumed && !WasExchanged(s, s.next);
    assert s.stored != Some(s.next);
  }

  lemma DeliverKeepsCall(s: State, call: Phase)
    requires Inv(s) && call.Calling? && call.wire.Answered? && CallInv(s, call)
    ensures CallInv(Logged(s, call.wire.reply.Refreshed?, Exchanged(call.token)),
                    Replied(call.token, call.epoch, call.wire.reply))
  {
    hide RepeatsExactly, StoredInv, Exclusive, Ledger, Issued, Recorded;
  }

  lemma LoseKeepsCall(s: State, call: Phase)
    requires Inv(s) && call.Calling? && CallInv(s, call)
    ensures var answered := call.wire.Answered? && call.wire.reply.Refreshed?;
            CallInv(Strayed(Logged(s, answered, Stranded(call.token)), call), Replied(call.token, call.epoch, Failed))
    ensures call.wire.Sent? ==> CallInv(s, call.(wire := Answered(Failed)))
  {
    hide RepeatsExactly, StoredInv, Exclusive, Ledger, Issued, Recorded;
  }

  lemma StrayKeepsCall(s: State, x: Token, p: Phase)
    requires Inv(s) && x in s.strays && CallInv(s, p)
    ensures CallInv(Logged(Rotated(s, x), x in s.live, Stranded(x)).(strays := s.strays - {x}), p)
  {
    hide RepeatsExactly, StoredInv, Exclusive, Recorded;
  }

  lemma NewCall(s: State)
    requires Inv(s) && s.stored.Some? && HolderPhase(s).Locked?
    ensures CallInv(Logged(s, true, Presented(s.stored.value)), Calling(s.stored.value, s.epoch, Sent))
  {
    hide RepeatsExactly, Exclusive, Ledger, Recorded;
  }

  lemma LoginKeepsCall(s: State, p: Phase, t: Token)
    requires Inv(s) && CallInv(s, p)
    ensures CallInv(s.(logins := s.logins + {s.next}, live := s.live + {s.next}, next := s.next + 1), p)
    ensures t in s.logins ==> CallInv(s.(logins := s.logins - {t}, stored := Some(t), epoch := s.epoch + 1), p)
    ensures CallInv(s.(stored := None, epoch := s.epoch + 1), p)
    ensures CallInv(s.(live := s.live - {t}, expired := s.expired + {t}), p)
  {
    hide RepeatsExactly, StoredInv, Exclusive;
  }

  lemma KeepsCallInv(s: State, step: Step)
    requires Enabled(s, step) && Inv(s)
    ensures CallInv(Next(s, step), HolderPhase(Next(s, step)))
  {
    hide RepeatsExactly, StoredInv, Issued, Ledger, Rotated, CallInv;
    var t, p := Next(s, step), HolderPhase(s);
    if HasHolderCaller(step) {
      CallerIsHolder(s, step.caller);
    }
    NoCall(t, HolderPhase(t));
    match step
    case Observe(_, _, _) => CallIgnoresOthers(s, t, p);
    case Acquire(_) =>
    case Reread(_, _, _) =>
      if t.log != s.log {
        NewCall(s);
        CallIgnoresOthers(Logged(s, true, Presented(s.stored.value)), t, HolderPhase(t));
      }
    case Serve(_) =>
      ServeKeepsCall(s, p);
      RotationKeepsPhases(s, p.token);
      CallIgnoresOthers(Rotated(s, p.token), t, HolderPhase(t));
    case ServerError(_) =>
      LoseKeepsCall(s, p);
      CallIgnoresOthers(s, t, HolderPhase(t));
    case Deliver(_) =>
      DeliverKeepsCall(s, p);
      CallIgnoresOthers(Logged(s, p.wire.reply.Refreshed?, Exchanged(p.token)), t, HolderPhase(t));
    case Lose(_) =>
      LoseKeepsCall(s, p);
      var answered := p.wire.Answered? && p.wire.reply.Refreshed?;
      CallIgnoresOthers(Strayed(Logged(s, answered, Stranded(p.token)), p), t, HolderPhase(t));
    case ServeStray(x) =>
      StrayKeepsCall(s, x, p);
      RotationKeepsPhases(s, x);
    case Finish(_, _) =>
    case ReadAgain(_) =>
    case IssueLogin => LoginKeepsCall(s, p, 0);
    case StoreLogin(x) =>
      LoginKeepsCall(s, p, x);
      CallIgnoresOthers(s.(logins := s.logins - {x}, stored := Some(x), epoch := s.epoch + 1), t, p);
    case Logout =>
      LoginKeepsCall(s, p, 0);
      CallIgnoresOthers(s.(stored := None, epoch := s.epoch + 1), t, p);
    case Expire(x) => LoginKeepsCall(s, p, x);
  }

  lemma RotationKeepsPhases(s: State, t: Token)
    ensures Rotated(s, t).phases == s.phases && Rotated(s, t).holder == s.holder && Rotated(s, t).strays == s.strays
  {
  }

  lemma NoCall(s: State, p: Phase)
    ensures !InFlight(p) ==> CallInv(s, p)
  {
  }

  /** Neither exchanged nor consumed, but for faults of its own. */
  predicate Clean(s: State, x: Token) {
    (WasExchanged(s, x) ==> WriteOfFailed(s, x)) && (x in s.consumed ==> Spoilt(s, x))
  }

  predicate Carries(p: Phase, x: Token) {
    InFlight(p) && p.token == x
  }

  lemma StoredInvSplits(s: State)
    ensures StoredInv(s) && s.stored.Some? ==> Clean(s, s.stored.value) || Carries(HolderPhase(s), s.stored.value)
    ensures s.stored.Some? && Clean(s, s.stored.value) ==> StoredInv(s)
    ensures s.stored.Some? && Carries(HolderPhase(s), s.stored.value) && CallInv(s, HolderPhase(s)) ==> StoredInv(s)
    ensures s.stored.None? ==> StoredInv(s)
  {
  }

  /** A stored token that no call carries is touched by no step but a stray request's, which spoils it. */
  lemma CleanStays(s: State, step: Step, x: Token)
    requires Enabled(s, step) && Clean(s, x) && Exclusive(s)
    requires !Carries(HolderPhase(s), x)
    ensures Clean(Next(s, step), x)
  {
    if HasHolderCaller(step) {
      CallerIsHolder(s, step.caller);
    }
  }

  /** A returning call leaves a clean token: its own, spoilt or never consumed, or the successor. */
  lemma CleanAfterFinish(s: State, c: Caller, fault: bool)
    requires Enabled(s, Finish(c, fault)) && Inv(s)
    ensures var t := Next(s, Finish(c, fault)); t.stored.Some? ==> Clean(t, t.stored.value)
  {
    hide RepeatsExactly, Ledger, Issued, Recorded;
    CallerIsHolder(s, c);
  }

  lemma CleanLogin(s: State, x: Token)
    requires Issued(s) && x in s.logins
    ensures Clean(s, x) && Clean(Next(s, StoreLogin(x)), x)
  {
    assert Unused(s, x);
  }

  lemma OtherStepsKeepStored(s: State, step: Step)
    requires Enabled(s, step) && !step.Finish? && !step.StoreLogin? && !step.Logout?
    ensures Next(s, step).stored == s.stored
  {
  }

  /** A call that goes on still carries its token. */
  lemma CallGoesOn(s: State, step: Step)
    requires Enabled(s, step) && Exclusive(s) && !step.Finish?
    requires InFlight(HolderPhase(s))
    ensures Carries(HolderPhase(Next(s, step)), HolderPhase(s).token)
  {
    if HasHolderCaller(step) {
      CallerIsHolder(s, step.caller);
    } else {
      CallerIsHolder(s, s.holder.value);
    }
  }

  lemma KeepsStoredInv(s: State, step: Step)
    requires Enabled(s, step) && Inv(s)
    ensures StoredInv(Next(s, step))
  {
    hide Next, Exclusive, Ledger, Issued, Recorded, CallInv, StoredInv, RepeatsExactly, Clean, Carries, HolderPhase;
    StoredInvSplits(s);
    StoredInvSplits(Next(s, step));
    match step
    case Finish(c, fault) => CleanAfterFinish(s, c, fault);
    case StoreLogin(x) =>
      CleanLogin(s, x);
      StoresLogin(s, x);
    case Logout => StoresNothing(s);
    case _ =>
      OtherStepsKeepStored(s, step);
      KeepsCallInv(s, step);
      if s.stored.Some? {
        if Carries(HolderPhase(s), s.stored.value) {
          CarriedGoesOn(s, step, s.stored.value);
        } else {
          CleanStays(s, step, s.stored.value);
        }
      }
  }

  lemma CarriedGoesOn(s: State, step: Step, x: Token)
    requires Enabled(s, step) && Exclusive(s) && !step.Finish? && Carries(HolderPhase(s), x)
    ensures Carries(HolderPhase(Next(s, step)), x)
  {
    hide Next, Exclusive, HolderPhase;
    CallGoesOn(s, step);
  }

  lemma StoresLogin(s: State, x: Token)
    requires x in s.logins
    ensures Next(s, StoreLogin(x)).stored == Some(x)
  {
  }

  lemma StoresNothing(s: State)
    ensures Next(s, Logout).stored == None
  {
  }

  /** The log grows by at most one event, which these are the conditions of. */
  lemma LogStep(s: State, step: Step) returns (happens: bool, e: Event)
    requires Enabled(s, step) && Inv(s)
    ensures Next(s, step).log == Logged(s, happens, e).log && s.consumed <= Next(s, step).consumed
    ensures happens && e.Presented? ==> s.stored == Some(e.token) && HolderPhase(s).Locked?
    ensures happens && (e.Stranded? || e.WriteFailed?) ==> e.token in Next(s, step).consumed
    ensures happens && e.WriteFailed? ==> WasExchanged(s, e.token)
  {
    hide RepeatsExactly, StoredInv, Ledger, Issued, Recorded, Unused;
    if HasHolderCaller(step) {
      CallerIsHolder(s, step.caller);
    }
    happens := Next(s, step).log != s.log;
    e := if happens then Next(s, step).log[|s.log|] else Presented(0);
  }

  lemma KeepsRecorded(s: State, t: State, happens: bool, e: Event)
    requires Recorded(s) && t.log == Logged(s, happens, e).log && s.consumed <= t.consumed
    requires happens && (e.Stranded? || e.WriteFailed?) ==> e.token in t.consumed
    requires happens && e.WriteFailed? ==> WasExchanged(s, e.token)
    ensures Recorded(t)
  {
  }

  /** When the holder is about to present the stored token, its exchange and its failed write go together. */
  lemma KeepsRepeatsExactly(s: State, happens: bool, e: Event)
    requires RepeatsExactly(s.log) && StoredInv(s) && Recorded(s)
    requires happens && e.Presented? ==> s.stored == Some(e.token) && HolderPhase(s).Locked?
    ensures RepeatsExactly(Logged(s, happens, e).log)
  {
    var log := Logged(s, happens, e).log;
    forall j | 0 <= j < |log| && log[j].Presented?
      ensures Exchanged(log[j].token) in log[..j] <==> WriteFailed(log[j].token) in log[..j]
    {
      if j < |s.log| {
        assert log[..j] == s.log[..j];
      } else {
        assert log[..j] == s.log;
      }
    }
  }

  lemma NextKeepsInv(s: State, step: Step)
    requires Enabled(s, step) && Inv(s)
    ensures Inv(Next(s, step))
  {
    hide Next, Enabled, Exclusive, Ledger, Issued, Recorded, CallInv, StoredInv, RepeatsExactly;
    KeepsExclusive(s, step);
    KeepsLedger(s, step);
    KeepsIssued(s, step);
    KeepsCallInv(s, step);
    KeepsStoredInv(s, step);
    var happens, e := LogStep(s, step);
    KeepsRecorded(s, Next(s, step), happens, e);
    KeepsRepeatsExactly(s, happens, e);
  }

  lemma {:induction false} RunKeepsInv(s: State, steps: seq<Step>)
    requires Inv(s) && AllEnabled(s, steps)
    ensures Inv(Run(s, steps))
    decreases |steps|
  {
    hide Next, Enabled, Inv;
    if steps != [] {
      NextKeepsInv(s, steps[0]);
      RunKeepsInv(Next(s, steps[0]), steps[1..]);
    }
  }

  // ----- Results, for every run -----

  /** At most one refresh call is in flight. */
  lemma AtMostOneCall(steps: seq<Step>, a: Caller, b: Caller)
    requires AllEnabled(INITIAL, steps)
    requires InFlight(Run(INITIAL, steps).PhaseOf(a)) && InFlight(Run(INITIAL, steps).PhaseOf(b))
    ensures a == b
  {
    hide Next, Enabled, AllEnabled, Run, Ledger, Issued, CallInv, StoredInv;
    InitialInv();
    RunKeepsInv(INITIAL, steps);
    CallerIsHolder(Run(INITIAL, steps), a);
    CallerIsHolder(Run(INITIAL, steps), b);
  }

  /** A token is presented after its exchange exactly when it is presented after the storage failed to take its
      successor; in particular a token whose successor was stored is never presented again. */
  lemma PresentedAgainExactly(steps: seq<Step>)
    requires AllEnabled(INITIAL, steps)
    ensures RepeatsExactly(Run(INITIAL, steps).log)
  {
    hide Next, Enabled, AllEnabled, Run, RepeatsExactly, Exclusive, Ledger, Issued, Recorded, CallInv, StoredInv;
    InitialInv();
    RunKeepsInv(INITIAL, steps);
  }

  predicate ByUser(step: Step) {
    step.StoreLogin? || step.Logout?
  }

  /** Only a refresh that read the token after the last login or logout changes what they left: it replaces or
      clears the very token it presented. */
  lemma LoginsAndLogoutsStand(steps: seq<Step>, step: Step)
    requires AllEnabled(INITIAL, steps) && Enabled(Run(INITIAL, steps), step) && !ByUser(step)
    ensures var s := Run(INITIAL, steps);
            Next(s, step).stored != s.stored ==>
              && step.Finish? && s.PhaseOf(step.caller).epoch == s.epoch
              && s.stored == Some(s.PhaseOf(step.caller).token)
              && (match s.PhaseOf(step.caller).reply
                  case Refreshed(n) => Next(s, step).stored == Some(n)
                  case Refused => Next(s, step).stored == None
                  case Failed => false)
  {
    hide AllEnabled, Run, RepeatsExactly, Ledger, Issued, StoredInv;
    InitialInv();
    RunKeepsInv(INITIAL, steps);
    if HasHolderCaller(step) {
      CallerIsHolder(Run(INITIAL, steps), step.caller);
    }
  }

  /** The stored token is consumed exactly when it is spoilt or its successor is on its way to the store; so with
      no call in flight, exactly when it is spoilt. Otherwise it is live, or it has expired. */
  lemma StoredIsConsumedExactly(steps: seq<Step>)
    requires AllEnabled(INITIAL, steps) && Run(INITIAL, steps).stored.Some?
    ensures var s := Run(INITIAL, steps);
            var t, p := s.stored.value, HolderPhase(s);
            && (t in s.consumed <==> Spoilt(s, t) || (Succeeded(p) && p.token == t))
            && ((forall c: Caller :: !InFlight(s.PhaseOf(c))) ==> (t in s.consumed <==> Spoilt(s, t)))
            && (t in s.consumed || t in s.live || t in s.expired)
  {
    hide Next, Enabled, AllEnabled, Run, RepeatsExactly, Exclusive;
    InitialInv();
    RunKeepsInv(INITIAL, steps);
    var s := Run(INITIAL, steps);
    NotInFlight(s);
  }

  lemma NotInFlight(s: State)
    ensures (forall c: Caller :: !InFlight(s.PhaseOf(c))) ==> !InFlight(HolderPhase(s))
  {
    if s.holder.Some? {
      assert HolderPhase(s) == s.PhaseOf(s.holder.value);
    }
  }

  /** The server refuses a call exactly when its token has expired or is spoilt. */
  lemma RefusedExactly(steps: seq<Step>, c: Caller)
    requires AllEnabled(INITIAL, steps) && Enabled(Run(INITIAL, steps), Serve(c))
    ensures var s := Run(INITIAL, steps);
            var t := s.PhaseOf(c).token;
            Next(s, Serve(c)).PhaseOf(c).wire == Answered(Refused) <==> t in s.expired || Spoilt(s, t)
  {
    hide AllEnabled, Run, RepeatsExactly, Issued, StoredInv;
    InitialInv();
    RunKeepsInv(INITIAL, steps);
    CallerIsHolder(Run(INITIAL, steps), c);
  }

  /** A refresh clears the stored token exactly when its call was refused and the storage obeys, and then the
      token has expired or is spoilt. */
  lemma ClearedExactly(steps: seq<Step>, c: Caller, fault: bool)
    requires AllEnabled(INITIAL, steps) && Enabled(Run(INITIAL, steps), Finish(c, fault))
    requires Run(INITIAL, steps).stored.Some?
    ensures var s := Run(INITIAL, steps);
            var t, call := s.stored.value, s.PhaseOf(c);
            && (Next(s, Finish(c, fault)).stored == None <==> call.reply == Refused && !fault && call.epoch == s.epoch)
            && (Next(s, Finish(c, fault)).stored == None ==> call.token == t && (t in s.expired || Spoilt(s, t)))
  {
    hide AllEnabled, Run, RepeatsExactly, Ledger, Issued, StoredInv;
    InitialInv();
    RunKeepsInv(INITIAL, steps);
    CallerIsHolder(Run(INITIAL, steps), c);
  }

  // ----- Both faults happen -----

  predicate Leads(s: State, steps: seq<Step>, t: State) {
    AllEnabled(s, steps) && Run(s, steps) == t
  }

  lemma {:induction false} LeadsOn(s: State, a: seq<Step>, t: State, b: seq<Step>, u: State)
    requires Leads(s, a, t) && Leads(t, b, u)
    ensures Leads(s, a + b, u)
    decreases |a|
  {
    hide Next, Enabled;
    if a == [] {
      assert a + b == b;
    } else {
      assert (a + b)[1..] == a[1..] + b;
      LeadsOn(Next(s, a[0]), a[1..], t, b, u);
    }
  }

  lemma LeadsByOne(s: State, step: Step)
    requires Enabled(s, step)
    ensures Leads(s, [step], Next(s, step))
  {
    hide Next;
    assert [step][1..] == [];
    assert AllEnabled(Next(s, step), []);
    assert Run(Next(s, step), []) == Next(s, step);
  }

  lemma LeadsByTwo(s: State, a: Step, b: Step)
    requires Enabled(s, a) && Enabled(Next(s, a), b)
    ensures Leads(s, [a, b], Next(Next(s, a), b))
  {
    hide Next, Enabled, Leads;
    LeadsByOne(s, a);
    LeadsByOne(Next(s, a), b);
    LeadsOn(s, [a], Next(s, a), [b], Next(Next(s, a), b));
    assert [a] + [b] == [a, b];
  }

  lemma LogsIn() returns (t: State)
    ensures Leads(INITIAL, [IssueLogin, StoreLogin(0)], t)
    ensures t.stored == Some(0) && t.holder == None && t.PhaseOf(0) == Idle && 0 in t.live && t.log == []
  {
    hide Leads;
    LeadsByTwo(INITIAL, IssueLogin, StoreLogin(0));
    t := Next(Next(INITIAL, IssueLogin), StoreLogin(0));
  }

  lemma TakesLock(s: State, x: Token) returns (t: State)
    requires s.stored == Some(x) && s.holder == None && s.PhaseOf(0) == Idle
    ensures Leads(s, [Observe(0, true, true), Acquire(0)], t)
    ensures t == s.(phases := t.phases, holder := Some(0), trace := t.trace) && t.PhaseOf(0) == Locked(x, true)
  {
    hide Leads;
    LeadsByTwo(s, Observe(0, true, true), Acquire(0));
    t := Next(Next(s, Observe(0, true, true)), Acquire(0));
  }

  lemma Presents(s: State, x: Token) returns (t: State)
    requires s.stored == Some(x) && s.PhaseOf(0) == Locked(x, true)
    ensures Leads(s, [Reread(0, true, false)], t)
    ensures t == s.(phases := t.phases, log := s.log + [Presented(x)], trace := t.trace)
    ensures t.PhaseOf(0) == Calling(x, s.epoch, Sent)
  {
    hide Leads;
    LeadsByOne(s, Reread(0, true, false));
    t := Next(s, Reread(0, true, false));
  }

  lemma IsServed(s: State, x: Token) returns (t: State)
    requires x in s.live && s.PhaseOf(0) == Calling(x, s.epoch, Sent)
    ensures Leads(s, [Serve(0)], t)
    ensures t.stored == s.stored && t.holder == s.holder && t.log == s.log && x in t.consumed
    ensures t.PhaseOf(0) == Calling(x, s.epoch, Answered(Refreshed(s.next)))
  {
    hide Leads;
    LeadsByOne(s, Serve(0));
    t := Next(s, Serve(0));
  }

  predicate IsAnswered(p: Phase, x: Token, n: Token) {
    p.Calling? && p.token == x && p.wire == Answered(Refreshed(n))
  }

  /** A first login, and one call that the server answers. */
  lemma CallIsServed() returns (steps: seq<Step>, t: State, n: Token)
    ensures Leads(INITIAL, steps, t)
    ensures t.stored == Some(0) && t.holder == Some(0) && t.log == [Presented(0)] && 0 in t.consumed
    ensures IsAnswered(t.PhaseOf(0), 0, n)
  {
    hide Leads, Next, Enabled;
    var loggedIn := LogsIn();
    var locked := TakesLock(loggedIn, 0);
    var sent := Presents(locked, 0);
    t := IsServed(sent, 0);
    n := sent.next;
    var login, lock := [IssueLogin, StoreLogin(0)], [Observe(0, true, true), Acquire(0)];
    LeadsOn(INITIAL, login, loggedIn, lock, locked);
    LeadsOn(INITIAL, login + lock, locked, [Reread(0, true, false)], sent);
    LeadsOn(INITIAL, login + lock + [Reread(0, true, false)], sent, [Serve(0)], t);
    steps := login + lock + [Reread(0, true, false)] + [Serve(0)];
  }

  lemma LosesReply(s: State, x: Token, n: Token) returns (t: State)
    requires s.holder == Some(0) && IsAnswered(s.PhaseOf(0), x, n)
    ensures Leads(s, [Lose(0), Finish(0, false)], t)
    ensures t == s.(phases := t.phases, holder := None, log := s.log + [Stranded(x)], trace := t.trace)
  {
    hide Leads;
    LeadsByTwo(s, Lose(0), Finish(0, false));
    t := Next(Next(s, Lose(0)), Finish(0, false));
  }

  lemma FailsToStore(s: State, x: Token, n: Token) returns (t: State)
    requires s.holder == Some(0) && IsAnswered(s.PhaseOf(0), x, n)
    ensures Leads(s, [Deliver(0), Finish(0, true)], t)
    ensures t == s.(phases := t.phases, holder := None, log := s.log + [Exchanged(x)] + [WriteFailed(x)],
                    trace := t.trace)
    ensures t.PhaseOf(0) == Idle
  {
    hide Leads;
    LeadsByTwo(s, Deliver(0), Finish(0, true));
    t := Next(Next(s, Deliver(0)), Finish(0, true));
  }

  /** A run without a storage fault in which a lost reply leaves a consumed token stored, no call in flight. */
  lemma LostReplyStrandsTheStore() returns (steps: seq<Step>)
    ensures AllEnabled(INITIAL, steps)
    ensures var s := Run(INITIAL, steps);
            s.holder == None && s.stored == Some(0) && 0 in s.consumed && s.log == [Presented(0), Stranded(0)]
  {
    hide Next, Enabled, AllEnabled, Run;
    var before, served, n := CallIsServed();
    var t := LosesReply(served, 0, n);
    LeadsOn(INITIAL, before, served, [Lose(0), Finish(0, false)], t);
    steps := before + [Lose(0), Finish(0, false)];
  }

  /** A run in which a failed write lets an exchanged token be presented again. */
  lemma FailedWriteRepeatsToken() returns (steps: seq<Step>)
    ensures AllEnabled(INITIAL, steps)
    ensures Run(INITIAL, steps).log == [Presented(0), Exchanged(0), WriteFailed(0), Presented(0)]
  {
    hide Next, Enabled, AllEnabled, Run;
    var before, served, n := CallIsServed();
    var failed := FailsToStore(served, 0, n);
    var locked := TakesLock(failed, 0);
    var t := Presents(locked, 0);
    var fail, lock := [Deliver(0), Finish(0, true)], [Observe(0, true, true), Acquire(0)];
    LeadsOn(INITIAL, before, served, fail, failed);
    LeadsOn(INITIAL, before + fail, failed, lock, locked);
    LeadsOn(INITIAL, before + fail + lock, locked, [Reread(0, true, false)], t);
    steps := before + fail + lock + [Reread(0, true, false)];
  }
}
