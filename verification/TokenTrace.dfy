/** The single flight, told by the accesses of every run: who saw, looked, called, returned, and what was stored. */
module TokenTrace {
  import opened Wrappers
  import opened TokenRefresh

  /** The token that is stored after these accesses. */
  function StoreOf(trace: seq<Access>): Option<Token> {
    if trace == [] then None
    else if trace[|trace| - 1].Wrote? then trace[|trace| - 1].stored
    else StoreOf(trace[..|trace| - 1])
  }

  /** The last access by a caller. */
  function LastBy(trace: seq<Access>, c: Caller): Option<Access> {
    if trace == [] then None
    else if !trace[|trace| - 1].Wrote? && trace[|trace| - 1].caller == c then Some(trace[|trace| - 1])
    else LastBy(trace[..|trace| - 1], c)
  }

  /** What a caller last saw before it went for the lock. */
  function LastSaw(trace: seq<Access>, c: Caller): Option<Access> {
    if trace == [] then None
    else if trace[|trace| - 1].Saw? && trace[|trace| - 1].caller == c then Some(trace[|trace| - 1])
    else LastSaw(trace[..|trace| - 1], c)
  }

  function OutcomeOf(stored: Option<Token>): Outcome {
    if stored.Some? then Tokens(stored.value) else NoTokens
  }

  /** A caller that wants a refresh of a token it has. */
  predicate Wants(a: Access) {
    a.Saw? && a.seen.Some? && (a.force || a.expiresSoon)
  }

  /** Under the lock, the token is still the one that was seen, and is still wanted refreshed. */
  predicate StillDue(saw: Access, look: Access) {
    && Wants(saw) && look.Looked? && !look.fault && look.found == saw.seen
    && (saw.force || look.expiresSoon)
  }

  /** The protocol of one caller. It sees what is stored, and returns it unless it wants a refresh; else it looks again
      under the lock. It calls the server with the token it saw exactly when that is still stored and due;
      otherwise it returns what it found. After a call it returns an error or what is stored then. */
  predicate Follows(last: Option<Access>, saw: Option<Access>, a: Access, stored: Option<Token>) {
    match a
    case Saw(_, seen, _, _) => (last.None? || last.value.Returned?) && seen == stored
    case Looked(_, found, _, _) => last.Some? && last == saw && Wants(last.value) && found == stored
    case Called(_, token) =>
      last.Some? && saw.Some? && StillDue(saw.value, last.value) && saw.value.seen == Some(token) == stored
    case Returned(_, outcome) =>
      last.Some? && saw.Some? &&
      (match last.value
       case Saw(_, seen, _, _) => !Wants(last.value) && outcome == OutcomeOf(seen)
       case Looked(_, found, _, fault) =>
         !StillDue(saw.value, last.value) && outcome == if fault then Error else OutcomeOf(found)
       case Called(_, _) => outcome == Error || outcome == OutcomeOf(stored)
       case _ => false)
    case Wrote(_) => true
  }

  predicate FollowsAt(trace: seq<Access>, k: nat)
    requires k < |trace|
  {
    var before := trace[..k];
    || trace[k].Wrote?
    || Follows(LastBy(before, trace[k].caller), LastSaw(before, trace[k].caller), trace[k], StoreOf(before))
  }

  predicate AllFollow(trace: seq<Access>) {
    forall k :: 0 <= k < |trace| ==> FollowsAt(trace, k)
  }

  lemma Appends(trace: seq<Access>, a: Access)
    requires AllFollow(trace)
    requires a.Wrote? || Follows(LastBy(trace, a.caller), LastSaw(trace, a.caller), a, StoreOf(trace))
    ensures AllFollow(trace + [a])
    ensures StoreOf(trace + [a]) == if a.Wrote? then a.stored else StoreOf(trace)
    ensures forall c: Caller ::
      LastBy(trace + [a], c) == if !a.Wrote? && a.caller == c then Some(a) else LastBy(trace, c)
    ensures forall c: Caller ::
      LastSaw(trace + [a], c) == if a.Saw? && a.caller == c then Some(a) else LastSaw(trace, c)
  {
    hide Follows;
    var all := trace + [a];
    assert all[..|all| - 1] == trace;
    forall k | 0 <= k < |all| ensures FollowsAt(all, k) {
      if k < |trace| {
        assert all[..k] == trace[..k];
        assert FollowsAt(trace, k);
      }
    }
  }

  /** Where a caller is, and the last it did. */
  predicate Agrees(s: State, c: Caller) {
    var last, saw := LastBy(s.trace, c), LastSaw(s.trace, c);
    match s.PhaseOf(c)
    case Idle => last.None? || last.value.Returned?
    case Observed(token, force) =>
      last.Some? && last == saw && Wants(last.value) && last.value.seen == Some(token) && last.value.force == force
    case Locked(token, force) =>
      last.Some? && last == saw && Wants(last.value) && last.value.seen == Some(token) && last.value.force == force
    case Calling(token, _, _) => last == Some(Called(c, token)) && saw.Some?
    case Replied(token, _, _) => last == Some(Called(c, token)) && saw.Some?
    case Rereading => last.Some? && last.value.Called? && saw.Some?
  }

  ghost predicate TraceInv(s: State) {
    AllFollow(s.trace) && StoreOf(s.trace) == s.stored && forall c: Caller :: Agrees(s, c)
  }

  /** One access by a caller that changes nothing but its phase. */
  lemma OneAccess(s: State, t: State, a: Access)
    requires TraceInv(s) && !a.Wrote? && t.trace == s.trace + [a] && t.stored == s.stored
    requires Follows(LastBy(s.trace, a.caller), LastSaw(s.trace, a.caller), a, s.stored)
    requires forall c: Caller :: c != a.caller ==> t.PhaseOf(c) == s.PhaseOf(c)
    requires Agrees(t, a.caller)
    ensures TraceInv(t)
  {
    hide Follows, AllFollow, LastBy, LastSaw, StoreOf;
    Appends(s.trace, a);
    forall c: Caller ensures Agrees(t, c) {
      assert Agrees(s, c);
    }
  }

  lemma NoAccess(s: State, t: State)
    requires TraceInv(s) && t.trace == s.trace && t.stored == s.stored
    requires forall c: Caller :: Agrees(s, c) ==> Agrees(t, c)
    ensures TraceInv(t)
  {
    hide AllFollow, Agrees, StoreOf;
  }

  lemma OneWrite(s: State, t: State, stored: Option<Token>)
    requires TraceInv(s) && t.trace == s.trace + [Wrote(stored)] && t.stored == stored
    requires forall c: Caller :: t.PhaseOf(c) == s.PhaseOf(c)
    ensures TraceInv(t)
  {
    hide Follows, AllFollow, LastBy, LastSaw, StoreOf;
    Appends(s.trace, Wrote(stored));
    forall c: Caller ensures Agrees(t, c) {
      assert Agrees(s, c);
    }
  }

  /** Two accesses in one step: by the same caller, or a write and the return of the writer. */
  lemma TwoAccesses(s: State, t: State, a: Access, b: Access)
    requires TraceInv(s) && !b.Wrote? && t.trace == s.trace + [a] + [b]
    requires a.Wrote? ||
      (a.caller == b.caller && Follows(LastBy(s.trace, a.caller), LastSaw(s.trace, a.caller), a, s.stored))
    requires var mid := s.trace + [a]; Follows(LastBy(mid, b.caller), LastSaw(mid, b.caller), b, t.stored)
    requires t.stored == if a.Wrote? then a.stored else s.stored
    requires forall c: Caller :: c != b.caller ==> t.PhaseOf(c) == s.PhaseOf(c)
    requires Agrees(t, b.caller)
    ensures TraceInv(t)
  {
    hide Follows, AllFollow, LastBy, LastSaw, StoreOf;
    Appends(s.trace, a);
    Appends(s.trace + [a], b);
    forall c: Caller ensures Agrees(t, c) {
      assert Agrees(s, c);
    }
  }

  lemma LastOfTwo(trace: seq<Access>, a: Access, b: Access, c: Caller)
    ensures LastBy(trace + [a], c) == if !a.Wrote? && a.caller == c then Some(a) else LastBy(trace, c)
    ensures LastSaw(trace + [a], c) == if a.Saw? && a.caller == c then Some(a) else LastSaw(trace, c)
    ensures LastBy(trace + [a] + [b], c) ==
      if !b.Wrote? && b.caller == c then Some(b) else LastBy(trace + [a], c)
    ensures LastSaw(trace + [a] + [b], c) == if b.Saw? && b.caller == c then Some(b) else LastSaw(trace + [a], c)
  {
    var one, two := trace + [a], trace + [a] + [b];
    assert one[..|one| - 1] == trace && two[..|two| - 1] == one;
  }

  lemma ObserveKeeps(s: State, c: Caller, force: bool, expiresSoon: bool)
    requires TraceInv(s) && Enabled(s, Observe(c, force, expiresSoon))
    ensures TraceInv(Next(s, Observe(c, force, expiresSoon)))
  {
    hide AllFollow, LastBy, LastSaw, StoreOf;
    assert Agrees(s, c);
    var t, a := Next(s, Observe(c, force, expiresSoon)), Saw(c, s.stored, force, expiresSoon);
    LastOfTwo(s.trace, a, Returned(c, Current(s)), c);
    if Wants(a) {
      OneAccess(s, t, a);
    } else {
      TwoAccesses(s, t, a, Returned(c, Current(s)));
    }
  }

  lemma RereadKeeps(s: State, c: Caller, expiresSoon: bool, fault: bool)
    requires TraceInv(s) && Enabled(s, Reread(c, expiresSoon, fault))
    ensures TraceInv(Next(s, Reread(c, expiresSoon, fault)))
  {
    hide AllFollow, LastBy, LastSaw, StoreOf;
    assert Agrees(s, c);
    var t, a := Next(s, Reread(c, expiresSoon, fault)), Looked(c, s.stored, expiresSoon, fault);
    var b := if t.PhaseOf(c).Calling? then Called(c, s.stored.value)
             else Returned(c, if fault then Error else Current(s));
    LastOfTwo(s.trace, a, b, c);
    TwoAccesses(s, t, a, b);
  }

  lemma FinishKeeps(s: State, c: Caller, fault: bool)
    requires TraceInv(s) && Enabled(s, Finish(c, fault))
    ensures TraceInv(Next(s, Finish(c, fault)))
  {
    hide AllFollow, LastBy, LastSaw, StoreOf;
    assert Agrees(s, c);
    var t := Next(s, Finish(c, fault));
    if t.trace == s.trace {
      NoAccess(s, t);
    } else if |t.trace| == |s.trace| + 1 {
      LastOfTwo(s.trace, t.trace[|s.trace|], Wrote(None), c);
      OneAccess(s, t, t.trace[|s.trace|]);
    } else {
      LastOfTwo(s.trace, t.trace[|s.trace|], t.trace[|s.trace| + 1], c);
      TwoAccesses(s, t, t.trace[|s.trace|], t.trace[|s.trace| + 1]);
    }
  }

  lemma NextKeepsTrace(s: State, step: Step)
    requires TraceInv(s) && Enabled(s, step)
    ensures TraceInv(Next(s, step))
  {
    hide AllFollow, LastBy, LastSaw, StoreOf;
    match step
    case Observe(c, force, expiresSoon) => ObserveKeeps(s, c, force, expiresSoon);
    case Reread(c, expiresSoon, fault) => RereadKeeps(s, c, expiresSoon, fault);
    case Finish(c, fault) => FinishKeeps(s, c, fault);
    case ReadAgain(c) =>
      assert Agrees(s, c);
      LastOfTwo(s.trace, Returned(c, Current(s)), Wrote(None), c);
      OneAccess(s, Next(s, step), Returned(c, Current(s)));
    case StoreLogin(x) => OneWrite(s, Next(s, step), Some(x));
    case Logout => OneWrite(s, Next(s, step), None);
    case _ => NoAccess(s, Next(s, step));
  }

  lemma {:induction false} RunKeepsTrace(s: State, steps: seq<Step>)
    requires TraceInv(s) && AllEnabled(s, steps)
    ensures TraceInv(Run(s, steps))
    decreases |steps|
  {
    hide Next, Enabled, TraceInv;
    if steps != [] {
      NextKeepsTrace(s, steps[0]);
      RunKeepsTrace(Next(s, steps[0]), steps[1..]);
    }
  }

  lemma InitialTrace()
    ensures TraceInv(INITIAL)
  {
  }

  /** In every run every caller follows the protocol: in particular it calls the server with no token but the one it
      saw before it took the lock, and only while that is stored. */
  lemma CallersFollow(steps: seq<Step>)
    requires AllEnabled(INITIAL, steps)
    ensures AllFollow(Run(INITIAL, steps).trace) && StoreOf(Run(INITIAL, steps).trace) == Run(INITIAL, steps).stored
  {
    hide Next, Enabled, AllEnabled, Run, AllFollow, Agrees, StoreOf;
    InitialTrace();
    RunKeepsTrace(INITIAL, steps);
  }

  // ----- Calls are presentations -----

  function Calls(trace: seq<Access>): seq<Token> {
    if trace == [] then []
    else
      Calls(trace[..|trace| - 1])
      + if trace[|trace| - 1].Called? then [trace[|trace| - 1].token] else []
  }

  function Presentations(log: seq<Event>): seq<Token> {
    if log == [] then []
    else
      Presentations(log[..|log| - 1])
      + if log[|log| - 1].Presented? then [log[|log| - 1].token] else []
  }

  lemma CallsGrow(trace: seq<Access>, a: Access, b: Access)
    ensures Calls(trace + [a]) == Calls(trace) + if a.Called? then [a.token] else []
    ensures Calls(trace + [a] + [b]) == Calls(trace + [a]) + if b.Called? then [b.token] else []
  {
    var one, two := trace + [a], trace + [a] + [b];
    assert one[..|one| - 1] == trace && two[..|two| - 1] == one;
  }

  lemma PresentationsGrow(log: seq<Event>, e: Event)
    ensures Presentations(log + [e]) == Presentations(log) + if e.Presented? then [e.token] else []
  {
    assert (log + [e])[..|log + [e]| - 1] == log;
  }

  /** A step appends at most two accesses and at most one event, a call exactly with its presentation. */
  lemma NextKeepsCalls(s: State, step: Step)
    requires Enabled(s, step) && Calls(s.trace) == Presentations(s.log)
    ensures Calls(Next(s, step).trace) == Presentations(Next(s, step).log)
  {
    hide Calls, Presentations;
    var t := Next(s, step);
    var none := Wrote(None);
    if |t.trace| > |s.trace| {
      CallsGrow(s.trace, t.trace[|s.trace|], if |t.trace| > |s.trace| + 1 then t.trace[|s.trace| + 1] else none);
    }
    if |t.log| > |s.log| {
      PresentationsGrow(s.log, t.log[|s.log|]);
    }
  }

  lemma {:induction false} RunKeepsCalls(s: State, steps: seq<Step>)
    requires AllEnabled(s, steps) && Calls(s.trace) == Presentations(s.log)
    ensures Calls(Run(s, steps).trace) == Presentations(Run(s, steps).log)
    decreases |steps|
  {
    hide Next, Enabled, Calls, Presentations;
    if steps != [] {
      NextKeepsCalls(s, steps[0]);
      RunKeepsCalls(Next(s, steps[0]), steps[1..]);
    }
  }

  // ----- A token is stored once -----

  predicate WasStored(s: State, t: Token) {
    Wrote(Some(t)) in s.trace
  }

  /** No token is written twice. */
  predicate StoredOnce(trace: seq<Access>) {
    forall i, j :: 0 <= i < j < |trace| && trace[i].Wrote? && trace[i].stored.Some? ==> trace[i] != trace[j]
  }

  /** What was stored was issued, is no pending login and is not on its way to the store. */
  ghost predicate StoresInv(s: State) {
    && StoredOnce(s.trace)
    && (forall t: Token :: WasStored(s, t) ==> t < s.next && t !in s.logins)
    && (Succeeded(HolderPhase(s)) ==> !WasStored(s, Answer(HolderPhase(s)).value.token))
  }

  lemma StoresFrame(s: State, t: State)
    requires StoresInv(s) && s.next <= t.next && t.logins <= s.logins
    requires s.trace <= t.trace
    requires forall k :: |s.trace| <= k < |t.trace| ==> !(t.trace[k].Wrote? && t.trace[k].stored.Some?)
    requires Succeeded(HolderPhase(t)) ==> Answer(HolderPhase(t)) == Answer(HolderPhase(s))
    ensures StoresInv(t)
  {
    forall x: Token | WasStored(t, x) ensures WasStored(s, x) {
      var k :| 0 <= k < |t.trace| && t.trace[k] == Wrote(Some(x));
      assert k < |s.trace| && s.trace[k] == t.trace[k];
    }
  }

  /** A token never stored before is stored. */
  lemma StoresNew(s: State, t: State, x: Token)
    requires StoresInv(s) && !WasStored(s, x) && x < s.next && x !in t.logins
    requires t.next == s.next && t.logins <= s.logins
    requires t.trace == s.trace + [Wrote(Some(x))] ||
      exists c, o :: t.trace == s.trace + [Wrote(Some(x))] + [Returned(c, o)]
    requires Succeeded(HolderPhase(t)) ==>
      Answer(HolderPhase(t)) == Answer(HolderPhase(s)) && Answer(HolderPhase(t)).value.token != x
    ensures StoresInv(t)
  {
    forall y: Token | WasStored(t, y) ensures y == x || WasStored(s, y) {
      var k :| 0 <= k < |t.trace| && t.trace[k] == Wrote(Some(y));
      assert k < |s.trace| ==> s.trace[k] == t.trace[k];
    }
    forall i, j | 0 <= i < j < |t.trace| && t.trace[i].Wrote? && t.trace[i].stored.Some?
      ensures t.trace[i] != t.trace[j]
    {
      if i < |s.trace| {
        assert t.trace[i] == s.trace[i] && t.trace[i] in s.trace;
      }
    }
  }

  lemma NextKeepsStores(s: State, step: Step)
    requires Inv(s) && StoresInv(s) && Enabled(s, step)
    ensures StoresInv(Next(s, step))
  {
    hide StoresInv, RepeatsExactly, StoredInv, Ledger, Recorded, CallInv, Issued, WasStored;
    var t := Next(s, step);
    if HasHolderCaller(step) {
      CallerIsHolder(s, step.caller);
    }
    match step
    case StoreLogin(x) =>
      LoginIsNew(s, x);
      StoresNew(s, t, x);
    case Finish(c, fault) =>
      FinishKeepsStores(s, c, fault);
    case IssueLogin => LoginIssued(s);
    case Serve(c) => ServedIsNew(s, c);
    case _ => StoresFrame(s, t);
  }

  lemma FinishKeepsStores(s: State, c: Caller, fault: bool)
    requires Inv(s) && StoresInv(s) && Enabled(s, Finish(c, fault)) && HolderPhase(s) == s.PhaseOf(c)
    requires s.holder == Some(c)
    ensures StoresInv(Next(s, Finish(c, fault)))
  {
    hide StoresInv, RepeatsExactly, StoredInv, Ledger, Recorded, CallInv, Issued, WasStored, Exclusive;
    var t, call := Next(s, Finish(c, fault)), s.PhaseOf(c);
    if call.reply.Refreshed? && !fault && s.stored == Some(call.token) {
      var n := call.reply.token;
      SuccessorIsNew(s);
      assert t.trace == s.trace + [Wrote(Some(n))] + [Returned(c, Tokens(n))];
      StoresNew(s, t, n);
    } else {
      StoresFrame(s, t);
    }
  }

  lemma LoginIsNew(s: State, x: Token)
    requires Inv(s) && StoresInv(s) && x in s.logins
    ensures !WasStored(s, x) && x < s.next
    ensures Succeeded(HolderPhase(s)) ==> Answer(HolderPhase(s)).value.token != x
  {
    hide RepeatsExactly, StoredInv, Ledger, Recorded, Exclusive;
    assert Unused(s, x);
  }

  lemma SuccessorIsNew(s: State)
    requires Inv(s) && StoresInv(s) && Succeeded(HolderPhase(s))
    ensures var n := Answer(HolderPhase(s)).value.token; !WasStored(s, n) && n < s.next && n !in s.logins
  {
    hide RepeatsExactly, StoredInv, Ledger, Recorded, Exclusive;
  }

  lemma LoginIssued(s: State)
    requires StoresInv(s)
    ensures StoresInv(Next(s, IssueLogin))
  {
    hide StoredOnce, Succeeded, Answer;
    SameStores(s, Next(s, IssueLogin));
  }

  lemma SameStores(s: State, t: State)
    requires t.trace == s.trace
    ensures forall x: Token :: WasStored(t, x) <==> WasStored(s, x)
  {
  }

  lemma ServedIsNew(s: State, c: Caller)
    requires StoresInv(s) && Enabled(s, Serve(c)) && HolderPhase(s) == s.PhaseOf(c) && s.holder == Some(c)
    ensures StoresInv(Next(s, Serve(c)))
  {
    hide StoredOnce;
    var t := Next(s, Serve(c));
    SameStores(s, t);
    assert s.next <= t.next && t.logins == s.logins;
    assert Succeeded(HolderPhase(t)) ==> Answer(HolderPhase(t)).value.token == s.next;
  }

  lemma {:induction false} RunKeepsStores(s: State, steps: seq<Step>)
    requires Inv(s) && StoresInv(s) && AllEnabled(s, steps)
    ensures StoresInv(Run(s, steps))
    decreases |steps|
  {
    hide Next, Enabled, Inv, StoresInv;
    if steps != [] {
      NextKeepsStores(s, steps[0]);
      NextKeepsInv(s, steps[0]);
      RunKeepsStores(Next(s, steps[0]), steps[1..]);
    }
  }

  lemma {:induction false} StoreOfIsLastWrite(trace: seq<Access>, x: Token) returns (k: nat)
    requires StoreOf(trace) == Some(x)
    ensures k < |trace| && trace[k] == Wrote(Some(x)) && forall j :: k < j < |trace| ==> !trace[j].Wrote?
  {
    if trace[|trace| - 1].Wrote? {
      k := |trace| - 1;
    } else {
      k := StoreOfIsLastWrite(trace[..|trace| - 1], x);
    }
  }

  /** Once a stored token was replaced or cleared, nobody presents it again, whoever saw it. */
  lemma NobodyCallsBehind(steps: seq<Step>, k: nat, i: nat, j: nat, x: Token)
    requires AllEnabled(INITIAL, steps)
    requires var trace := Run(INITIAL, steps).trace;
             k < i < j < |trace| && trace[k] == Wrote(Some(x)) && trace[i].Wrote? && trace[j].Called?
    ensures Run(INITIAL, steps).trace[j].token != x
  {
    hide Next, Enabled, AllEnabled, Run, Inv, Agrees, Follows;
    var trace := Run(INITIAL, steps).trace;
    CallersFollow(steps);
    InitialInv();
    assert StoresInv(INITIAL);
    RunKeepsStores(INITIAL, steps);
    assert FollowsAt(trace, j);
    CallsTheStored(trace, j);
    if trace[j].token == x {
      var m := StoreOfIsLastWrite(trace[..j], x);
    }
  }

  lemma CallsTheStored(trace: seq<Access>, j: nat)
    requires j < |trace| && trace[j].Called? && FollowsAt(trace, j)
    ensures StoreOf(trace[..j]) == Some(trace[j].token)
  {
  }

  // ----- What a call leaves -----

  /** A granted call stores the successor exactly when no login or logout came between and the storage obeys, and
      then returns it. After a login or logout it returns what they left, after a storage error that error. */
  lemma ReplacedExactly(steps: seq<Step>, c: Caller, fault: bool, n: Token)
    requires AllEnabled(INITIAL, steps) && Enabled(Run(INITIAL, steps), Finish(c, fault))
    requires Run(INITIAL, steps).PhaseOf(c).reply == Refreshed(n)
    ensures var s := Run(INITIAL, steps);
            var t := Next(s, Finish(c, fault));
            && (t.stored == Some(n) <==> !fault && s.PhaseOf(c).epoch == s.epoch)
            && (fault ==> t.trace == s.trace + [Returned(c, Error)])
            && (t.stored == Some(n) ==> t.trace == s.trace + [Wrote(Some(n)), Returned(c, Tokens(n))])
            && (!fault && s.PhaseOf(c).epoch != s.epoch ==>
                  && t.trace == s.trace && Enabled(t, ReadAgain(c))
                  && Next(t, ReadAgain(c)).trace == t.trace + [Returned(c, OutcomeOf(t.stored))])
  {
    hide AllEnabled, Run, RepeatsExactly, Ledger, Issued, StoredInv;
    InitialInv();
    RunKeepsInv(INITIAL, steps);
    CallerIsHolder(Run(INITIAL, steps), c);
  }

  /** Every call is the presentation of its token, in the same order. */
  lemma CallsArePresentations(steps: seq<Step>)
    requires AllEnabled(INITIAL, steps)
    ensures Calls(Run(INITIAL, steps).trace) == Presentations(Run(INITIAL, steps).log)
  {
    hide Next, Enabled, AllEnabled, Run;
    RunKeepsCalls(INITIAL, steps);
  }
}
