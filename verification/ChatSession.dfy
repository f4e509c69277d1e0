/** The turn loop of a chat session: every request it sends is a compaction of the history it has built. */
module ChatSession {
  import opened Wrappers
  import opened Text
  import opened Compaction

  // ----- Tool results and their calls -----

  predicate HasCall(calls: seq<ToolCall>, callId: string) {
    exists c | c in calls :: c.callId == callId
  }

  /** The assistant message at `i` carries the call of the result at `j`, and no user message lies between. */
  predicate AnsweredBy(messages: seq<Message>, i: nat, j: nat) {
    && i < j < |messages| && messages[i].Assistant? && messages[j].ToolResult?
    && HasCall(messages[i].toolCalls, messages[j].callId)
    && forall k | i < k < j :: !messages[k].User?
  }

  predicate NoOrphans(messages: seq<Message>) {
    forall j: nat | j < |messages| && messages[j].ToolResult? :: exists i: nat | i < j :: AnsweredBy(messages, i, j)
  }

  predicate NoUsers(messages: seq<Message>) {
    forall m | m in messages :: !m.User?
  }

  /** Cutting in front of a user message orphans nothing. */
  lemma SuffixKeepsAnswers(messages: seq<Message>, start: nat)
    requires NoOrphans(messages) && start < |messages| && messages[start].User?
    ensures NoOrphans(messages[start..])
  {
    hide HasCall;
    var cut := messages[start..];
    forall j: nat | j < |cut| && cut[j].ToolResult? ensures exists i: nat | i < j :: AnsweredBy(cut, i, j) {
      var i: nat :| i < j + start && AnsweredBy(messages, i, j + start);
      assert i >= start;
      assert AnsweredBy(cut, i - start, j);
    }
  }

  /** Neither does anything put in front, so long as it holds no result of its own. */
  lemma PrefixKeepsAnswers(front: seq<Message>, messages: seq<Message>)
    requires NoOrphans(messages) && forall m | m in front :: !m.ToolResult?
    ensures NoOrphans(front + messages)
  {
    hide HasCall;
    var all := front + messages;
    assert forall k | 0 <= k < |front| :: all[k] == front[k] && front[k] in front;
    forall j: nat | j < |all| && all[j].ToolResult? ensures exists i: nat | i < j :: AnsweredBy(all, i, j) {
      var k := j - |front|;
      var i: nat :| i < k && AnsweredBy(messages, i, k);
      assert AnsweredBy(all, i + |front|, j);
    }
  }

  lemma AppendKeepsAnswers(messages: seq<Message>, m: Message, i: nat)
    requires NoOrphans(messages)
    requires m.ToolResult? ==> AnsweredBy(messages + [m], i, |messages|)
    ensures NoOrphans(messages + [m])
  {
    hide HasCall;
    var all := messages + [m];
    forall j: nat | j < |all| && all[j].ToolResult? ensures exists i: nat | i < j :: AnsweredBy(all, i, j) {
      if j < |messages| {
        var k: nat :| k < j && AnsweredBy(messages, k, j);
        assert AnsweredBy(all, k, j);
      } else {
        assert AnsweredBy(all, i, j);
      }
    }
  }

  /** Compaction orphans no tool result, and keeps whole the last user message and all that follows it. */
  lemma CompactionKeeps(render: seq<Message> -> string, history: seq<Message>, turn: seq<Message>, out: seq<Message>)
    requires NoOrphans(history + turn) && turn != [] && turn[0].User? && NoUsers(turn[1..])
    requires IsCompaction(render, history + turn, out)
    ensures NoOrphans(out)
    ensures |turn| <= |out| && out[|out| - |turn|..] == turn
  {
    hide AnsweredBy, NoOrphans, NoUsers, Bytes, UserTurns, IsKeptWhole, Budget, SummaryMessages;
    var messages := history + turn;
    if !IsKeptWhole(messages) {
      var start: nat :| start < |messages| && IsKeptStart(messages, start) && start > 0
        && out == SummaryMessages(render, messages[..start], Budget(messages[start..])) + messages[start..];
      var pair := SummaryMessages(render, messages[..start], Budget(messages[start..]));
      SuffixKeepsAnswers(messages, start);
      SummaryHasNoResults(render, messages[..start], Budget(messages[start..]));
      PrefixKeepsAnswers(pair, messages[start..]);
      StartsBeforeTurn(history, turn, start);
      assert out[|out| - |turn|..] == messages[|history|..] == turn;
    }
  }

  lemma SummaryHasNoResults(render: seq<Message> -> string, omitted: seq<Message>, maxBytes: nat)
    ensures forall m | m in SummaryMessages(render, omitted, maxBytes) :: !m.ToolResult?
  {
    hide ByteLen, Truncated, TrimSpace, HISTORY_SUMMARY_CONTEXT_MESSAGE, HISTORY_SUMMARY_ASSISTANT_PREFIX;
  }

  lemma StartsBeforeTurn(history: seq<Message>, turn: seq<Message>, start: nat)
    requires turn != [] && NoUsers(turn[1..]) && start < |history + turn|
    requires UserTurns((history + turn)[start..]) >= HISTORY_MIN_RAW_USER_TURNS
    ensures start <= |history|
  {
    var messages := history + turn;
    assert messages[|messages|..] == [] && UserTurns([]) == 0;
    if start > |history| {
      forall k | start <= k < |messages| ensures !messages[k].User? {
        assert messages[k] == turn[1..][k - |history| - 1];
      }
      NoUsersBetween(messages, start, |messages|);
    }
  }

  // ----- One run -----

  /** How the handling of one tool call ends: with an output, or by ending the run. */
  datatype ToolOutcome = Done(output: string, isError: bool) | Stopped

  /** What the environment does in one round: no reply (an error or a cancellation before the stream ends), or
      a reply with the outcomes of its calls as far as they were handled. */
  datatype Round = NoReply | Reply(text: string, calls: seq<ToolCall>, outcomes: seq<ToolOutcome>)

  function ResultOf(call: ToolCall, outcome: ToolOutcome): Message
    requires outcome.Done?
  {
    ToolResult(call.callId, call.toolName, outcome.output, outcome.isError, call.toolCallId, call.providerCallId)
  }

  /** The results pushed for the calls, up to the first that ends the run. */
  function Results(calls: seq<ToolCall>, outcomes: seq<ToolOutcome>): (r: seq<Message>)
    ensures |r| <= |calls|
    ensures forall k :: 0 <= k < |r| ==> r[k].ToolResult? && r[k].callId == calls[k].callId
    decreases |calls|
  {
    if calls == [] || outcomes == [] || outcomes[0].Stopped? then []
    else [ResultOf(calls[0], outcomes[0])] + Results(calls[1..], outcomes[1..])
  }

  function Replied(round: Round): seq<Message>
    requires round.Reply?
  {
    if round.text != "" || round.calls != [] then [Assistant(round.text, round.calls)] else []
  }

  function Pushed(round: Round): seq<Message> {
    if round.NoReply? then [] else Replied(round) + Results(round.calls, round.outcomes)
  }

  /** Another round follows only when every call of this one was handled. */
  predicate Continues(round: Round) {
    round.Reply? && round.calls != [] && |Results(round.calls, round.outcomes)| == |round.calls|
  }

  /** What a run pushes after its user message. */
  function RoundMessages(rounds: seq<Round>, limit: nat): seq<Message>
    decreases limit
  {
    if limit == 0 || rounds == [] then []
    else Pushed(rounds[0]) + if Continues(rounds[0]) then RoundMessages(rounds[1..], limit - 1) else []
  }

  /** A request holds every result with its call, and ends with the turn in progress. */
  predicate GoodRequest(request: seq<Message>, turn: seq<Message>) {
    NoOrphans(request) && |turn| <= |request| && request[|request| - |turn|..] == turn
  }

  /** The turn as it stands when each request of the run is made, from `turn` on. */
  function Stages(turn: seq<Message>, rounds: seq<Round>, limit: nat): seq<seq<Message>>
    decreases limit
  {
    if limit == 0 || rounds == [] then []
    else [turn] + if Continues(rounds[0]) then Stages(turn + Pushed(rounds[0]), rounds[1..], limit - 1) else []
  }

  lemma UnfoldStages(turn: seq<Message>, rounds: seq<Round>, k: nat, limit: nat)
    requires k < |rounds| && k < limit
    ensures Stages(turn, rounds[k..], limit - k) ==
      [turn] + if Continues(rounds[k]) then Stages(turn + Pushed(rounds[k]), rounds[k + 1..], limit - k - 1) else []
  {
    hide Pushed, Continues;
    assert rounds[k..][1..] == rounds[k + 1..];
  }

  lemma StagesJoin(done: seq<seq<Message>>, turn: seq<Message>, rest: seq<seq<Message>>)
    ensures done + ([turn] + rest) == done + [turn] + rest && done + [] == done
  {
  }

  lemma {:induction false} ResultsKeepAnswers(messages: seq<Message>, i: nat, results: seq<Message>)
    requires NoOrphans(messages) && i < |messages| && messages[i].Assistant?
    requires forall k :: i < k < |messages| ==> !messages[k].User?
    requires forall m | m in results :: m.ToolResult? && HasCall(messages[i].toolCalls, m.callId)
    ensures NoOrphans(messages + results)
    decreases |results|
  {
    hide HasCall, NoOrphans;
    if results == [] {
      assert messages + results == messages;
    } else {
      var m := results[0];
      assert AnsweredBy(messages + [m], i, |messages|);
      AppendKeepsAnswers(messages, m, i);
      ResultsKeepAnswers(messages + [m], i, results[1..]);
      assert messages + [m] + results[1..] == messages + results;
    }
  }

  lemma ResultsAreOfCalls(calls: seq<ToolCall>, outcomes: seq<ToolOutcome>)
    ensures forall m | m in Results(calls, outcomes) :: m.ToolResult? && HasCall(calls, m.callId)
  {
    var results := Results(calls, outcomes);
    forall m | m in results ensures m.ToolResult? && HasCall(calls, m.callId) {
      var k :| 0 <= k < |results| && results[k] == m;
      assert calls[k] in calls;
    }
  }

  /** A round keeps every result answered, and pushes no user message. */
  lemma RoundKeepsAnswers(messages: seq<Message>, round: Round)
    requires NoOrphans(messages)
    ensures NoOrphans(messages + Pushed(round)) && NoUsers(Pushed(round))
  {
    hide NoOrphans, HasCall, Results;
    if round.NoReply? || Pushed(round) == [] {
      assert messages + Pushed(round) == messages;
    } else {
      var replied := messages + [Assistant(round.text, round.calls)];
      var results := Results(round.calls, round.outcomes);
      NoCallsNoResults(round);
      Reassociate(messages, [Assistant(round.text, round.calls)], results);
      AppendKeepsAnswers(messages, Assistant(round.text, round.calls), 0);
      ResultsAreOfCalls(round.calls, round.outcomes);
      ResultsKeepAnswers(replied, |messages|, results);
    }
  }

  lemma NoCallsNoResults(round: Round)
    ensures round.Reply? && round.calls == [] ==> Results(round.calls, round.outcomes) == []
  {
  }

  // ----- When a run goes on -----

  /** A reply with calls, every one of which was handled and gave an output. */
  predicate AllAnswered(round: Round) {
    && round.Reply? && round.calls != [] && |round.outcomes| >= |round.calls|
    && forall i :: 0 <= i < |round.calls| ==> round.outcomes[i].Done?
  }

  /** The results are those of the calls handled before the first that ends the run, field by field. */
  lemma {:induction false} ResultsExactly(calls: seq<ToolCall>, outcomes: seq<ToolOutcome>)
    ensures var r := Results(calls, outcomes);
            && |r| <= |outcomes| && (|r| < |calls| && |r| < |outcomes| ==> outcomes[|r|].Stopped?)
            && forall k :: 0 <= k < |r| ==>
                 && outcomes[k].Done?
                 && r[k] == ToolResult(calls[k].callId, calls[k].toolName, outcomes[k].output, outcomes[k].isError,
                                       calls[k].toolCallId, calls[k].providerCallId)
    decreases |calls|
  {
    if calls != [] && outcomes != [] && outcomes[0].Done? {
      ResultsExactly(calls[1..], outcomes[1..]);
    }
  }

  /** A round pushes the reply, unless it is empty, and the results of its calls. */
  lemma PushedExactly(round: Round)
    ensures round.NoReply? ==> Pushed(round) == []
    ensures round.Reply? ==>
      Pushed(round) == (if round.text == "" && round.calls == [] then [] else [Assistant(round.text, round.calls)])
                       + Results(round.calls, round.outcomes)
    ensures Continues(round) <==> AllAnswered(round)
  {
    hide Results;
    if round.Reply? {
      ResultsExactly(round.calls, round.outcomes);
    }
  }

  /** The next request follows a round with calls, all answered, and adds what that round pushed. */
  predicate StageFollows(stages: seq<seq<Message>>, rounds: seq<Round>, k: nat) {
    && k + 1 < |stages| && k < |rounds|
    && AllAnswered(rounds[k]) && stages[k + 1] == stages[k] + Pushed(rounds[k])
  }

  lemma {:induction false} StagesFollow(turn: seq<Message>, rounds: seq<Round>, limit: nat)
    ensures var stages := Stages(turn, rounds, limit);
            && |stages| <= limit && |stages| <= |rounds|
            && (stages == [] <==> limit == 0 || rounds == []) && (stages != [] ==> stages[0] == turn)
            && forall k :: 0 <= k < |stages| - 1 ==> StageFollows(stages, rounds, k)
    decreases limit
  {
    hide Pushed, AllAnswered, Continues;
    if limit > 0 && rounds != [] {
      PushedExactly(rounds[0]);
      if Continues(rounds[0]) {
        var stages, tail := Stages(turn, rounds, limit), Stages(turn + Pushed(rounds[0]), rounds[1..], limit - 1);
        StagesFollow(turn + Pushed(rounds[0]), rounds[1..], limit - 1);
        assert stages == [turn] + tail;
        forall k | 0 <= k < |stages| - 1 ensures StageFollows(stages, rounds, k) {
          assert k > 0 ==> StageFollows(tail, rounds[1..], k - 1);
        }
      }
    }
  }

  /** The turn as the run leaves it, and whether the run could have gone on. */
  lemma {:induction false} RunStops(turn: seq<Message>, rounds: seq<Round>, limit: nat)
    requires limit > 0 && rounds != []
    ensures var stages := Stages(turn, rounds, limit);
            && 0 < |stages| <= |rounds|
            && (|stages| < |rounds| && |stages| < limit ==> !AllAnswered(rounds[|stages| - 1]))
            && turn + RoundMessages(rounds, limit) == stages[|stages| - 1] + Pushed(rounds[|stages| - 1])
    decreases limit
  {
    hide Pushed, AllAnswered, Continues, Stages, RoundMessages;
    var r, next := rounds[0], turn + Pushed(rounds[0]);
    PushedExactly(r);
    FirstRound(turn, rounds, limit);
    Reassociate(turn, Pushed(r), RoundMessages(rounds[1..], limit - 1));
    Reassociate(turn, Pushed(r), []);
    if Continues(r) {
      if limit > 1 && |rounds| > 1 {
        RunStops(next, rounds[1..], limit - 1);
        var stages, tail := Stages(turn, rounds, limit), Stages(next, rounds[1..], limit - 1);
        assert stages == [turn] + tail;
        assert stages[|stages| - 1] == tail[|tail| - 1] && rounds[|stages| - 1] == rounds[1..][|tail| - 1];
      } else {
        NoMoreRounds(next, rounds[1..], 0, limit - 1);
        assert rounds[1..][0..] == rounds[1..];
      }
    }
  }

  lemma FirstRound(turn: seq<Message>, rounds: seq<Round>, limit: nat)
    requires limit > 0 && rounds != []
    ensures Stages(turn, rounds, limit) ==
      [turn] + if Continues(rounds[0]) then Stages(turn + Pushed(rounds[0]), rounds[1..], limit - 1) else []
    ensures RoundMessages(rounds, limit) ==
      Pushed(rounds[0]) + if Continues(rounds[0]) then RoundMessages(rounds[1..], limit - 1) else []
  {
    hide Pushed, Continues;
  }

  /** A run goes on exactly while every call of its last reply was answered, the model replies and the limit is not
      reached; so its first reply without calls is its last. */
  lemma RunGoesOnExactly(turn: seq<Message>, rounds: seq<Round>, limit: nat)
    ensures var stages := Stages(turn, rounds, limit);
            && |stages| <= limit && |stages| <= |rounds|
            && (stages == [] <==> limit == 0 || rounds == []) && (stages != [] ==> stages[0] == turn)
            && (forall k :: 0 <= k < |stages| - 1 ==> StageFollows(stages, rounds, k))
            && (0 < |stages| < |rounds| && |stages| < limit ==> !AllAnswered(rounds[|stages| - 1]))
            && turn + RoundMessages(rounds, limit) ==
                 if stages == [] then turn else stages[|stages| - 1] + Pushed(rounds[|stages| - 1])
  {
    hide Pushed, AllAnswered, Continues, Stages, StageFollows;
    StagesFollow(turn, rounds, limit);
    if limit > 0 && rounds != [] {
      RunStops(turn, rounds, limit);
    } else {
      Reassociate(turn, [], []);
    }
  }

  /** Each request is the compaction of the history and its stage, and a good one. */
  predicate RequestsOk(render: seq<Message> -> string, history: seq<Message>, stages: seq<seq<Message>>,
                       requests: seq<seq<Message>>)
  {
    && |requests| == |stages|
    && forall k :: 0 <= k < |requests| ==>
         IsCompaction(render, history + stages[k], requests[k]) && GoodRequest(requests[k], stages[k])
  }

  /** A turn in progress: its first message is the user's and its only one by the user. */
  predicate IsTurn(history: seq<Message>, user: Message, turn: seq<Message>) {
    NoOrphans(history + turn) && user.User? && turn != [] && turn[0] == user && NoUsers(turn[1..])
  }

  /** The state of the turn loop before a round. */
  ghost predicate SoFar(render: seq<Message> -> string, history: seq<Message>, user: Message, rounds: seq<Round>,
                        limit: nat, round: nat, turn: seq<Message>, stages: seq<seq<Message>>,
                         requests: seq<seq<Message>>)
  {
    && round <= limit && round <= |rounds| && IsTurn(history, user, turn)
    && [user] + RoundMessages(rounds, limit) == turn + RoundMessages(rounds[round..], limit - round)
    && Stages([user], rounds, limit) == stages + Stages(turn, rounds[round..], limit - round)
    && RequestsOk(render, history, stages, requests)
  }

  /** Its state after the last round. */
  ghost predicate Finished(render: seq<Message> -> string, history: seq<Message>, user: Message, rounds: seq<Round>,
                           limit: nat, turn: seq<Message>, stages: seq<seq<Message>>, requests: seq<seq<Message>>)
  {
    && NoOrphans(history + turn)
    && [user] + RoundMessages(rounds, limit) == turn && Stages([user], rounds, limit) == stages
    && RequestsOk(render, history, stages, requests)
  }

  lemma RunBegins(render: seq<Message> -> string, history: seq<Message>, user: Message, rounds: seq<Round>, limit: nat)
    requires NoOrphans(history) && user.User?
    ensures SoFar(render, history, user, rounds, limit, 0, [user], [], [])
  {
    hide NoOrphans, Stages, RoundMessages;
    AppendKeepsAnswers(history, user, 0);
    assert rounds[0..] == rounds;
  }

  lemma TurnPasses(history: seq<Message>, user: Message, turn: seq<Message>, round: Round)
    requires IsTurn(history, user, turn)
    ensures IsTurn(history, user, turn + Pushed(round))
  {
    hide NoOrphans, NoUsers, Pushed;
    RoundKeepsAnswers(history + turn, round);
    TurnGrows(turn, Pushed(round));
    Reassociate(history, turn, Pushed(round));
  }

  lemma RequestsGrow(render: seq<Message> -> string, history: seq<Message>, stages: seq<seq<Message>>,
                     requests: seq<seq<Message>>, turn: seq<Message>, request: seq<Message>)
    requires RequestsOk(render, history, stages, requests)
    requires IsCompaction(render, history + turn, request) && GoodRequest(request, turn)
    ensures RequestsOk(render, history, stages + [turn], requests + [request])
  {
    hide IsCompaction, GoodRequest;
  }

  /** One round: the request is good, the turn grows by what the round pushes. */
  lemma RoundPasses(render: seq<Message> -> string, history: seq<Message>, user: Message, rounds: seq<Round>,
                    limit: nat, round: nat, turn: seq<Message>, stages: seq<seq<Message>>,
                    requests: seq<seq<Message>>, request: seq<Message>)
    requires SoFar(render, history, user, rounds, limit, round, turn, stages, requests)
    requires round < |rounds| && round < limit && IsCompaction(render, history + turn, request)
    ensures var next, all, sent := turn + Pushed(rounds[round]), stages + [turn], requests + [request];
            if Continues(rounds[round]) then SoFar(render, history, user, rounds, limit, round + 1, next, all, sent)
            else Finished(render, history, user, rounds, limit, next, all, sent)
  {
    hide NoOrphans, NoUsers, IsCompaction, GoodRequest, RequestsOk, Stages, RoundMessages, Pushed, Continues;
    var r := rounds[round];
    RequestIsGood(render, history, turn, request);
    RequestsGrow(render, history, stages, requests, turn, request);
    TurnPasses(history, user, turn, r);
    UnfoldRound(rounds, round, limit);
    UnfoldStages(turn, rounds, round, limit);
    Reassociate(turn, Pushed(r), if Continues(r) then RoundMessages(rounds[round + 1..], limit - round - 1) else []);
    StagesJoin(stages, turn,
               if Continues(r) then Stages(turn + Pushed(r), rounds[round + 1..], limit - round - 1) else []);
    Reassociate(turn + Pushed(r), [], []);
    StagesJoin(stages + [turn], turn, []);
  }

  lemma RoundsExhausted(render: seq<Message> -> string, history: seq<Message>, user: Message, rounds: seq<Round>,
                        limit: nat, round: nat, turn: seq<Message>, stages: seq<seq<Message>>,
                         requests: seq<seq<Message>>)
    requires SoFar(render, history, user, rounds, limit, round, turn, stages, requests)
      && (round == |rounds| || round == limit)
    ensures Finished(render, history, user, rounds, limit, turn, stages, requests)
  {
    hide NoOrphans, NoUsers, RequestsOk, Stages, RoundMessages;
    NoMoreRounds(turn, rounds, round, limit);
    Reassociate(turn, [], []);
    StagesJoin(stages, turn, []);
  }

  lemma RunEnds(render: seq<Message> -> string, history: seq<Message>, user: Message, rounds: seq<Round>, limit: nat,
                turn: seq<Message>, stages: seq<seq<Message>>, requests: seq<seq<Message>>)
    requires Finished(render, history, user, rounds, limit, turn, stages, requests)
    ensures NoOrphans(history + turn) && history + turn == history + [user] + RoundMessages(rounds, limit)
    ensures RequestsOk(render, history, Stages([user], rounds, limit), requests)
  {
    hide NoOrphans, RequestsOk, Stages, RoundMessages;
    Reassociate(history, [user], RoundMessages(rounds, limit));
  }

  class Session {
    var messages: seq<Message>

    predicate Valid()
      reads this
    {
      NoOrphans(messages)
    }

    constructor ()
      ensures Valid() && messages == []
    {
      messages := [];
    }

    /** `rounds` is the behaviour of the model and the tools; a run that outlasts it ends there. Each request
        is the compaction of the old history and the turn as it stands. */
    method RunTurn(render: seq<Message> -> string, content: string, context: string, rounds: seq<Round>,
                   roundLimit: nat)
        returns (requests: seq<seq<Message>>)
      requires Valid()
      modifies this
      ensures Valid()
      ensures messages == old(messages) + [User(content, Some(context))] + RoundMessages(rounds, roundLimit)
      ensures RequestsOk(render, old(messages), Stages([User(content, Some(context))], rounds, roundLimit), requests)
    {
      hide NoOrphans, SoFar, Finished, IsCompaction, Stages, RoundMessages, Pushed;
      ghost var history := messages;
      var user := User(content, Some(context));
      ghost var turn, stages: seq<seq<Message>> := [user], [];
      RunBegins(render, history, user, rounds, roundLimit);
      messages := messages + [user];
      requests := [];
      var round := 0;
      while round < roundLimit && round < |rounds|
        invariant 0 <= round <= roundLimit && round <= |rounds| && messages == history + turn
        invariant SoFar(render, history, user, rounds, roundLimit, round, turn, stages, requests)
      {
        var compacted := CompactHistoryForModel(render, messages);
        RoundPasses(render, history, user, rounds, roundLimit, round, turn, stages, requests, compacted);
        requests, stages := requests + [compacted], stages + [turn];
        Reassociate(history, turn, Pushed(rounds[round]));
        turn := turn + Pushed(rounds[round]);
        PushRound(rounds[round]);
        if !Continues(rounds[round]) {
          RunEnds(render, history, user, rounds, roundLimit, turn, stages, requests);
          return;
        }
        round := round + 1;
      }
      RoundsExhausted(render, history, user, rounds, roundLimit, round, turn, stages, requests);
      RunEnds(render, history, user, rounds, roundLimit, turn, stages, requests);
    }

    method PushRound(round: Round)
      modifies this
      ensures messages == old(messages) + Pushed(round)
    {
      hide Results, ResultOf, Pushed;
      PushedUnfolds(old(messages), round);
      if round.NoReply? {
        return;
      }
      if round.text != "" || round.calls != [] {
        messages := messages + [Assistant(round.text, round.calls)];
      }
      ghost var replied := messages;
      ghost var done: seq<Message> := [];
      var k := 0;
      while k < |round.calls| && k < |round.outcomes| && round.outcomes[k].Done?
        invariant 0 <= k <= |round.calls| && k <= |round.outcomes|
        invariant messages == replied + done
        invariant done + Results(round.calls[k..], round.outcomes[k..]) == Results(round.calls, round.outcomes)
      {
        UnfoldResults(round.calls, round.outcomes, k);
        var result := ResultOf(round.calls[k], round.outcomes[k]);
        Reassociate(done, [result], Results(round.calls[k + 1..], round.outcomes[k + 1..]));
        messages := messages + [result];
        done := done + [result];
        k := k + 1;
      }
      UnfoldResults(round.calls, round.outcomes, k);
    }
  }

  lemma PushedUnfolds(messages: seq<Message>, round: Round)
    ensures round.NoReply? ==> messages + Pushed(round) == messages
    ensures round.Reply? ==>
      messages + Pushed(round) ==
        (if round.text != "" || round.calls != [] then messages + [Assistant(round.text, round.calls)] else messages)
        + Results(round.calls, round.outcomes)
    ensures round.Reply? ==>
      round.calls[0..] == round.calls && round.outcomes[0..] == round.outcomes
  {
    hide Results;
    if round.Reply? {
      Reassociate(messages, Replied(round), Results(round.calls, round.outcomes));
    }
  }

  lemma Reassociate(a: seq<Message>, b: seq<Message>, c: seq<Message>)
    ensures (a + b) + c == a + (b + c) && a + [] == a
  {
  }

  lemma UnfoldResults(calls: seq<ToolCall>, outcomes: seq<ToolOutcome>, k: nat)
    requires k <= |calls| && k <= |outcomes|
    ensures Results(calls[k..], outcomes[k..]) ==
      if k < |calls| && k < |outcomes| && outcomes[k].Done?
      then [ResultOf(calls[k], outcomes[k])] + Results(calls[k + 1..], outcomes[k + 1..])
      else []
  {
    hide ResultOf;
    if k < |calls| && k < |outcomes| {
      assert calls[k..][1..] == calls[k + 1..] && outcomes[k..][1..] == outcomes[k + 1..];
    }
  }

  lemma NoMoreRounds(turn: seq<Message>, rounds: seq<Round>, round: nat, limit: nat)
    requires round <= |rounds| && round <= limit && (round == |rounds| || round == limit)
    ensures Stages(turn, rounds[round..], limit - round) == [] && RoundMessages(rounds[round..], limit - round) == []
  {
  }

  lemma RequestIsGood(render: seq<Message> -> string, history: seq<Message>, turn: seq<Message>, request: seq<Message>)
    requires NoOrphans(history + turn) && turn != [] && turn[0].User? && NoUsers(turn[1..])
    requires IsCompaction(render, history + turn, request)
    ensures GoodRequest(request, turn)
  {
    hide NoOrphans, NoUsers, IsCompaction;
    CompactionKeeps(render, history, turn, request);
  }

  lemma TurnGrows(turn: seq<Message>, more: seq<Message>)
    requires turn != [] && NoUsers(turn[1..]) && NoUsers(more)
    ensures NoUsers((turn + more)[1..])
  {
    assert (turn + more)[1..] == turn[1..] + more;
  }

  lemma UnfoldRound(rounds: seq<Round>, k: nat, limit: nat)
    requires k < |rounds| && k < limit
    ensures RoundMessages(rounds[k..], limit - k) ==
      Pushed(rounds[k]) + if Continues(rounds[k]) then RoundMessages(rounds[k + 1..], limit - k - 1) else []
  {
    hide Pushed, Continues;
    assert rounds[k..][1..] == rounds[k + 1..];
  }
}
