/**
 Status polling against the state machines of section 7.1.6 of RFC 8555: the table of legal
 edges, and the loop that polls until a terminal status or an exhausted budget. The replies
 of the server are an arbitrary list.
 */
module AcmePoll {
  import opened Wrappers

  datatype Kind = Challenge | Authorization | Order | UnknownKind

  datatype Status =
    | Pending | Ready | Processing | Valid | Invalid | Deactivated | Expired | Revoked | Foreign(text: string)

  datatype TransitionError = BadInput | BadTransition

  /** The statuses listed after a status in the table of a kind; none for a status without an entry. */
  function Edges(kind: Kind, from: Status): seq<Status> {
    match (kind, from)
    case (Challenge, Pending) => [Processing, Valid, Invalid]
    case (Challenge, Processing) => [Processing, Valid, Invalid]
    case (Authorization, Pending) => [Valid, Invalid, Deactivated]
    case (Authorization, Valid) => [Expired, Deactivated, Revoked]
    case (Order, Pending) => [Ready, Invalid]
    case (Order, Ready) => [Processing, Valid, Invalid]
    case (Order, Processing) => [Valid, Invalid]
    case _ => []
  }

  function AssertTransition(kind: Kind, from: Status, to: Status): Result<(), TransitionError> {
    if kind == UnknownKind then Err(BadInput)
    else if from == to then Ok(())
    else if to in Edges(kind, from) then Ok(())
    else Err(BadTransition)
  }

  /** How far along its life a resource is. */
  function Rank(s: Status): nat {
    match s
    case Pending => 0
    case Ready => 1
    case Processing => 2
    case Valid => 3
    case _ => 4
  }

  /** A legal change moves forward, so no status is left and come back to. */
  lemma ChangeRises(kind: Kind, from: Status, to: Status)
    requires AssertTransition(kind, from, to).Ok? && from != to
    ensures Rank(from) < Rank(to)
  {
  }

  predicate Terminal(kind: Kind, s: Status) {
    if kind == Order then s in {Ready, Valid, Invalid} else s in {Valid, Invalid, Deactivated, Expired, Revoked}
  }

  /** A Retry-After header: absent or without a number of seconds, a number of seconds, or malformed. */
  datatype RetryAfter = NoDelay | Delay(seconds: nat) | BadHeader

  /** The answer to one poll: refused, or an object of the polled kind. */
  datatype Reply = Refused | Seen(status: Status, retryAfter: RetryAfter)

  datatype Outcome =
    | Reached(status: Status) | RequestFailed | IllegalTransition | BadRetryAfter | Exhausted | StillPolling

  /** How polling ends, the polls made, and the sleeps in between, in seconds. */
  datatype Polling = Polling(outcome: Outcome, polls: nat, sleeps: seq<nat>)

  function DelayOf(r: Reply): nat {
    if r.Seen? && r.retryAfter.Delay? then r.retryAfter.seconds else 1
  }

  function Sum(xs: seq<nat>): nat {
    if xs == [] then 0 else Sum(xs[..|xs| - 1]) + xs[|xs| - 1]
  }

  predicate Legal(kind: Kind, last: Option<Status>, s: Status) {
    last.None? || AssertTransition(kind, last.value, s).Ok?
  }

  /** The outcome settled by the poll that made the count so high, none when polling goes on. */
  function Settles(kind: Kind, capPolls: nat, capWait: nat, last: Option<Status>, count: nat, waited: nat,
      r: Reply): Option<Outcome> {
    match r
    case Refused => Some(RequestFailed)
    case Seen(s, retryAfter) =>
      if !Legal(kind, last, s) then Some(IllegalTransition)
      else if Terminal(kind, s) then Some(Reached(s))
      else if count >= capPolls then Some(Exhausted)
      else if retryAfter == BadHeader then Some(BadRetryAfter)
      else if waited + DelayOf(r) > capWait then Some(Exhausted)
      else None
  }

  /** _poll as a loop: count, last status and seconds waited are updated by each reply. */
  method Poll(kind: Kind, capPolls: nat, capWait: nat, replies: seq<Reply>) returns (p: Polling)
    requires (kind == Order || kind == Authorization) && capPolls >= 1
    ensures p == Polls(kind, capPolls, capWait, replies, None, 0, [])
  {
    var last: Option<Status> := None;
    var count, waited := 0, 0;
    var sleeps: seq<nat> := [];
    assert replies[0..] == replies;
    while count < |replies|
      invariant count <= |replies| && waited == Sum(sleeps)
      invariant Polls(kind, capPolls, capWait, replies, None, 0, []) ==
                Polls(kind, capPolls, capWait, replies[count..], last, count, sleeps)
    {
      var r := replies[count];
      assert replies[count..][1..] == replies[count + 1..];
      count := count + 1;
      if r.Refused? { return Polling(RequestFailed, count, sleeps); }
      if last.Some? && last.value != r.status {
        var transition := AssertTransition(kind, last.value, r.status);
        if transition.Err? { return Polling(IllegalTransition, count, sleeps); }
      }
      last := Some(r.status);
      if Terminal(kind, r.status) { return Polling(Reached(r.status), count, sleeps); }
      if count >= capPolls { return Polling(Exhausted, count, sleeps); }
      if r.retryAfter == BadHeader { return Polling(BadRetryAfter, count, sleeps); }
      var delaySec := if r.retryAfter.Delay? then r.retryAfter.seconds else 1;
      waited := waited + delaySec;
      if waited > capWait { return Polling(Exhausted, count, sleeps); }
      assert (sleeps + [delaySec])[..|sleeps|] == sleeps;
      sleeps := sleeps + [delaySec];
    }
    p := Polling(StillPolling, count, sleeps);
  }

  /** Polling from a state: the last status seen, the polls made and the sleeps taken. */
  function Polls(kind: Kind, capPolls: nat, capWait: nat, replies: seq<Reply>, last: Option<Status>, count: nat,
      sleeps: seq<nat>): Polling
    decreases |replies|
  {
    if replies == [] then Polling(StillPolling, count, sleeps)
    else
      match Settles(kind, capPolls, capWait, last, count + 1, Sum(sleeps), replies[0])
      case Some(outcome) => Polling(outcome, count + 1, sleeps)
      case None => Polls(kind, capPolls, capWait, replies[1..], Some(replies[0].status), count + 1,
          sleeps + [DelayOf(replies[0])])
  }

  // ---------------------------------------------------------------- properties

  lemma SumAppend(xs: seq<nat>, x: nat)
    ensures Sum(xs + [x]) == Sum(xs) + x
  {
    assert (xs + [x])[..|xs|] == xs;
  }

  /**
   Within capPolls polls and capWait seconds; with capPolls replies to come polling always ends, and it ends well only
   in a terminal status.
   */
  lemma {:induction false} PollingBounded(kind: Kind, capPolls: nat, capWait: nat, replies: seq<Reply>,
      last: Option<Status>, count: nat, sleeps: seq<nat>)
    requires count < capPolls && Sum(sleeps) <= capWait && |sleeps| == count
    ensures var p := Polls(kind, capPolls, capWait, replies, last, count, sleeps);
      && p.polls <= capPolls && Sum(p.sleeps) <= capWait && |p.sleeps| <= p.polls
      && (p.outcome.Reached? ==> Terminal(kind, p.outcome.status))
      && (|replies| >= capPolls - count ==> p.outcome != StillPolling)
    decreases |replies|
  {
    hide Sum, AssertTransition, Terminal;
    if replies != [] && Settles(kind, capPolls, capWait, last, count + 1, Sum(sleeps), replies[0]).None? {
      SumAppend(sleeps, DelayOf(replies[0]));
      PollingBounded(kind, capPolls, capWait, replies[1..], Some(replies[0].status), count + 1,
          sleeps + [DelayOf(replies[0])]);
    }
  }

  /**
   The reply at a place was seen, follows legally on the one before it, and is terminal exactly when it is the last.
   */
  predicate StepOk(kind: Kind, replies: seq<Reply>, last: Option<Status>, n: nat, i: nat)
    requires i < n <= |replies|
  {
    && replies[i].Seen?
    && (i > 0 ==> replies[i - 1].Seen?)
    && Legal(kind, if i == 0 then last else Some(replies[i - 1].status), replies[i].status)
    && (Terminal(kind, replies[i].status) <==> i == n - 1)
    && (i < n - 1 ==> replies[i].retryAfter != BadHeader)
  }

  /** A run of legal statuses of which only the last of the first n is terminal. */
  predicate Climbs(kind: Kind, replies: seq<Reply>, last: Option<Status>, n: nat) {
    1 <= n <= |replies| && forall i :: 0 <= i < n ==> StepOk(kind, replies, last, n, i)
  }

  function Delays(replies: seq<Reply>): seq<nat> {
    if replies == [] then [] else Delays(replies[..|replies| - 1]) + [DelayOf(replies[|replies| - 1])]
  }

  lemma {:induction false} DelaysFirst(replies: seq<Reply>)
    requires replies != []
    ensures Delays(replies) == [DelayOf(replies[0])] + Delays(replies[1..])
  {
    var n := |replies| - 1;
    if n > 0 {
      DelaysFirst(replies[..n]);
      assert replies[..n][1..] == replies[1..][..n - 1];
      assert replies[1..][n - 1] == replies[n];
    } else {
      assert replies[..0] == [];
    }
  }

  lemma ClimbsStep(kind: Kind, replies: seq<Reply>, last: Option<Status>, n: nat)
    requires replies != [] && n >= 2 && replies[0].Seen? && replies[0].retryAfter != BadHeader
    requires Legal(kind, last, replies[0].status) && !Terminal(kind, replies[0].status)
    ensures Climbs(kind, replies, last, n) <==> Climbs(kind, replies[1..], Some(replies[0].status), n - 1)
  {
    hide Legal, Terminal;
    var rest, next, m := replies[1..], Some(replies[0].status), n - 1;
    if Climbs(kind, replies, last, n) {
      forall i | 0 <= i < m ensures StepOk(kind, rest, next, m, i) {
        assert StepOk(kind, replies, last, n, i + 1);
      }
    }
    if Climbs(kind, rest, next, m) {
      forall i | 0 <= i < n ensures StepOk(kind, replies, last, n, i) {
        if i > 0 { assert StepOk(kind, rest, next, m, i - 1); }
      }
    }
  }

  /**
   Polling returns an object after n polls exactly when the first n statuses climb legally to a terminal one within
   both budgets.
   */
  lemma {:induction false} ReachesExactly(kind: Kind, capPolls: nat, capWait: nat, replies: seq<Reply>,
      last: Option<Status>, count: nat, sleeps: seq<nat>, n: nat)
    requires count < capPolls && n >= 1 && Sum(sleeps) <= capWait
    ensures var p := Polls(kind, capPolls, capWait, replies, last, count, sleeps);
      (p.outcome.Reached? && p.polls == count + n) <==>
      && Climbs(kind, replies, last, n) && count + n <= capPolls
      && Sum(sleeps + Delays(replies[..n - 1])) <= capWait
    decreases |replies|
  {
    hide Sum, Legal, Terminal, AssertTransition;
    var p := Polls(kind, capPolls, capWait, replies, last, count, sleeps);
    if Climbs(kind, replies, last, n) { assert StepOk(kind, replies, last, n, 0); }
    if replies != [] {
      var settled := Settles(kind, capPolls, capWait, last, count + 1, Sum(sleeps), replies[0]);
      PollsOnwards(kind, capPolls, capWait, replies, last, count, sleeps);
      if settled.None? {
        PollsOnwards(kind, capPolls, capWait, replies[1..], Some(replies[0].status), count + 1,
            sleeps + [DelayOf(replies[0])]);
      }
      if n == 1 {
        assert replies[..0] == [] && sleeps + [] == sleeps;
      } else if n <= |replies| {
        DelaysFirst(replies[..n - 1]);
        assert replies[..n - 1][1..] == replies[1..][..n - 2];
        var d := DelayOf(replies[0]);
        assert sleeps + Delays(replies[..n - 1]) == (sleeps + [d]) + Delays(replies[1..][..n - 2]);
        SumAppend(sleeps, d);
        SumGrows(sleeps + [d], Delays(replies[1..][..n - 2]));
        if settled.None? {
          ClimbsStep(kind, replies, last, n);
          ReachesExactly(kind, capPolls, capWait, replies[1..], Some(replies[0].status), count + 1,
              sleeps + [d], n - 1);
        }
      }
    }
  }

  lemma {:induction false} SumGrows(xs: seq<nat>, ys: seq<nat>)
    ensures Sum(xs) <= Sum(xs + ys)
  {
    if ys == [] {
      assert xs + ys == xs;
    } else {
      SumGrows(xs, ys[..|ys| - 1]);
      assert xs + ys == (xs + ys[..|ys| - 1]) + [ys[|ys| - 1]];
      SumAppend(xs + ys[..|ys| - 1], ys[|ys| - 1]);
    }
  }

  lemma {:induction false} PollsOnwards(kind: Kind, capPolls: nat, capWait: nat, replies: seq<Reply>,
      last: Option<Status>, count: nat, sleeps: seq<nat>)
    ensures var p := Polls(kind, capPolls, capWait, replies, last, count, sleeps);
      p.polls >= count && p.polls <= count + |replies| && (p.outcome.Reached? ==> p.polls > count)
    decreases |replies|
  {
    hide Sum, Legal, Terminal;
    if replies != [] && Settles(kind, capPolls, capWait, last, count + 1, Sum(sleeps), replies[0]).None? {
      PollsOnwards(kind, capPolls, capWait, replies[1..], Some(replies[0].status), count + 1,
          sleeps + [DelayOf(replies[0])]);
    }
  }

  /** Along the statuses that led to a returned object the rank rises at every change. */
  lemma ClimbRises(kind: Kind, replies: seq<Reply>, n: nat, i: nat)
    requires Climbs(kind, replies, None, n) && 0 < i < n
    ensures replies[i - 1].Seen? && replies[i].Seen?
    ensures replies[i - 1].status == replies[i].status || Rank(replies[i - 1].status) < Rank(replies[i].status)
  {
    assert StepOk(kind, replies, None, n, i);
    if replies[i - 1].status != replies[i].status { ChangeRises(kind, replies[i - 1].status, replies[i].status); }
  }

  /**
   A whole poll: at most capPolls rounds and capWait seconds of sleep, a returned status is terminal, and capPolls
   replies are enough for it to end.
   */
  lemma {:induction false} PollWithinBudgets(kind: Kind, capPolls: nat, capWait: nat, replies: seq<Reply>)
    requires capPolls >= 1
    ensures var p := Polls(kind, capPolls, capWait, replies, None, 0, []);
      && p.polls <= capPolls && Sum(p.sleeps) <= capWait
      && (p.outcome.Reached? ==> Terminal(kind, p.outcome.status))
      && (|replies| >= capPolls ==> p.outcome != StillPolling)
  {
    hide Polls, Terminal;
    PollingBounded(kind, capPolls, capWait, replies, None, 0, []);
  }

  /**
   A whole poll returns an object after n rounds exactly when the first n statuses climb legally to a terminal one
   within both budgets.
   */
  lemma {:induction false} PollReturnsExactly(kind: Kind, capPolls: nat, capWait: nat, replies: seq<Reply>, n: nat)
    requires capPolls >= 1 && n >= 1
    ensures var p := Polls(kind, capPolls, capWait, replies, None, 0, []);
      (p.outcome.Reached? && p.polls == n) <==>
      Climbs(kind, replies, None, n) && n <= capPolls && Sum(Delays(replies[..n - 1])) <= capWait
  {
    hide Polls, StepOk;
    ReachesExactly(kind, capPolls, capWait, replies, None, 0, [], n);
    if n <= |replies| { assert [] + Delays(replies[..n - 1]) == Delays(replies[..n - 1]); }
  }
}
