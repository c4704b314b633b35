/**
 The tables of section 7.1.6 of RFC 8555 written out edge by edge, and what polling makes of
 the usual sequences of statuses.
 */
module AcmePollTables {
  import opened Wrappers
  import opened AcmePoll

  // ---------------------------------------------------------------- the edges

  /** The changes of status of the three state machines. */
  const CHANGES: set<(Kind, Status, Status)> := {
    (Challenge, Pending, Processing), (Challenge, Pending, Valid), (Challenge, Pending, Invalid),
    (Challenge, Processing, Valid), (Challenge, Processing, Invalid),
    (Authorization, Pending, Valid), (Authorization, Pending, Invalid), (Authorization, Pending, Deactivated),
    (Authorization, Valid, Expired), (Authorization, Valid, Deactivated), (Authorization, Valid, Revoked),
    (Order, Pending, Ready), (Order, Pending, Invalid),
    (Order, Ready, Processing), (Order, Ready, Valid), (Order, Ready, Invalid),
    (Order, Processing, Valid), (Order, Processing, Invalid)
  }

  /** A change is legal exactly when it is one of these, and staying put always is; other kinds are refused as such. */
  lemma LegalExactly(kind: Kind, from: Status, to: Status)
    ensures AssertTransition(kind, from, to) ==
            if kind == UnknownKind then Err(BadInput)
            else if from == to || (kind, from, to) in CHANGES then Ok(())
            else Err(BadTransition)
  {
  }

  /** Polling an order ends at ready, valid and invalid; polling an authorization at every status but pending. */
  lemma TerminalExactly(s: Status)
    ensures Terminal(Order, s) <==>
            !s.Foreign? && s != Pending && s != Processing && s != Deactivated && s != Expired && s != Revoked
    ensures Terminal(Authorization, s) <==> !s.Foreign? && s != Pending && s != Processing && s != Ready
  {
  }

  // ---------------------------------------------------------------- waiting for a status

  /** The seconds each header asks for: its number, one second when it gives none. */
  function Seconds(headers: seq<RetryAfter>): seq<nat> {
    seq(|headers|, i requires 0 <= i < |headers| =>
        match headers[i]
        case Delay(n) => n
        case _ => 1)
  }

  /** The same status once for each header, then one more reply. */
  function Awaiting(from: Status, headers: seq<RetryAfter>, last: Reply): seq<Reply> {
    seq(|headers|, i requires 0 <= i < |headers| => Seen(from, headers[i])) + [last]
  }

  predicate NoneBad(headers: seq<RetryAfter>) {
    forall i :: 0 <= i < |headers| ==> headers[i] != BadHeader
  }

  lemma TotalGrows(xs: seq<nat>, k: nat)
    requires k <= |xs|
    ensures Sum(xs[..k]) <= Sum(xs)
  {
    SumGrows(xs[..k], xs[k..]);
    assert xs[..k] + xs[k..] == xs;
  }

  /** One poll whose reply settles nothing. */
  lemma GoesOn(kind: Kind, capPolls: nat, capWait: nat, replies: seq<Reply>, last: Option<Status>, count: nat,
      sleeps: seq<nat>)
    requires replies != [] && replies[0].Seen? && replies[0].retryAfter != BadHeader
    requires kind != UnknownKind && (last == None || last == Some(replies[0].status))
    requires !Terminal(kind, replies[0].status)
    requires count + 1 < capPolls && Sum(sleeps) + DelayOf(replies[0]) <= capWait
    ensures Polls(kind, capPolls, capWait, replies, last, count, sleeps) ==
            Polls(kind, capPolls, capWait, replies[1..], Some(replies[0].status), count + 1,
                sleeps + [DelayOf(replies[0])])
  {
    hide Sum, Terminal, DelayOf;
  }

  /** The seconds slept are those of the first sleep and of the others. */
  lemma {:induction false} SumFromFront(x: nat, xs: seq<nat>)
    ensures Sum([]) == 0 && Sum([x] + xs) == x + Sum(xs)
    decreases |xs|
  {
    if xs == [] {
      assert [x] + [] == [x] && [x][..0] == [];
    } else {
      SumFromFront(x, xs[..|xs| - 1]);
      assert ([x] + xs)[..|xs|] == [x] + xs[..|xs| - 1];
    }
  }

  /** While the status stays put polling sleeps what each header asks for and goes on. */
  lemma {:induction false} Waits(kind: Kind, capPolls: nat, capWait: nat, from: Status, headers: seq<RetryAfter>,
      last: Reply, k: nat)
    requires kind != UnknownKind && !Terminal(kind, from) && NoneBad(headers)
    requires |headers| < capPolls && Sum(Seconds(headers)) <= capWait && k <= |headers|
    ensures var replies := Awaiting(from, headers, last);
      Polls(kind, capPolls, capWait, replies, None, 0, []) ==
      Polls(kind, capPolls, capWait, replies[k..], if k == 0 then None else Some(from), k, Seconds(headers)[..k])
    decreases k
  {
    hide Polls, Sum, Terminal;
    var replies, secs := Awaiting(from, headers, last), Seconds(headers);
    assert replies[0..] == replies && secs[..0] == [];
    if k > 0 {
      var j := k - 1;
      Waits(kind, capPolls, capWait, from, headers, last, j);
      assert replies[j..][0] == Seen(from, headers[j]) && replies[j..][1..] == replies[k..];
      assert secs[..k] == secs[..j] + [secs[j]];
      SumAppend(secs[..j], secs[j]);
      TotalGrows(secs, k);
      assert DelayOf(replies[j]) == secs[j] && headers[j] != BadHeader;
      hide Awaiting, Seconds, NoneBad, DelayOf;
      GoesOn(kind, capPolls, capWait, replies[j..], if j == 0 then None else Some(from), j, secs[..j]);
    }
  }

  /** The change asked about is in the table, or there is none to ask about. */
  predicate Follows(kind: Kind, from: Status, to: Status, waited: nat) {
    waited == 0 || from == to || (kind, from, to) in CHANGES
  }

  /**
   A status that stays put for any number of polls and then changes. Within the budgets polling returns the new status
   if it is terminal and the change is in the table, after one poll more than it waited and with every sleep the
   replies asked for; a change that is not in the table is refused.
   */
  lemma WaitsThenReturns(kind: Kind, capPolls: nat, capWait: nat, from: Status, headers: seq<RetryAfter>, to: Status,
      after: RetryAfter)
    requires (kind == Order || kind == Authorization) && !Terminal(kind, from) && NoneBad(headers)
    requires |headers| < capPolls && Sum(Seconds(headers)) <= capWait
    ensures var n := |headers|;
      var p := Polls(kind, capPolls, capWait, Awaiting(from, headers, Seen(to, after)), None, 0, []);
      if !Follows(kind, from, to, n) then p == Polling(IllegalTransition, n + 1, Seconds(headers))
      else Terminal(kind, to) ==> p == Polling(Reached(to), n + 1, Seconds(headers))
  {
    var n, replies, secs := |headers|, Awaiting(from, headers, Seen(to, after)), Seconds(headers);
    Waits(kind, capPolls, capWait, from, headers, Seen(to, after), n);
    assert replies[n..] == [Seen(to, after)] && secs[..n] == secs;
    LegalExactly(kind, from, to);
    hide Sum, Terminal, Awaiting, Seconds, NoneBad, AssertTransition, DelayOf;
  }

  /** The ways an order and an authorization are waited for. */
  lemma UsualWaits(capPolls: nat, capWait: nat, headers: seq<RetryAfter>, after: RetryAfter, to: Status)
    requires NoneBad(headers) && |headers| < capPolls && Sum(Seconds(headers)) <= capWait
    ensures to == Valid || to == Invalid ==>
              Polls(Order, capPolls, capWait, Awaiting(Processing, headers, Seen(to, after)), None, 0, []) ==
              Polling(Reached(to), |headers| + 1, Seconds(headers))
    ensures to == Ready || to == Invalid ==>
              Polls(Order, capPolls, capWait, Awaiting(Pending, headers, Seen(to, after)), None, 0, []) ==
              Polling(Reached(to), |headers| + 1, Seconds(headers))
    ensures to == Valid || to == Invalid || to == Deactivated ==>
              Polls(Authorization, capPolls, capWait, Awaiting(Pending, headers, Seen(to, after)), None, 0, []) ==
              Polling(Reached(to), |headers| + 1, Seconds(headers))
    ensures to == Valid && headers != [] ==>
              Polls(Order, capPolls, capWait, Awaiting(Pending, headers, Seen(to, after)), None, 0, []) ==
              Polling(IllegalTransition, |headers| + 1, Seconds(headers))
  {
    hide Polls, Sum, Seconds, Awaiting, NoneBad;
    WaitsThenReturns(Order, capPolls, capWait, Processing, headers, to, after);
    WaitsThenReturns(Order, capPolls, capWait, Pending, headers, to, after);
    WaitsThenReturns(Authorization, capPolls, capWait, Pending, headers, to, after);
  }

  /** An order first seen ready, valid or invalid is returned at once, with no sleep. */
  lemma ReturnedAtOnce(capPolls: nat, capWait: nat, to: Status, after: RetryAfter, rest: seq<Reply>)
    requires capPolls >= 1 && to in {Ready, Valid, Invalid}
    ensures Polls(Order, capPolls, capWait, [Seen(to, after)] + rest, None, 0, []) == Polling(Reached(to), 1, [])
  {
    assert ([Seen(to, after)] + rest)[0] == Seen(to, after);
  }
}
