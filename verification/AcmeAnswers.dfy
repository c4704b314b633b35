/**
 What a reply to a POST leads to, in every run: an answer, another POST, or an error. The
 tests on a reply are written out on its status, its content type and its problem document.
 */
module AcmeAnswers {
  import opened Wrappers
  import opened AcmeNonce

  /** A problem document whose type ends in a text. */
  ghost predicate Reports(r: Reply, text: string) {
    && r.isProblem && r.problem.Some? && r.problem.value.kind.Some?
    && exists front: string :: r.problem.value.kind.value == front + text
  }

  lemma ReportsExactly(r: Reply, text: string)
    ensures HasKind(r, text) <==> Reports(r, text)
  {
    if HasKind(r, text) {
      var k := r.problem.value.kind.value;
      assert k == k[..|k| - |text|] + text;
    }
    if Reports(r, text) {
      var k := r.problem.value.kind.value;
      var front: string :| k == front + text;
      assert k[|k| - |text|..] == text;
    }
  }

  /** Some key kept to sign again with has an alg that the reply's problem lists. */
  ghost predicate OffersKey(resignKeys: Option<seq<Key>>, r: Reply) {
    && resignKeys.Some? && r.problem.Some? && r.problem.value.algorithms.Some?
    && exists k :: k in resignKeys.value && k.alg in r.problem.value.algorithms.value
  }

  lemma {:induction false} SomeAdvertised(listed: seq<Key>, advertised: seq<string>)
    ensures FirstAdvertised(listed, advertised).Some? <==> exists k :: k in listed && k.alg in advertised
    decreases |listed|
  {
    if listed != [] {
      SomeAdvertised(listed[1..], advertised);
      assert listed == [listed[0]] + listed[1..];
      assert listed[0] in listed;
      assert forall k :: k in listed <==> k == listed[0] || k in listed[1..];
    }
  }

  lemma OffersExactly(resignKeys: Option<seq<Key>>, r: Reply)
    requires r.problem.Some?
    ensures ChooseResign(resignKeys, r.problem.value.algorithms).Some? <==> OffersKey(resignKeys, r)
  {
    hide FirstAdvertised;
    if resignKeys.Some? && r.problem.value.algorithms.Some? {
      SomeAdvertised(resignKeys.value, r.problem.value.algorithms.value);
    }
  }

  // ---------------------------------------------------------------- what a call keeps

  /** POSTs sent are the first try, the retries and the one signing again; an answer has an expected status. */
  ghost predicate Tally(c: Call) {
    && c.resignAttempt <= 1 && (c.resign.Some? <==> c.resignAttempt == 1)
    && (c.phase.Taking? || c.phase.Fetching? || c.phase.Holding? ==> |c.posts| == c.attempt + c.resignAttempt)
    && (c.phase.Posted? ==> |c.posts| == 1 + c.attempt + c.resignAttempt)
    && (c.phase.Returned? ==> c.phase.status in c.okStatuses && c.phase.status < 300)
  }

  ghost predicate Tallied(s: State, c: nat) {
    c in s.calls ==> Tally(s.calls[c])
  }

  lemma TallyReply(max: nat, c: Call, r: Reply, resignKeys: Option<seq<Key>>)
    requires Tally(c) && c.phase == Posted
    ensures Tally(AfterPost(c, r, max, resignKeys))
  {
    hide HasKind, ChooseResign;
  }

  lemma TallyHead(s: State, call: nat, ok: bool, c: nat)
    requires Tallied(s, c) && InPhase(s, call, Fetching)
    ensures Tallied(AfterHead(s, call, ok), c)
  {
  }

  lemma TallySign(s: State, call: nat, c: nat)
    requires Tallied(s, c) && call in s.calls && s.calls[call].phase.Holding?
    ensures Tallied(SignAndPost(s, call), c)
  {
    hide SigningKey;
  }

  lemma TallyAbort(s: State, call: nat, c: nat)
    requires Tallied(s, c) && call in s.calls
    ensures Tallied(AbortCall(s, call), c)
  {
    if call == c { TallyFailed(s.calls[c]); }
    hide Tally;
  }

  lemma TallyFailed(c: Call)
    requires Tally(c)
    ensures Tally(c.(phase := Failed))
  {
  }

  lemma TallyStep(max: nat, s: State, ev: Event, c: nat)
    requires Tallied(s, c)
    ensures Tallied(Step(max, s, ev), c)
  {
    hide AfterPost, AfterHead, SignAndPost, AbortCall, WithRoom;
    if ev.HeadDone? && InPhase(s, ev.call, Fetching) {
      TallyHead(s, ev.call, ev.ok, c);
    } else if ev.Sign? && Holds(s, ev.call) {
      TallySign(s, ev.call, c);
    } else if ev.PostDone? && ev.call == c && InPhase(s, c, Posted) {
      TallyReply(max, s.calls[c], ev.reply, s.resignKeys);
    } else if ev.Abort? && ev.call in s.calls {
      TallyAbort(s, ev.call, c);
    }
  }

  lemma {:induction false} TallyRun(max: nat, s: State, es: seq<Event>, c: nat)
    requires Tallied(s, c)
    ensures Tallied(Run(max, s, es), c)
    decreases |es|
  {
    hide Step, Tallied;
    if es != [] {
      TallyStep(max, s, es[0], c);
      TallyRun(max, Step(max, s, es[0]), es[1..], c);
    }
  }

  // ---------------------------------------------------------------- replies

  lemma ReplyLeads(max: nat, c: Call, r: Reply, resignKeys: Option<seq<Key>>)
    requires Tally(c) && c.phase == Posted
    ensures var d, again := AfterPost(c, r, max, resignKeys), if c.resign.Some? then 1 else 0;
      && d.posts == c.posts
      && (forall st :: d.phase == Returned(st) <==>
            st == r.status && st < 300 && st in c.okStatuses && !r.isProblem)
      && (d.phase == Taking <==>
            || (Reports(r, ":badNonce") && |c.posts| - again <= max)
            || (Reports(r, ":badSignatureAlgorithm") && c.signer.Account? && again == 0 && OffersKey(resignKeys, r)))
      && (d.phase.Returned? || d.phase == Taking || d.phase == Failed)
  {
    ReportsExactly(r, ":badNonce");
    ReportsExactly(r, ":badSignatureAlgorithm");
    KindsApart(r);
    if r.problem.Some? { OffersExactly(resignKeys, r); }
    assert HasKind(r, ":badNonce") ==> r.isProblem;
    assert HasKind(r, ":badSignatureAlgorithm") ==> r.isProblem && r.problem.Some?;
    hide HasKind, Reports, ChooseResign, OffersKey;
  }

  /**
   In every run a reply to a POST is the call's answer exactly when its status is below 300 and one of those the call
   expects and it is no problem document. It leads to another POST exactly when it reports a bad nonce and, the one
   signing again aside, no more than maxNonceRetries POSTs have been sent, or reports a refused algorithm to an
   account request that has not signed again and one of the keys kept is offered. Any other reply fails the call.
   */
  lemma {:induction false} ReplySettles(max: nat, account: Key, resignKeys: Option<seq<Key>>, es: seq<Event>, c: nat,
      r: Reply)
    requires InPhase(Run(max, Init(account, resignKeys), es), c, Posted)
    ensures var s := Run(max, Init(account, resignKeys), es);
      var t := Step(max, s, PostDone(c, r));
      && c in t.calls
      && var call, d, again := s.calls[c], t.calls[c], if s.calls[c].resign.Some? then 1 else 0;
         && d.posts == call.posts
         && (forall st :: d.phase == Returned(st) <==>
               st == r.status && st < 300 && st in call.okStatuses && !r.isProblem)
         && (d.phase == Taking <==>
               || (Reports(r, ":badNonce") && |call.posts| - again <= max)
               || (&& Reports(r, ":badSignatureAlgorithm") && call.signer.Account? && again == 0
                   && OffersKey(s.resignKeys, r)))
         && (d.phase.Returned? || d.phase == Taking || d.phase == Failed)
  {
    hide Run, AfterPost, Reports, OffersKey;
    TallyRun(max, Init(account, resignKeys), es, c);
    var s := Run(max, Init(account, resignKeys), es);
    ReplyLeads(max, s.calls[c], r, s.resignKeys);
  }

  /** In every run a call that has its answer expected the status of it. */
  lemma {:induction false} AnswersExpected(max: nat, account: Key, resignKeys: Option<seq<Key>>, es: seq<Event>, c: nat,
      st: int)
    requires InPhase(Run(max, Init(account, resignKeys), es), c, Returned(st))
    ensures st in Run(max, Init(account, resignKeys), es).calls[c].okStatuses && st < 300
  {
    hide Run;
    TallyRun(max, Init(account, resignKeys), es, c);
  }

  // ---------------------------------------------------------------- calls over a run

  /** A call keeps what it was begun with, and once answered or failed it stays so. */
  ghost predicate Continues(a: Call, b: Call) {
    && b.signer == a.signer && b.okStatuses == a.okStatuses && a.posts <= b.posts
    && (a.phase.Returned? || a.phase.Failed? ==> b == a)
  }

  lemma ContinuesOn(a: Call, b: Call, c: Call)
    requires Continues(a, b) && Continues(b, c)
    ensures Continues(a, c)
  {
  }

  lemma ReplyContinues(max: nat, c: Call, r: Reply, resignKeys: Option<seq<Key>>)
    requires c.phase == Posted
    ensures Continues(c, AfterPost(c, r, max, resignKeys))
  {
    hide HasKind, ChooseResign;
  }

  lemma HeadContinues(s: State, call: nat, ok: bool, c: nat)
    requires c in s.calls && InPhase(s, call, Fetching)
    ensures c in AfterHead(s, call, ok).calls && Continues(s.calls[c], AfterHead(s, call, ok).calls[c])
  {
  }

  lemma SignContinues(s: State, call: nat, c: nat)
    requires c in s.calls && Holds(s, call)
    ensures c in SignAndPost(s, call).calls && Continues(s.calls[c], SignAndPost(s, call).calls[c])
  {
    hide SigningKey;
  }

  lemma AbortContinues(s: State, call: nat, c: nat)
    requires c in s.calls && call in s.calls
    ensures c in AbortCall(s, call).calls && Continues(s.calls[c], AbortCall(s, call).calls[c])
    ensures call == c && !s.calls[c].phase.Returned? ==> AbortCall(s, call).calls[c].phase == Failed
  {
    AbortEffect(s, call);
    StaysItself(s.calls[c]);
    if !s.calls[c].phase.Returned? { FailsOn(s.calls[c]); }
    hide Continues, AbortCall;
  }

  lemma AbortEffect(s: State, call: nat)
    requires call in s.calls
    ensures AbortCall(s, call).calls ==
            if s.calls[call].phase.Returned? then s.calls else s.calls[call := s.calls[call].(phase := Failed)]
  {
  }

  lemma FailsOn(c: Call)
    requires !c.phase.Returned?
    ensures Continues(c, c.(phase := Failed))
  {
  }

  lemma StepContinues(max: nat, s: State, ev: Event, c: nat)
    requires c in s.calls
    ensures c in Step(max, s, ev).calls && Continues(s.calls[c], Step(max, s, ev).calls[c])
  {
    hide AfterPost, AfterHead, SignAndPost, AbortCall, WithRoom;
    if ev.HeadDone? && InPhase(s, ev.call, Fetching) {
      HeadContinues(s, ev.call, ev.ok, c);
    } else if ev.Sign? && Holds(s, ev.call) {
      SignContinues(s, ev.call, c);
    } else if ev.PostDone? && ev.call == c && InPhase(s, c, Posted) {
      ReplyContinues(max, s.calls[c], ev.reply, s.resignKeys);
    } else if ev.Abort? && ev.call in s.calls {
      AbortContinues(s, ev.call, c);
    }
  }

  /**
   Over every run a call keeps its signer, its expected statuses and the POSTs it has sent, and an answer or a
   failure is final.
   */
  lemma {:induction false} RunContinues(max: nat, s: State, es: seq<Event>, c: nat)
    requires c in s.calls
    ensures c in Run(max, s, es).calls && Continues(s.calls[c], Run(max, s, es).calls[c])
    decreases |es|
  {
    hide Step, Continues;
    if es == [] {
      StaysItself(s.calls[c]);
    } else {
      var t := Step(max, s, es[0]);
      StepContinues(max, s, es[0], c);
      RunContinues(max, t, es[1..], c);
      ContinuesOn(s.calls[c], t.calls[c], Run(max, t, es[1..]).calls[c]);
    }
  }

  lemma StaysItself(c: Call)
    ensures Continues(c, c)
  {
  }

  // ---------------------------------------------------------------- the account key

  predicate ChangesKey(ev: Event) {
    ev.ChangeKey?
  }

  lemma KeyStep(max: nat, s: State, ev: Event)
    requires !ChangesKey(ev)
    ensures Step(max, s, ev).account == s.account && Step(max, s, ev).resignKeys == s.resignKeys
  {
    hide AfterPost, WithRoom, SigningKey, InPhase;
  }

  /** From a change of key on, until the next, that key is in force and there are no keys to sign again with. */
  lemma {:induction false} KeyInForce(max: nat, s: State, key: Key, es: seq<Event>)
    requires forall ev :: ev in es ==> !ChangesKey(ev)
    ensures var t := Run(max, s, [ChangeKey(key)] + es);
      t.account == key && t.resignKeys == None
  {
    hide Step, ChangesKey;
    var all := [ChangeKey(key)] + es;
    assert all[0] == ChangeKey(key) && all[1..] == es;
    ChangeTakes(max, s, key);
    KeyKept(max, Step(max, s, ChangeKey(key)), es);
  }

  lemma ChangeTakes(max: nat, s: State, key: Key)
    ensures Step(max, s, ChangeKey(key)).account == key && Step(max, s, ChangeKey(key)).resignKeys == None
  {
  }

  lemma {:induction false} KeyKept(max: nat, s: State, es: seq<Event>)
    requires forall ev :: ev in es ==> !ChangesKey(ev)
    ensures Run(max, s, es).account == s.account && Run(max, s, es).resignKeys == s.resignKeys
    decreases |es|
  {
    hide Step, ChangesKey;
    if es != [] {
      assert es[0] in es;
      KeyStep(max, s, es[0]);
      KeyKept(max, Step(max, s, es[0]), es[1..]);
    }
  }
}
