/**
 One round of the renewal scheduler, on the clock readings, instants and numbers it meets:
 what a check gives, which sleep follows, and how far apart two checks of a run lie.
 */
module AcmeRenewalSteps {
  import opened Wrappers
  import opened AcmeRenewal

  // ---------------------------------------------------------------- a check

  /** The ends of a window clipped to the end of a certificate. */
  predicate Clipped(instants: Instants, w: Window, notAfter: int, lo: int, hi: int) {
    && hi == (if instants(w.end) <= notAfter then instants(w.end) else notAfter)
    && lo == (if instants(w.start) <= hi then instants(w.start) else hi)
  }

  /** The millisecond nearest to a point of an interval, the later one of two as near. */
  predicate Nearest(lo: int, hi: int, draw: real, ms: int) {
    var x := lo as real + draw * (hi - lo) as real;
    ms as real - 0.5 <= x < ms as real + 0.5
  }

  /** A draw is rounded to the nearest millisecond; 0 gives the start and 1 the end. */
  lemma DrawnNearest(lo: int, hi: int, draw: real)
    ensures forall ms :: Nearest(lo, hi, draw, ms) <==> ms == Drawn(lo, hi, draw)
    ensures Drawn(lo, hi, 0.0) == lo && Drawn(lo, hi, 1.0) == hi
  {
    var x := lo as real + draw * (hi - lo) as real;
    var r := Drawn(lo, hi, draw);
    assert r as real <= x + 0.5 < r as real + 1.0;
    assert 1.0 * (hi - lo) as real == (hi - lo) as real;
  }

  /** A check that ends before its reply: the clock past the certificate's end at a reading, or a failed lookup. */
  lemma CheckRefused(instants: Instants, s: State, r: Round)
    ensures s.notAfter.None? ==> Check(instants, s, r) == Err(Fatal)
    ensures s.notAfter.Some? && (r.t1 > s.notAfter.value || r.t2 > s.notAfter.value) ==>
              Check(instants, s, r) == Err(CertExpired)
    ensures s.notAfter.Some? && r.t1 <= s.notAfter.value && r.t2 <= s.notAfter.value && r.lookup.Some? ==>
              Check(instants, s, r) == Err(r.lookup.value)
    ensures s.notAfter.Some? && r.t1 <= s.notAfter.value && r.t2 <= s.notAfter.value && r.lookup.None?
            && r.t3 > s.notAfter.value ==>
              Check(instants, s, r) == Err(CertExpired)
  {
    hide Select, ClampRetry;
  }

  /** A round whose check gets as far as its reply. */
  predicate Fetches(s: State, r: Round) {
    && s.notAfter.Some? && r.t1 <= s.notAfter.value && r.t2 <= s.notAfter.value && r.lookup.None?
    && r.t3 <= s.notAfter.value
  }

  lemma FetchesExactly(s: State, r: Round)
    ensures FetchAt(s.notAfter, false, r) == if Fetches(s, r) then Some(r.t3) else None
  {
  }

  lemma RefusedReply(instants: Instants, s: State, r: Round)
    requires Fetches(s, r)
    ensures r.reply.Refused? ==> Check(instants, s, r) == Err(r.reply.problem)
    ensures r.reply.Info? && instants(r.reply.window.end) <= instants(r.reply.window.start) ==>
              Check(instants, s, r) == Err(OtherProblem)
  {
    hide Select, ClampRetry;
  }

  /** The draw of a round, when it is one between 0 and 1. */
  predicate GoodDraw(r: Round) {
    r.draw.Some? && 0.0 <= r.draw.value <= 1.0
  }

  lemma SelectMeaning(instants: Instants, notAfter: int, w: Window, previous: Option<Previous>, draw: Option<real>,
      lo: int, hi: int)
    requires Clipped(instants, w, notAfter, lo, hi)
    ensures var sel := Select(instants, notAfter, w, previous, draw);
      match previous
      case Some(Previous(pw, At(ms))) =>
        if pw == w then sel == Ok(if ms < lo then lo else if ms > hi then hi else ms) else Fresh(sel, draw, lo, hi)
      case Some(Previous(pw, Unreadable)) => if pw == w then sel == Err(Fatal) else Fresh(sel, draw, lo, hi)
      case _ => Fresh(sel, draw, lo, hi)
  {
    if draw.Some? { DrawnNearest(lo, hi, draw.value); }
    hide Drawn, Nearest;
  }

  /** A fresh selection: the nearest millisecond to the draw, or a draw that is none. */
  predicate Fresh(sel: Result<int, Problem>, draw: Option<real>, lo: int, hi: int) {
    if draw.Some? && 0.0 <= draw.value <= 1.0 then sel.Ok? && Nearest(lo, hi, draw.value, sel.value)
    else sel == Err(Fatal)
  }

  /**
   A check with a proper window: the instant of the last check, clamped, while the window's text is the same, else the
   draw; due when it has passed or is the certificate's end; and again after 60 to 86400 seconds, or six hours.
   */
  lemma WindowMeaning(instants: Instants, s: State, r: Round, lo: int, hi: int)
    requires Fetches(s, r) && r.reply.Info? && instants(r.reply.window.start) < instants(r.reply.window.end)
    requires Clipped(instants, r.reply.window, s.notAfter.value, lo, hi)
    ensures var check, asked := Check(instants, s, r), r.reply.retryAfter;
      var kept := s.previous.Some? && s.previous.value.window == r.reply.window;
      && (check.Ok? <==> kept || GoodDraw(r)) && (check.Err? ==> check.error == Fatal)
      && (check.Ok? ==>
            var d := check.value;
            && d.window == r.reply.window
            && (d.renewNow <==> d.selected <= r.t5 || d.selected >= s.notAfter.value)
            && d.retryAfter == (if asked.None? then 21600 else if asked.value < 60 then 60
                                else if asked.value > 86400 then 86400 else asked.value)
            && if kept then
                 var ms := s.previous.value.selected;
                 d.selected == if ms < lo then lo else if ms > hi then hi else ms
               else Nearest(lo, hi, r.draw.value, d.selected))
  {
    SelectMeaning(instants, s.notAfter.value, r.reply.window, Kept(s.previous), r.draw, lo, hi);
    hide Select, Nearest, Clipped;
  }

  // ---------------------------------------------------------------- a round

  /** Neither callback nor budget ends a round before its check. */
  predicate GoesToCheck(cfg: Config, s: State, r: Round) {
    && r.stopBefore.GoOn? && (cfg.maxChecks.Some? ==> s.checks < cfg.maxChecks.value)
    && (cfg.maxWaitMs.Some? ==> r.t0 - cfg.startMs < cfg.maxWaitMs.value)
  }

  lemma CheckedExactly(cfg: Config, s: State, r: Round)
    ensures Checks(cfg, s, r) <==> GoesToCheck(cfg, s, r)
  {
  }

  /** What ends a round before its check. */
  lemma EndsBefore(instants: Instants, cfg: Config, s: State, r: Round)
    requires !GoesToCheck(cfg, s, r)
    ensures Step(instants, cfg, s, r) ==
            Done(match r.stopBefore case BadCallback => Thrown case StopNow => Stopped case GoOn => Budget)
  {
    hide Check;
  }

  /** The part of a sleep that the wait budget leaves. */
  predicate Slept(cfg: Config, wanted: nat, t: int, slept: nat) {
    if cfg.maxWaitMs.None? then slept == wanted
    else
      var left := cfg.startMs + cfg.maxWaitMs.value - t;
      slept == if left <= 0 then 0 else if wanted <= left then wanted else left
  }

  /** A round that goes on after a sleep, or ends as its check was the last of the budget. */
  predicate Sleeps(cfg: Config, s: State, r: Round, next: Next, wanted: nat) {
    match next
    case Done(reason) => reason == Budget && cfg.maxChecks == Some(s.checks + 1)
    case Again(t, w, slept) =>
      && cfg.maxChecks != Some(s.checks + 1) && w == wanted && Slept(cfg, wanted, r.t8, slept)
      && t.now == r.t8 + slept && t.checks == s.checks + 1 && t.notAfter == s.notAfter
  }

  /** The sleep after a decision that is not due: until the instant or the next check, whichever comes first. */
  function DecisionWait(d: Decision, t7: int): nat {
    if d.selected <= t7 then 0
    else if d.selected - t7 <= 1000 * d.retryAfter then d.selected - t7 else 1000 * d.retryAfter
  }

  lemma WaitIsDecisionWait(d: Decision, t7: int)
    ensures Max(0, Min(d.selected - t7, d.retryAfter * 1000)) == DecisionWait(d, t7)
  {
  }

  /**
   A round with a decision. A renewal is started, or asked for, exactly when the selected instant has passed or is the
   end of the certificate; otherwise the run keeps the decision and sleeps until the instant or until the next check
   is due, whichever comes first.
   */
  lemma RenewsExactlyWhenDue(instants: Instants, cfg: Config, s: State, r: Round)
    requires GoesToCheck(cfg, s, r) && Check(instants, s, r).Ok?
    ensures var d, next := Check(instants, s, r).value, Step(instants, cfg, s, r);
      var due := d.selected <= r.t5 || d.selected >= s.notAfter.value;
      if r.stopAfter.BadCallback? then next == Done(Thrown)
      else if r.stopAfter.StopNow? then next == Done(Stopped)
      else if cfg.maxWaitMs.Some? && r.t6 - cfg.startMs >= cfg.maxWaitMs.value then next == Done(Budget)
      else if !due then
        && Sleeps(cfg, s, r, next, DecisionWait(d, r.t7))
        && (next.Again? ==> next.state.previous == Some(d) && next.state.backoffMs == cfg.tempBaseMs)
      else if !cfg.renews then next == Done(RenewNow(d))
      else
        match r.renewal
        case RenewFailed => next == Done(Thrown)
        case RenewedNothing => next == Done(Renewed(d))
        case RenewedCert(end) =>
          next == Again(State(end, None, s.checks + 1, cfg.tempBaseMs, r.t6), 0, 0)
  {
    hide Select, ClampRetry;
    WaitIsDecisionWait(Check(instants, s, r).value, r.t7);
  }

  predicate Temporary(p: Problem) {
    match p
    case ServerProblem(status) => status >= 500
    case _ => false
  }

  /**
   A round whose check meets a problem. An expired or replaced certificate and a fatal error end the run. After any
   other the run sleeps the backoff if the server failed for the time being and the backoff is below the long-term
   wait, else the long-term wait; the backoff doubles or starts afresh.
   */
  lemma ProblemLeads(instants: Instants, cfg: Config, s: State, r: Round)
    requires GoesToCheck(cfg, s, r) && Check(instants, s, r).Err?
    ensures var p, next := Check(instants, s, r).error, Step(instants, cfg, s, r);
      if p == CertExpired then next == Done(Expired)
      else if p == CertReplaced then next == Done(Replaced)
      else if p == Fatal then next == Done(Thrown)
      else
        && Sleeps(cfg, s, r, next,
                  if Temporary(p) && s.backoffMs < cfg.longTermMs then s.backoffMs else cfg.longTermMs)
        && (next.Again? ==>
              && next.state.previous == s.previous
              && next.state.backoffMs == if Temporary(p) then s.backoffMs * 2 else cfg.tempBaseMs)
  {
    hide Check;
  }

  // ---------------------------------------------------------------- checks apart

  /** What a round that goes on sleeps, by its log. */
  lemma SleepLogged(instants: Instants, cfg: Config, s: State, r: Round)
    requires Step(instants, cfg, s, r).Again? && OnTime(s, r)
    ensures var l, t := LogOf(instants, cfg, s, r), Step(instants, cfg, s, r).state;
      && t.now >= (if l.renewed then r.t6 else r.t8 + l.slept)
      && (cfg.maxWaitMs.None? ==> l.slept == l.wanted)
      && (l.decision.Some? && !l.renewed ==> l.wanted == DecisionWait(l.decision.value, r.t7))
  {
    hide WindowDecision, FetchAt;
    var check := Check(instants, s, r);
    if check.Ok? { WaitIsDecisionWait(check.value, r.t7); }
    hide DecisionWait;
  }

  /**
   In every run without a wait budget two successive checks, no certificate installed between them, lie at least the
   wanted sleep apart: after a decision, the time left to its instant or until the next check is due.
   */
  lemma {:induction false} ChecksApart(instants: Instants, cfg: Config, s: State, rounds: seq<Round>, i: nat)
    requires Timely(instants, cfg, s, rounds) && cfg.maxWaitMs.None?
    requires i + 1 < |Run(instants, cfg, s, rounds).log| && !Run(instants, cfg, s, rounds).log[i].renewed
    ensures var l := Run(instants, cfg, s, rounds).log[i];
      && i + 1 < |rounds| && rounds[i + 1].t0 >= rounds[i].t8 + l.wanted
      && (l.decision.Some? ==> rounds[i + 1].t0 >= rounds[i].t8 + DecisionWait(l.decision.value, rounds[i].t7))
    decreases i
  {
    var r := rounds[0];
    SleepLogged(instants, cfg, s, r);
    var next := Step(instants, cfg, s, r);
    hide Step, LogOf, DecisionWait;
    if i == 0 {
      NextRound(instants, cfg, next.state, rounds[1..]);
    } else {
      ChecksApart(instants, cfg, next.state, rounds[1..], i - 1);
    }
  }

  lemma NextRound(instants: Instants, cfg: Config, s: State, rounds: seq<Round>)
    requires Timely(instants, cfg, s, rounds) && Run(instants, cfg, s, rounds).log != []
    ensures rounds != [] && rounds[0].t0 >= s.now
  {
    hide Step, LogOf;
  }
}
