/**
 Whole runs of the renewal scheduler, for every list of rounds on a clock that never runs
 backwards and that a sleep advances by at least its length.
 */
module AcmeRenewalRuns {
  import opened Wrappers
  import opened AcmeRenewal
  import opened Radix

  /** No renew callback, or one that never returns a new certificate. */
  predicate NoNewCertificate(cfg: Config, rounds: seq<Round>) {
    !cfg.renews || forall r :: r in rounds ==> !r.renewal.RenewedCert?
  }

  // ---------------------------------------------------------------- termination

  /** A round that does not end the run advances the clock, unless it has used up the wait budget. */
  lemma RoundAdvances(instants: Instants, cfg: Config, s: State, r: Round)
    requires ConfigOk(cfg) && s.backoffMs >= 1000 && OnTime(s, r) && Step(instants, cfg, s, r).Again?
    requires !cfg.renews || !r.renewal.RenewedCert?
    ensures var t := Step(instants, cfg, s, r).state;
      && s.notAfter.Some? && s.now <= s.notAfter.value && t.notAfter == s.notAfter
      && t.backoffMs >= 1000 && s.now <= t.now
      && (t.now > s.now || OutOfTime(cfg, t.now))
  {
    hide Select;
    var check := Check(instants, s, r);
    if check.Ok? { RetryClamped(instants, s, r); }
  }

  /** A check comes back after 60 to 86400 seconds, the server's own number when it lies between. */
  lemma RetryClamped(instants: Instants, s: State, r: Round)
    requires Check(instants, s, r).Ok?
    ensures var d, asked := Check(instants, s, r).value, r.reply.retryAfter;
      && 60 <= d.retryAfter <= 86400
      && (asked.Some? && 60 <= asked.value <= 86400 ==> d.retryAfter == asked.value)
      && (asked.None? ==> d.retryAfter == 6 * 60 * 60)
  {
    hide Select;
  }

  /** Rounds after which a run is over: one for each millisecond of validity left, and two. */
  function EnoughRounds(s: State): nat {
    if s.notAfter.None? || s.now > s.notAfter.value then 1 else s.notAfter.value - s.now + 2
  }

  /**
   With no new certificate every run ends, whatever the budgets: there is no list of rounds as long as this that
   leaves it going.
   */
  lemma {:induction false} RunEnds(instants: Instants, cfg: Config, s: State, rounds: seq<Round>)
    requires ConfigOk(cfg) && s.backoffMs >= 1000 && Timely(instants, cfg, s, rounds) && NoNewCertificate(cfg, rounds)
    requires |rounds| >= EnoughRounds(s) || (|rounds| >= 1 && OutOfTime(cfg, s.now))
    ensures Run(instants, cfg, s, rounds).reason.Some?
    decreases |rounds|
  {
    var next := Step(instants, cfg, s, rounds[0]);
    if next.Again? {
      assert rounds[0] in rounds;
      RoundAdvances(instants, cfg, s, rounds[0]);
      if !OutOfTime(cfg, s.now) {
        hide Step;
        RunEnds(instants, cfg, next.state, rounds[1..]);
      }
    }
  }

  /** Milliseconds from the start to the end of a certificate's validity. */
  function ValidityLeft(cfg: Config, notAfter: Option<int>): nat {
    if notAfter.None? then 0 else Max(0, notAfter.value - cfg.startMs)
  }

  /** A run from the start ends within one round for each millisecond of the certificate's validity, and two. */
  lemma {:induction false} SchedulerTerminates(instants: Instants, cfg: Config, notAfter: Option<int>,
      rounds: seq<Round>)
    requires ConfigOk(cfg) && Timely(instants, cfg, Init(cfg, notAfter), rounds) && NoNewCertificate(cfg, rounds)
    requires |rounds| >= ValidityLeft(cfg, notAfter) + 2
    ensures Run(instants, cfg, Init(cfg, notAfter), rounds).reason.Some?
  {
    hide Run, Timely;
    RunEnds(instants, cfg, Init(cfg, notAfter), rounds);
  }

  /** With a budget of checks every run ends, whatever the callback returns. */
  lemma {:induction false} CheckBudgetEnds(instants: Instants, cfg: Config, s: State, rounds: seq<Round>)
    requires cfg.maxChecks.Some? && |rounds| >= 1 && |rounds| + s.checks > cfg.maxChecks.value
    ensures Run(instants, cfg, s, rounds).reason.Some?
    decreases |rounds|
  {
    hide Check;
    var next := Step(instants, cfg, s, rounds[0]);
    if next.Again? { CheckBudgetEnds(instants, cfg, next.state, rounds[1..]); }
  }

  /** With a wait budget every run ends in which each check takes a millisecond, whatever the callback returns. */
  lemma {:induction false} WaitBudgetEnds(instants: Instants, cfg: Config, s: State, rounds: seq<Round>)
    requires cfg.maxWaitMs.Some? && Timely(instants, cfg, s, rounds) && forall r :: r in rounds ==> r.t0 < r.t6
    requires |rounds| >= 1 && |rounds| + s.now - cfg.startMs > cfg.maxWaitMs.value
    ensures Run(instants, cfg, s, rounds).reason.Some?
    decreases |rounds|
  {
    hide Check;
    assert rounds[0] in rounds;
    var next := Step(instants, cfg, s, rounds[0]);
    if next.Again? { WaitBudgetEnds(instants, cfg, next.state, rounds[1..]); }
  }

  /** A round at one time that is told to renew at once and returns another certificate that ends when this one does. */
  function SpinRound(t: int, w: Window, notAfter: Option<int>): Round {
    Round(GoOn, t, t, t, None, t, Info(w, None), Some(0.0), t, GoOn, t, RenewedCert(notAfter), t, t)
  }

  /** A certificate still valid, a window the server may send, and its start no later than the clock. */
  predicate Due(instants: Instants, s: State, w: Window) {
    && s.notAfter.Some? && s.now <= s.notAfter.value && s.previous == None
    && WindowOk(instants, w) && instants(w.start) <= s.now
  }

  lemma SpinStep(instants: Instants, cfg: Config, s: State, w: Window)
    requires cfg.renews && cfg.maxChecks.None? && !OutOfTime(cfg, s.now) && Due(instants, s, w)
    ensures Step(instants, cfg, s, SpinRound(s.now, w, s.notAfter)) ==
            Again(s.(checks := s.checks + 1, backoffMs := cfg.tempBaseMs), 0, 0)
  {
    var lo, hi := EffStart(instants, w, s.notAfter.value), EffEnd(instants, w, s.notAfter.value);
    assert Drawn(lo, hi, 0.0) == lo;
  }

  /**
   Without a budget of checks, and with a callback that keeps returning certificates due at once, no number of rounds
   ends the run, whatever the wait budget: the clock need not move. Every reply of these rounds is a window that ends
   after it starts.
   */
  lemma {:induction false} RenewalsNeedNotEnd(instants: Instants, cfg: Config, s: State, w: Window, n: nat)
    requires cfg.renews && cfg.maxChecks.None? && !OutOfTime(cfg, s.now) && Due(instants, s, w)
    ensures var rounds := seq(n, i => SpinRound(s.now, w, s.notAfter));
      Timely(instants, cfg, s, rounds) && Run(instants, cfg, s, rounds).reason == None
    decreases n
  {
    if n > 0 {
      var r := SpinRound(s.now, w, s.notAfter);
      var rounds := seq(n, i => r);
      SpinStep(instants, cfg, s, w);
      assert OnTime(s, r);
      hide Step, OutOfTime, SpinRound;
      var t := s.(checks := s.checks + 1, backoffMs := cfg.tempBaseMs);
      RenewalsNeedNotEnd(instants, cfg, t, w, n - 1);
      assert rounds[0] == r && rounds[1..] == seq(n - 1, i => r);
    }
  }

  /** No run from the start is still going after so many rounds. */
  ghost predicate EndsWithin(instants: Instants, cfg: Config, notAfter: Option<int>, bound: nat) {
    forall rounds: seq<Round> :: |rounds| >= bound && Timely(instants, cfg, Init(cfg, notAfter), rounds) ==>
      Run(instants, cfg, Init(cfg, notAfter), rounds).reason.Some?
  }

  ghost predicate RunsBounded(instants: Instants, cfg: Config, notAfter: Option<int>) {
    exists bound: nat :: EndsWithin(instants, cfg, notAfter, bound)
  }

  /** A certificate that a run from the start does not get past: it does not parse, or has expired. */
  predicate Unusable(cfg: Config, notAfter: Option<int>) {
    notAfter.None? || notAfter.value < cfg.startMs
  }

  /**
   The runs for a certificate are bounded exactly when there is no renew callback, or there is a budget of checks, or
   the certificate is unusable at the start. w is any window that has begun by then.
   */
  lemma BoundedExactly(instants: Instants, cfg: Config, notAfter: Option<int>, w: Window)
    requires ConfigOk(cfg) && WindowOk(instants, w) && instants(w.start) <= cfg.startMs
    ensures RunsBounded(instants, cfg, notAfter) <==> !cfg.renews || cfg.maxChecks.Some? || Unusable(cfg, notAfter)
  {
    hide Run, Timely, Step;
    if cfg.maxChecks.Some? {
      forall rounds: seq<Round> | |rounds| >= cfg.maxChecks.value + 1
        ensures Run(instants, cfg, Init(cfg, notAfter), rounds).reason.Some?
      {
        CheckBudgetEnds(instants, cfg, Init(cfg, notAfter), rounds);
      }
      assert EndsWithin(instants, cfg, notAfter, cfg.maxChecks.value + 1);
    } else if !cfg.renews {
      var bound: nat := ValidityLeft(cfg, notAfter) + 2;
      forall rounds: seq<Round> | |rounds| >= bound && Timely(instants, cfg, Init(cfg, notAfter), rounds)
        ensures Run(instants, cfg, Init(cfg, notAfter), rounds).reason.Some?
      {
        SchedulerTerminates(instants, cfg, notAfter, rounds);
      }
      assert EndsWithin(instants, cfg, notAfter, bound);
    } else if Unusable(cfg, notAfter) {
      forall rounds: seq<Round> | |rounds| >= 1 && Timely(instants, cfg, Init(cfg, notAfter), rounds)
        ensures Run(instants, cfg, Init(cfg, notAfter), rounds).reason.Some?
      {
        UnusableEnds(instants, cfg, Init(cfg, notAfter), rounds);
      }
      assert EndsWithin(instants, cfg, notAfter, 1);
    } else {
      forall bound: nat ensures !EndsWithin(instants, cfg, notAfter, bound) {
        RenewalsNeedNotEnd(instants, cfg, Init(cfg, notAfter), w, bound);
      }
    }
  }

  lemma UnusableEnds(instants: Instants, cfg: Config, s: State, rounds: seq<Round>)
    requires |rounds| >= 1 && Timely(instants, cfg, s, rounds)
    requires s.notAfter.None? || s.notAfter.value < s.now
    ensures Run(instants, cfg, s, rounds).reason.Some?
  {
    assert OnTime(s, rounds[0]);
    assert Check(instants, s, rounds[0]) == Err(if s.notAfter.None? then Fatal else CertExpired);
  }

  /**
   The scheduler ends for every certificate exactly when it has no renew callback or a budget of checks: the two
   options a caller sets beforehand decide it.
   */
  lemma EndsExactly(instants: Instants, cfg: Config, w: Window)
    requires ConfigOk(cfg) && WindowOk(instants, w) && instants(w.start) <= cfg.startMs
    ensures (forall notAfter: Option<int> :: RunsBounded(instants, cfg, notAfter)) <==>
            !cfg.renews || cfg.maxChecks.Some?
  {
    hide RunsBounded;
    forall notAfter: Option<int>
      ensures RunsBounded(instants, cfg, notAfter) <==> !cfg.renews || cfg.maxChecks.Some? || Unusable(cfg, notAfter)
    {
      BoundedExactly(instants, cfg, notAfter, w);
    }
    assert RunsBounded(instants, cfg, Some(cfg.startMs)) <==> !cfg.renews || cfg.maxChecks.Some?;
  }

  // ---------------------------------------------------------------- no late fetch

  /** The same round with another reply from the server. */
  function Answering(r: Round, q: Reply): Round {
    r.(reply := q)
  }

  /** A check without a fetch is the same for every reply; a check with one gives back whatever problem the reply is. */
  lemma FetchReadsReply(instants: Instants, s: State, r: Round)
    ensures FetchAt(s.notAfter, false, r).None? ==>
            forall q :: Check(instants, s, Answering(r, q)) == Check(instants, s, r)
    ensures FetchAt(s.notAfter, false, r).Some? ==>
            forall p :: Check(instants, s, Answering(r, Refused(p))) == Err(p)
  {
    hide Select, ClampRetry;
  }

  /** A round that sends no fetch takes the same step, and leaves the same log, for every reply. */
  lemma UnfetchedStep(instants: Instants, cfg: Config, s: State, r: Round, q: Reply)
    requires Checks(cfg, s, r) ==> FetchAt(s.notAfter, false, r).None?
    ensures Step(instants, cfg, s, Answering(r, q)) == Step(instants, cfg, s, r)
    ensures LogOf(instants, cfg, s, Answering(r, q)) == LogOf(instants, cfg, s, r)
  {
    FetchReadsReply(instants, s, r);
    hide Check, SleepThenLoop;
    assert Check(instants, s, Answering(r, q)) == Check(instants, s, r) || !Checks(cfg, s, r);
  }

  /** Every fetch of a run is sent with the clock not past the end of its certificate, and every decision has one. */
  lemma {:induction false} DecisionsFetched(instants: Instants, cfg: Config, s: State, rounds: seq<Round>)
    ensures forall l :: l in Run(instants, cfg, s, rounds).log ==>
      && (l.fetch.Some? ==> l.notAfter.Some? && l.fetch.value <= l.notAfter.value)
      && (l.decision.Some? ==> l.fetch.Some?)
    decreases |rounds|
  {
    hide Select, Step;
    if rounds != [] && Step(instants, cfg, s, rounds[0]).Again? {
      DecisionsFetched(instants, cfg, Step(instants, cfg, s, rounds[0]).state, rounds[1..]);
    }
  }

  /** The rounds with another reply in one of them. */
  function WithReply(rounds: seq<Round>, i: nat, q: Reply): seq<Round>
    requires i < |rounds|
  {
    rounds[i := Answering(rounds[i], q)]
  }

  /**
   A reply can change a run only when it was fetched in time: if another reply in some round gives another outcome,
   that round sent a fetch, and with the clock not past the end of the certificate it was for.
   */
  lemma {:induction false} NoLateFetch(instants: Instants, cfg: Config, s: State, rounds: seq<Round>, i: nat, q: Reply)
    requires i < |rounds|
    requires Run(instants, cfg, s, WithReply(rounds, i, q)) != Run(instants, cfg, s, rounds)
    ensures var log := Run(instants, cfg, s, rounds).log;
      && i < |log| && log[i].fetch == Some(rounds[i].t3)
      && log[i].notAfter.Some? && rounds[i].t3 <= log[i].notAfter.value
    decreases i
  {
    var r := rounds[0];
    var changed := WithReply(rounds, i, q);
    var next := Step(instants, cfg, s, r);
    if i == 0 {
      if !(Checks(cfg, s, r) && FetchAt(s.notAfter, false, r).Some?) { UnfetchedStep(instants, cfg, s, r, q); }
      assert changed[0] == Answering(r, q) && changed[1..] == rounds[1..];
    } else {
      hide Step, LogOf, Answering;
      assert changed[0] == r && changed[1..] == WithReply(rounds[1..], i - 1, q);
      NoLateFetch(instants, cfg, next.state, rounds[1..], i - 1, q);
    }
  }

  /** A fetch that a run records is answered by its reply: a fatal error in that place ends the run there. */
  lemma {:induction false} FetchIsAnswered(instants: Instants, cfg: Config, s: State, rounds: seq<Round>, i: nat)
    requires i < |rounds| && i < |Run(instants, cfg, s, rounds).log|
    requires Run(instants, cfg, s, rounds).log[i].fetch.Some?
    ensures var out := Run(instants, cfg, s, WithReply(rounds, i, Refused(Fatal)));
      out.reason == Some(Thrown) && |out.log| == i + 1
    decreases i
  {
    var r := rounds[0];
    var changed := WithReply(rounds, i, Refused(Fatal));
    if i == 0 {
      FetchReadsReply(instants, s, r);
      hide Check;
      assert changed[0] == Answering(r, Refused(Fatal));
      assert Step(instants, cfg, s, changed[0]) == Done(Thrown);
    } else {
      hide Step, LogOf, Answering;
      assert changed[0] == r && changed[1..] == WithReply(rounds[1..], i - 1, Refused(Fatal));
      FetchIsAnswered(instants, cfg, Step(instants, cfg, s, r).state, rounds[1..], i - 1);
    }
  }

  /** Only a failed lookup or a reply that says so can end a run with the reason replaced. */
  lemma ReplacedOnlyWhenTold(instants: Instants, cfg: Config, s: State, r: Round)
    requires Step(instants, cfg, s, r) == Done(Replaced)
    ensures r.lookup == Some(CertReplaced) || r.reply == Refused(CertReplaced)
  {
    hide ClampRetry, Drawn;
  }

  // ---------------------------------------------------------------- the selected instant

  /** The window ends after it starts, and the instant lies in it, clipped to the end of the certificate. */
  predicate InClip(instants: Instants, end: Option<int>, d: Decision) {
    && end.Some? && instants(d.window.start) < instants(d.window.end)
    && d.selected <= end.value && d.selected <= instants(d.window.end)
    && (instants(d.window.start) <= end.value ==> instants(d.window.start) <= d.selected)
    && (instants(d.window.start) > end.value ==> d.selected == end.value)
  }

  lemma DrawInRange(lo: int, hi: int, draw: real)
    requires lo <= hi && 0.0 <= draw <= 1.0
    ensures lo <= Drawn(lo, hi, draw) <= hi
  {
    var width := (hi - lo) as real;
    assert 0.0 <= draw * width;
    assert draw * width <= width by {
      assert (1.0 - draw) * width >= 0.0;
    }
  }

  lemma SelectInRange(instants: Instants, notAfter: int, w: Window, previous: Option<Previous>, draw: Option<real>)
    requires Select(instants, notAfter, w, previous, draw).Ok?
    ensures EffStart(instants, w, notAfter) <= Select(instants, notAfter, w, previous, draw).value
    ensures Select(instants, notAfter, w, previous, draw).value <= EffEnd(instants, w, notAfter)
  {
    hide Drawn;
    var lo, hi := EffStart(instants, w, notAfter), EffEnd(instants, w, notAfter);
    if draw.Some? && 0.0 <= draw.value <= 1.0 { DrawInRange(lo, hi, draw.value); }
  }

  lemma SelectedInClip(instants: Instants, s: State, r: Round)
    requires Check(instants, s, r).Ok?
    ensures InClip(instants, s.notAfter, Check(instants, s, r).value)
  {
    hide Select, ClampRetry;
    SelectInRange(instants, s.notAfter.value, r.reply.window, Kept(s.previous), r.draw);
  }

  /** Every instant selected in a run lies in its window clipped to the end of the certificate. */
  lemma {:induction false} SelectionsInClip(instants: Instants, cfg: Config, s: State, rounds: seq<Round>)
    ensures forall l :: l in Run(instants, cfg, s, rounds).log && l.decision.Some? ==>
            InClip(instants, l.notAfter, l.decision.value)
    decreases |rounds|
  {
    hide InClip, Step;
    if rounds != [] {
      if Checks(cfg, s, rounds[0]) && Check(instants, s, rounds[0]).Ok? { SelectedInClip(instants, s, rounds[0]); }
      hide Check, Checks;
      var next := Step(instants, cfg, s, rounds[0]);
      if next.Again? { SelectionsInClip(instants, cfg, next.state, rounds[1..]); }
    }
  }

  /** The decision kept from the last check is of the certificate in hand. */
  predicate KeptOk(instants: Instants, s: State) {
    s.previous.Some? ==> InClip(instants, s.notAfter, s.previous.value)
  }

  lemma StickyStep(instants: Instants, cfg: Config, s: State, r: Round)
    requires KeptOk(instants, s) && Check(instants, s, r).Ok? && s.previous.Some?
    requires Check(instants, s, r).value.window == s.previous.value.window
    ensures Check(instants, s, r).value.selected == s.previous.value.selected
  {
    hide ClampRetry, Drawn;
  }

  /**
   A round that goes on has the callback's certificate and nothing kept, or its own certificate and its last decision.
   */
  lemma KeptAfter(instants: Instants, cfg: Config, s: State, r: Round)
    requires KeptOk(instants, s) && Step(instants, cfg, s, r).Again?
    ensures var t := Step(instants, cfg, s, r).state;
      if LogOf(instants, cfg, s, r).renewed then
        && KeptOk(instants, t) && cfg.renews && r.renewal.RenewedCert? && t.notAfter == r.renewal.notAfter
        && t.previous == None
      else
        && KeptOk(instants, t) && t.notAfter == s.notAfter
        && t.previous == if Check(instants, s, r).Ok? then Some(Check(instants, s, r).value) else s.previous
  {
    hide InClip, WindowDecision;
    if Check(instants, s, r).Ok? { SelectedInClip(instants, s, r); }
  }

  /** Through the places from one to another no certificate is installed before the last, and no window differs. */
  predicate SameThrough(log: seq<Log>, i: nat, j: nat, w: Window)
    requires i <= j < |log|
  {
    && (forall k :: i <= k < j ==> !log[k].renewed)
    && (forall k :: i <= k <= j && log[k].decision.Some? ==> log[k].decision.value.window == w)
  }

  lemma SameAfter(l: Log, rest: seq<Log>, i: nat, j: nat, w: Window)
    requires i <= j < |rest| + 1 && SameThrough([l] + rest, i, j, w) && j > 0
    ensures SameThrough(rest, if i > 0 then i - 1 else 0, j - 1, w)
  {
    var log := [l] + rest;
    forall k | 0 <= k < |rest| ensures rest[k] == log[k + 1] {
    }
  }

  /** Once an instant is selected, a run keeps it as long as certificate and window text stay the same. */
  lemma {:induction false} InstantKept(instants: Instants, cfg: Config, s: State, rounds: seq<Round>, j: nat)
    requires KeptOk(instants, s) && s.previous.Some? && j < |Run(instants, cfg, s, rounds).log|
    requires SameThrough(Run(instants, cfg, s, rounds).log, 0, j, s.previous.value.window)
    ensures var l := Run(instants, cfg, s, rounds).log[j];
      l.decision.Some? ==> l.decision.value.selected == s.previous.value.selected
    decreases |rounds|
  {
    hide KeptOk, Step, Check, SameThrough, LogOf;
    var r := rounds[0];
    var l, next := LogOf(instants, cfg, s, r), Step(instants, cfg, s, r);
    var log := Run(instants, cfg, s, rounds).log;
    assert log[0] == l;
    SameHere(log, j, s.previous.value.window);
    if Checks(cfg, s, r) { DecisionLogged(instants, cfg, s, r); } else { NothingLogged(instants, cfg, s, r); }
    if l.decision.Some? { StickyStep(instants, cfg, s, r); }
    if j > 0 {
      var rest := Run(instants, cfg, next.state, rounds[1..]).log;
      assert log == [l] + rest;
      KeptAfter(instants, cfg, s, r);
      AgainChecked(instants, cfg, s, r);
      SameAfter(l, rest, 0, j, s.previous.value.window);
      InstantKept(instants, cfg, next.state, rounds[1..], j - 1);
    }
  }

  lemma SameHere(log: seq<Log>, j: nat, w: Window)
    requires j < |log| && SameThrough(log, 0, j, w)
    ensures j > 0 ==> !log[0].renewed
    ensures log[0].decision.Some? ==> log[0].decision.value.window == w
  {
  }

  lemma NothingLogged(instants: Instants, cfg: Config, s: State, r: Round)
    requires !Checks(cfg, s, r)
    ensures LogOf(instants, cfg, s, r).decision == None
  {
    hide Check;
  }

  lemma AgainChecked(instants: Instants, cfg: Config, s: State, r: Round)
    requires Step(instants, cfg, s, r).Again?
    ensures Checks(cfg, s, r)
  {
    hide Check, AfterDecision, AfterProblem;
  }

  lemma {:induction false} OneInstant(instants: Instants, cfg: Config, s: State, rounds: seq<Round>,
      i: nat, j: nat)
    requires KeptOk(instants, s) && i < j < |Run(instants, cfg, s, rounds).log|
    requires var log := Run(instants, cfg, s, rounds).log;
      log[i].decision.Some? && log[j].decision.Some? && SameThrough(log, i, j, log[i].decision.value.window)
    ensures var log := Run(instants, cfg, s, rounds).log;
      log[i].decision.value.selected == log[j].decision.value.selected
    decreases |rounds|
  {
    hide KeptOk, InClip, Step, Check, LogOf, SameThrough;
    var r := rounds[0];
    var l, next := LogOf(instants, cfg, s, r), Step(instants, cfg, s, r);
    var log := Run(instants, cfg, s, rounds).log;
    var rest := Run(instants, cfg, next.state, rounds[1..]).log;
    assert log == [l] + rest;
    var w := log[i].decision.value.window;
    KeptAfter(instants, cfg, s, r);
    SameAfter(l, rest, i, j, w);
    if i > 0 {
      OneInstant(instants, cfg, next.state, rounds[1..], i - 1, j - 1);
    } else {
      SameHere(log, j, w);
      AgainChecked(instants, cfg, s, r);
      DecisionLogged(instants, cfg, s, r);
      InstantKept(instants, cfg, next.state, rounds[1..], j - 1);
    }
  }

  lemma NothingKept(instants: Instants, s: State)
    requires s.previous == None
    ensures KeptOk(instants, s)
  {
  }

  /**
   Two checks of a run select the same instant when no certificate was installed between them and neither they nor
   the checks between them met another window text.
   */
  lemma {:induction false} OneInstantPerRun(instants: Instants, cfg: Config, s: State, rounds: seq<Round>,
      i: nat, j: nat)
    requires s.previous == None && i < j < |Run(instants, cfg, s, rounds).log|
    requires var log := Run(instants, cfg, s, rounds).log;
      log[i].decision.Some? && log[j].decision.Some? && SameThrough(log, i, j, log[i].decision.value.window)
    ensures var log := Run(instants, cfg, s, rounds).log;
      log[i].decision.value.selected == log[j].decision.value.selected
  {
    hide Run, KeptOk, SameThrough;
    NothingKept(instants, s);
    OneInstant(instants, cfg, s, rounds, i, j);
  }

  lemma DecisionLogged(instants: Instants, cfg: Config, s: State, r: Round)
    requires Checks(cfg, s, r)
    ensures LogOf(instants, cfg, s, r).decision ==
            if Check(instants, s, r).Ok? then Some(Check(instants, s, r).value) else None
  {
    hide Check, Step;
  }

  // ---------------------------------------------------------------- backoff

  /** Consecutive temporary failures just before a place in a log, with so many before the log. */
  function Streak(before: nat, log: seq<Log>, i: nat): nat
    requires i <= |log|
  {
    if i == 0 then before else if log[i - 1].temporary then Streak(before, log, i - 1) + 1 else 0
  }

  lemma {:induction false} StreakShift(before: nat, l: Log, rest: seq<Log>, i: nat)
    requires i <= |rest|
    ensures Streak(before, [l] + rest, i + 1) == Streak(if l.temporary then before + 1 else 0, rest, i)
    decreases i
  {
    if i > 0 {
      StreakShift(before, l, rest, i - 1);
      assert ([l] + rest)[i] == rest[i - 1];
    } else {
      assert ([l] + rest)[0] == l;
    }
  }

  /**
   The wait after a temporary failure: the base doubled once for each one before it in a row, at most the long-term
   wait. After any other failure that does not end the run: the long-term wait.
   */
  predicate WaitsRight(cfg: Config, l: Log, streak: nat) {
    && l.slept <= l.wanted
    && (l.temporary ==> l.wanted == Min(cfg.tempBaseMs * Pow(2, streak), cfg.longTermMs))
    && (l.checked && l.decision.None? && !l.temporary ==> l.wanted == cfg.longTermMs)
  }

  lemma BackoffStep(instants: Instants, cfg: Config, s: State, r: Round, k: nat)
    requires Step(instants, cfg, s, r).Again? && s.backoffMs == cfg.tempBaseMs * Pow(2, k)
    ensures var l, t := LogOf(instants, cfg, s, r), Step(instants, cfg, s, r).state;
      WaitsRight(cfg, l, k) && t.backoffMs == cfg.tempBaseMs * Pow(2, if l.temporary then k + 1 else 0)
  {
    hide WindowDecision, FetchAt;
    Doubles(cfg.tempBaseMs, k);
  }

  lemma Doubles(base: nat, k: nat)
    ensures base * Pow(2, k + 1) == base * Pow(2, k) * 2 && base * Pow(2, 0) == base
  {
  }

  /**
   In every run the wait after the k-th temporary failure in a row is min(base * 2^(k-1), longTerm), before the wait
   budget cuts it.
   */
  lemma {:induction false} BackoffDoubles(instants: Instants, cfg: Config, s: State, rounds: seq<Round>, k: nat, i: nat)
    requires s.backoffMs == cfg.tempBaseMs * Pow(2, k)
    requires i + 1 < |Run(instants, cfg, s, rounds).log|
    ensures var log := Run(instants, cfg, s, rounds).log;
      WaitsRight(cfg, log[i], Streak(k, log, i))
    decreases |rounds|
  {
    hide Step, LogOf, WaitsRight, Pow;
    var next := Step(instants, cfg, s, rounds[0]);
    var log := Run(instants, cfg, s, rounds).log;
    var l := LogOf(instants, cfg, s, rounds[0]);
    var rest := Run(instants, cfg, next.state, rounds[1..]).log;
    assert log == [l] + rest;
    BackoffStep(instants, cfg, s, rounds[0], k);
    if i > 0 {
      var k' := if l.temporary then k + 1 else 0;
      BackoffDoubles(instants, cfg, next.state, rounds[1..], k', i - 1);
      StreakShift(k, l, rest, i - 1);
    }
  }

  // ---------------------------------------------------------------- budgets

  function CheckCount(log: seq<Log>): nat {
    if log == [] then 0 else (if log[0].checked then 1 else 0) + CheckCount(log[1..])
  }

  function TotalSlept(log: seq<Log>): nat {
    if log == [] then 0 else log[0].slept + TotalSlept(log[1..])
  }

  lemma LogTotals(l: Log, rest: seq<Log>)
    ensures CheckCount([l] + rest) == (if l.checked then 1 else 0) + CheckCount(rest)
    ensures TotalSlept([l] + rest) == l.slept + TotalSlept(rest)
  {
    assert ([l] + rest)[1..] == rest;
  }

  /** A run makes at most maxChecks checks. */
  lemma {:induction false} ChecksBounded(instants: Instants, cfg: Config, s: State, rounds: seq<Round>)
    requires cfg.maxChecks.Some? && s.checks <= cfg.maxChecks.value
    ensures s.checks + CheckCount(Run(instants, cfg, s, rounds).log) <= cfg.maxChecks.value
    decreases |rounds|
  {
    hide Check;
    if rounds != [] {
      var l := LogOf(instants, cfg, s, rounds[0]);
      LogTotals(l, []);
      assert [l] + [] == [l];
      var next := Step(instants, cfg, s, rounds[0]);
      if next.Again? {
        hide LogOf;
        var rest := Run(instants, cfg, next.state, rounds[1..]).log;
        LogTotals(l, rest);
        ChecksBounded(instants, cfg, next.state, rounds[1..]);
      }
    }
  }

  lemma SleepWithin(instants: Instants, cfg: Config, s: State, r: Round, slept: nat)
    requires cfg.maxWaitMs.Some? && OnTime(s, r) && slept <= s.now - cfg.startMs && slept <= cfg.maxWaitMs.value
    ensures var l, next := LogOf(instants, cfg, s, r), Step(instants, cfg, s, r);
      slept + l.slept <= cfg.maxWaitMs.value && (next.Again? ==> slept + l.slept <= next.state.now - cfg.startMs)
  {
    hide Check, FetchAt;
  }

  /** A run sleeps no longer than maxWait in all. */
  lemma {:induction false} SleepBounded(instants: Instants, cfg: Config, s: State, rounds: seq<Round>, slept: nat)
    requires cfg.maxWaitMs.Some? && Timely(instants, cfg, s, rounds)
    requires slept <= s.now - cfg.startMs && slept <= cfg.maxWaitMs.value
    ensures slept + TotalSlept(Run(instants, cfg, s, rounds).log) <= cfg.maxWaitMs.value
    decreases |rounds|
  {
    hide Step, LogOf;
    if rounds != [] {
      var l := LogOf(instants, cfg, s, rounds[0]);
      SleepWithin(instants, cfg, s, rounds[0], slept);
      LogTotals(l, []);
      assert [l] + [] == [l];
      var next := Step(instants, cfg, s, rounds[0]);
      if next.Again? {
        var rest := Run(instants, cfg, next.state, rounds[1..]).log;
        LogTotals(l, rest);
        SleepBounded(instants, cfg, next.state, rounds[1..], slept + l.slept);
      }
    }
  }

  /** With its caps set a run from the start makes at most maxChecks checks and sleeps at most maxWait. */
  lemma {:induction false} WithinBudgets(instants: Instants, cfg: Config, notAfter: Option<int>, rounds: seq<Round>)
    requires Timely(instants, cfg, Init(cfg, notAfter), rounds)
    ensures var log := Run(instants, cfg, Init(cfg, notAfter), rounds).log;
      && (cfg.maxChecks.Some? ==> CheckCount(log) <= cfg.maxChecks.value)
      && (cfg.maxWaitMs.Some? ==> TotalSlept(log) <= cfg.maxWaitMs.value)
  {
    hide Run, Timely;
    if cfg.maxChecks.Some? { ChecksBounded(instants, cfg, Init(cfg, notAfter), rounds); }
    if cfg.maxWaitMs.Some? { SleepBounded(instants, cfg, Init(cfg, notAfter), rounds, 0); }
  }
}
