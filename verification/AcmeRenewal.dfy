/**
 The renewal scheduler of RFC 9773: one round asks for a renewal window, selects an instant
 in it, and either ends the run or sleeps. Everything a round meets from outside is in its
 record: callbacks, replies, and a reading of the clock for each time the source reads it.
 Times are integer milliseconds.
 */
module AcmeRenewal {
  import opened Wrappers

  const RETRY_MIN := 60
  const RETRY_MAX := 86400
  const RETRY_DEFAULT := 21600

  /** The instant an RFC 3339 text names. */
  type Instants = string -> int

  datatype Window = Window(start: string, end: string)

  datatype Decision = Decision(window: Window, selected: int, renewNow: bool, retryAfter: nat)

  /** Fatal: bad-input, bad-certid, resource-unavailable or an x509 error. */
  datatype Problem = CertExpired | CertReplaced | Fatal | ServerProblem(status: int) | OtherProblem

  /**
   The selected time of a result handed back by the caller: not a text, a text that names no instant, or an instant.
   */
  datatype PriorTime = NoText | Unreadable | At(ms: int)

  datatype Previous = Previous(window: Window, time: PriorTime)

  datatype Reply = Refused(problem: Problem) | Info(window: Window, retryAfter: Option<nat>)

  datatype StopFlag = GoOn | StopNow | BadCallback

  /** A new certificate has the end of its validity, none when it does not parse. */
  datatype Renewal = RenewFailed | RenewedNothing | RenewedCert(notAfter: Option<int>)

  datatype Round = Round(
    stopBefore: StopFlag,
    t0: int,                    // clock at the wait budget before the check
    t1: int,                    // on entering renewalWindow
    t2: int,                    // on entering renewalInfo
    lookup: Option<Problem>,    // certificate id or directory lookup failed
    t3: int,                    // before the fetch
    reply: Reply,
    draw: Option<real>,         // none when the random callback threw or gave no number
    t5: int,                    // when the selected instant is compared
    stopAfter: StopFlag,
    t6: int,                    // at the wait budget after the check
    renewal: Renewal,
    t7: int,                    // when the time until the selected instant is computed
    t8: int)                    // when the sleep starts

  datatype Config = Config(startMs: int, maxChecks: Option<nat>, maxWaitMs: Option<nat>, longTermMs: nat,
      tempBaseMs: nat, renews: bool)

  /** Without a notAfter the certificate in hand does not parse. */
  datatype State = State(notAfter: Option<int>, previous: Option<Decision>, checks: nat, backoffMs: nat, now: int)

  datatype Reason =
    | Stopped | Budget | Expired | Replaced | RenewNow(decision: Decision) | Renewed(decision: Decision) | Thrown

  // ---------------------------------------------------------------- selecting

  function Min(a: int, b: int): int {
    if a <= b then a else b
  }

  function Max(a: int, b: int): int {
    if a >= b then a else b
  }

  /** The window clipped to the end of the certificate's validity. */
  function EffEnd(instants: Instants, w: Window, notAfter: int): int {
    Min(instants(w.end), notAfter)
  }

  function EffStart(instants: Instants, w: Window, notAfter: int): int {
    Min(instants(w.start), EffEnd(instants, w, notAfter))
  }

  /** A draw between 0 and 1 placed between two instants, rounded to the nearest millisecond, halves upwards. */
  function Drawn(lo: int, hi: int, draw: real): int {
    (lo as real + draw * (hi - lo) as real + 0.5).Floor
  }

  /** The instant selected: a previous one kept while the window's text is unchanged, else a draw. */
  function Select(instants: Instants, notAfter: int, w: Window, previous: Option<Previous>,
      draw: Option<real>): Result<int, Problem> {
    var lo, hi := EffStart(instants, w, notAfter), EffEnd(instants, w, notAfter);
    if previous.Some? && previous.value.window == w && !previous.value.time.NoText? then
      if previous.value.time.Unreadable? then Err(Fatal)
      else Ok(Max(lo, Min(hi, previous.value.time.ms)))
    else if draw.None? || !(0.0 <= draw.value <= 1.0) then Err(Fatal)
    else Ok(Drawn(lo, hi, draw.value))
  }

  function ClampRetry(retryAfter: Option<nat>): nat {
    if retryAfter.None? then RETRY_DEFAULT else Max(RETRY_MIN, Min(RETRY_MAX, retryAfter.value))
  }

  /** validateRenewalInfo: a window ends after it starts. */
  predicate WindowOk(instants: Instants, w: Window) {
    instants(w.start) < instants(w.end)
  }

  /** renewalWindow: the decision of one check, or the problem it met. */
  function WindowDecision(instants: Instants, end: Option<int>, replaced: bool, previous: Option<Previous>,
      r: Round): Result<Decision, Problem> {
    if end.None? then Err(Fatal)
    else
      var notAfter := end.value;
      if r.t1 > notAfter then Err(CertExpired)
      else if replaced then Err(CertReplaced)
      else if r.t2 > notAfter then Err(CertExpired)
      else if r.lookup.Some? then Err(r.lookup.value)
      else if r.t3 > notAfter then Err(CertExpired)
      else
        match r.reply
        case Refused(p) => Err(p)
        case Info(w, retryAfter) =>
          if !WindowOk(instants, w) then Err(OtherProblem)
          else
            match Select(instants, notAfter, w, previous, r.draw)
            case Err(p) => Err(p)
            case Ok(selected) =>
              Ok(Decision(w, selected, selected <= r.t5 || selected >= notAfter, ClampRetry(retryAfter)))
  }

  /** The clock when a check sends its fetch, none when it ends before. */
  function FetchAt(end: Option<int>, replaced: bool, r: Round): Option<int> {
    if end.None? || r.t1 > end.value || replaced || r.t2 > end.value || r.lookup.Some? || r.t3 > end.value then None
    else Some(r.t3)
  }

  function Kept(previous: Option<Decision>): Option<Previous> {
    match previous
    case None => None
    case Some(d) => Some(Previous(d.window, At(d.selected)))
  }

  // ---------------------------------------------------------------- one round

  /**
   How a round ends: the run is over, or the next round starts from a state, after a sleep asked for and a sleep
   taken.
   */
  datatype Next = Done(reason: Reason) | Again(state: State, wanted: nat, slept: nat)

  predicate Temporary(p: Problem) {
    p.ServerProblem? && p.status >= 500
  }

  predicate OutOfChecks(cfg: Config, checks: nat) {
    cfg.maxChecks.Some? && checks >= cfg.maxChecks.value
  }

  predicate OutOfTime(cfg: Config, t: int) {
    cfg.maxWaitMs.Some? && t - cfg.startMs >= cfg.maxWaitMs.value
  }

  function Bounded(cfg: Config, ms: nat, t: int): nat {
    if cfg.maxWaitMs.None? then ms else Min(ms, Max(0, cfg.maxWaitMs.value - (t - cfg.startMs)))
  }

  function SleepThenLoop(cfg: Config, s: State, ms: nat, t: int): Next {
    if OutOfChecks(cfg, s.checks) then Done(Budget)
    else Again(s.(now := t + Bounded(cfg, ms, t)), ms, Bounded(cfg, ms, t))
  }

  function AfterDecision(cfg: Config, s: State, d: Decision, r: Round): Next {
    if r.stopAfter.BadCallback? then Done(Thrown)
    else if r.stopAfter.StopNow? then Done(Stopped)
    else if OutOfTime(cfg, r.t6) then Done(Budget)
    else
      var s' := s.(backoffMs := cfg.tempBaseMs);
      if d.renewNow then
        if !cfg.renews then Done(RenewNow(d))
        else
          match r.renewal
          case RenewFailed => Done(Thrown)
          case RenewedNothing => Done(Renewed(d))
          case RenewedCert(notAfter) => Again(s'.(notAfter := notAfter, previous := None, now := r.t6), 0, 0)
      else SleepThenLoop(cfg, s'.(previous := Some(d)), Max(0, Min(d.selected - r.t7, d.retryAfter * 1000)), r.t8)
  }

  function AfterProblem(cfg: Config, s: State, p: Problem, r: Round): Next {
    if p.CertExpired? then Done(Expired)
    else if p.CertReplaced? then Done(Replaced)
    else if p.Fatal? then Done(Thrown)
    else if Temporary(p) then
      SleepThenLoop(cfg, s.(backoffMs := s.backoffMs * 2), Min(s.backoffMs, cfg.longTermMs), r.t8)
    else SleepThenLoop(cfg, s.(backoffMs := cfg.tempBaseMs), cfg.longTermMs, r.t8)
  }

  /** A round reaches its check when no stop and no budget ends it first. */
  predicate Checks(cfg: Config, s: State, r: Round) {
    r.stopBefore.GoOn? && !OutOfChecks(cfg, s.checks) && !OutOfTime(cfg, r.t0)
  }

  function Check(instants: Instants, s: State, r: Round): Result<Decision, Problem> {
    WindowDecision(instants, s.notAfter, false, Kept(s.previous), r)
  }

  function Step(instants: Instants, cfg: Config, s: State, r: Round): Next {
    if r.stopBefore.BadCallback? then Done(Thrown)
    else if r.stopBefore.StopNow? then Done(Stopped)
    else if OutOfChecks(cfg, s.checks) then Done(Budget)
    else if OutOfTime(cfg, r.t0) then Done(Budget)
    else
      var s' := s.(checks := s.checks + 1);
      match Check(instants, s, r)
      case Ok(d) => AfterDecision(cfg, s', d, r)
      case Err(p) => AfterProblem(cfg, s', p, r)
  }

  // ---------------------------------------------------------------- runs

  /**
   What a round did: the certificate's end it ran under, its fetch, its check's result, whether it installed another
   certificate, and its sleep.
   */
  datatype Log = Log(notAfter: Option<int>, checked: bool, fetch: Option<int>, decision: Option<Decision>,
      temporary: bool, renewed: bool, wanted: nat, slept: nat)

  datatype Outcome = Outcome(reason: Option<Reason>, log: seq<Log>)

  function LogOf(instants: Instants, cfg: Config, s: State, r: Round): Log {
    var next := Step(instants, cfg, s, r);
    var wanted, slept := if next.Again? then next.wanted else 0, if next.Again? then next.slept else 0;
    if !Checks(cfg, s, r) then Log(s.notAfter, false, None, None, false, false, wanted, slept)
    else
      var check := Check(instants, s, r);
      Log(s.notAfter, true, FetchAt(s.notAfter, false, r), if check.Ok? then Some(check.value) else None,
          check.Err? && Temporary(check.error), check.Ok? && check.value.renewNow && next.Again?,
          wanted, slept)
  }

  /** Rounds until one ends the run; no reason when the rounds run out first. */
  function Run(instants: Instants, cfg: Config, s: State, rounds: seq<Round>): Outcome
    decreases |rounds|
  {
    if rounds == [] then Outcome(None, [])
    else
      var log := LogOf(instants, cfg, s, rounds[0]);
      match Step(instants, cfg, s, rounds[0])
      case Done(reason) => Outcome(Some(reason), [log])
      case Again(s', _, _) =>
        var rest := Run(instants, cfg, s', rounds[1..]);
        Outcome(rest.reason, [log] + rest.log)
  }

  function Init(cfg: Config, notAfter: Option<int>): State {
    State(notAfter, None, 0, cfg.tempBaseMs, cfg.startMs)
  }

  /** The bounds the source puts on its options: both budgets are positive whole numbers, of checks and of seconds. */
  predicate ConfigOk(cfg: Config) {
    && 1000 <= cfg.tempBaseMs && 60000 <= cfg.longTermMs
    && (cfg.maxChecks.Some? ==> cfg.maxChecks.value >= 1)
    && (cfg.maxWaitMs.Some? ==> cfg.maxWaitMs.value >= 1000)
  }

  /** The clock never runs backwards, and a sleep advances it by at least its length. */
  predicate OnTime(s: State, r: Round) {
    s.now <= r.t0 <= r.t1 <= r.t2 <= r.t3 <= r.t5 <= r.t6 <= r.t7 <= r.t8
  }

  predicate Timely(instants: Instants, cfg: Config, s: State, rounds: seq<Round>)
    decreases |rounds|
  {
    rounds == [] ||
    (&& OnTime(s, rounds[0])
     && var next := Step(instants, cfg, s, rounds[0]);
        next.Again? ==> Timely(instants, cfg, next.state, rounds[1..]))
  }

  // ---------------------------------------------------------------- the loop

  /** What a round of the class below says about its step. */
  ghost predicate Took(next: Next, reason: Option<Reason>, after: State) {
    match next
    case Done(x) => reason == Some(x)
    case Again(s, _, _) => reason == None && after == s
  }

  /** The variables of scheduleRenewal and its inner functions. */
  class Scheduler {
    const instants: Instants
    const cfg: Config
    var notAfter: Option<int>
    var previous: Option<Decision>
    var checks: nat
    var tempBackoffMs: nat
    ghost var now: int

    ghost function Abstract(): State
      reads this
    {
      State(notAfter, previous, checks, tempBackoffMs, now)
    }

    constructor (instants: Instants, cfg: Config, notAfter: Option<int>)
      ensures Abstract() == Init(cfg, notAfter) && this.cfg == cfg && this.instants == instants
    {
      this.instants := instants;
      this.cfg := cfg;
      this.notAfter := notAfter;
      previous := None;
      checks := 0;
      tempBackoffMs := cfg.tempBaseMs;
      now := cfg.startMs;
    }

    /** Out of checks, or asleep for no longer than the wait budget leaves. */
    method Sleep(ms: nat, t: int) returns (reason: Option<Reason>)
      modifies `now
      ensures Took(SleepThenLoop(cfg, old(Abstract()), ms, t), reason, Abstract())
    {
      if cfg.maxChecks.Some? && checks >= cfg.maxChecks.value { return Some(Budget); }
      var bounded := ms;
      if cfg.maxWaitMs.Some? {
        var left := Max(0, cfg.maxWaitMs.value - (t - cfg.startMs));
        bounded := Min(ms, left);
      }
      now := t + bounded;
      reason := None;
    }

    method OnDecision(decision: Decision, r: Round) returns (reason: Option<Reason>)
      modifies this
      ensures Took(AfterDecision(cfg, old(Abstract()), decision, r), reason, Abstract())
    {
      hide SleepThenLoop;
      if r.stopAfter.BadCallback? { return Some(Thrown); }
      if r.stopAfter.StopNow? { return Some(Stopped); }
      if cfg.maxWaitMs.Some? && r.t6 - cfg.startMs >= cfg.maxWaitMs.value { return Some(Budget); }
      tempBackoffMs := cfg.tempBaseMs;
      if decision.renewNow {
        if !cfg.renews { return Some(RenewNow(decision)); }
        if r.renewal.RenewFailed? { return Some(Thrown); }
        if r.renewal.RenewedNothing? { return Some(Renewed(decision)); }
        notAfter := r.renewal.notAfter;
        previous := None;
        now := r.t6;
        return None;
      }
      previous := Some(decision);
      var untilSelected := decision.selected - r.t7;
      var retryMs := decision.retryAfter * 1000;
      reason := Sleep(Max(0, Min(untilSelected, retryMs)), r.t8);
    }

    method OnProblem(problem: Problem, r: Round) returns (reason: Option<Reason>)
      modifies this
      ensures Took(AfterProblem(cfg, old(Abstract()), problem, r), reason, Abstract())
    {
      hide SleepThenLoop;
      if problem.CertExpired? { return Some(Expired); }
      if problem.CertReplaced? { return Some(Replaced); }
      if problem.Fatal? { return Some(Thrown); }
      var waitMs: nat := cfg.longTermMs;
      if problem.ServerProblem? && problem.status >= 500 {
        waitMs := Min(tempBackoffMs, cfg.longTermMs);
        tempBackoffMs := tempBackoffMs * 2;
      } else {
        tempBackoffMs := cfg.tempBaseMs;
      }
      reason := Sleep(waitMs, r.t8);
    }

    /** One turn of the loop. */
    method Turn(r: Round) returns (reason: Option<Reason>)
      modifies this
      ensures Took(Step(instants, cfg, old(Abstract()), r), reason, Abstract())
    {
      hide WindowDecision, AfterDecision, AfterProblem;
      if r.stopBefore.BadCallback? { return Some(Thrown); }
      if r.stopBefore.StopNow? { return Some(Stopped); }
      if cfg.maxChecks.Some? && checks >= cfg.maxChecks.value { return Some(Budget); }
      if cfg.maxWaitMs.Some? && r.t0 - cfg.startMs >= cfg.maxWaitMs.value { return Some(Budget); }
      var check := WindowDecision(instants, notAfter, false, Kept(previous), r);
      checks := checks + 1;
      if check.Ok? {
        reason := OnDecision(check.value, r);
      } else {
        reason := OnProblem(check.error, r);
      }
    }

    /** Turns until one gives a reason. */
    method Loop(rounds: seq<Round>) returns (reason: Option<Reason>)
      modifies this
      ensures reason == Run(instants, cfg, old(Abstract()), rounds).reason
    {
      hide Step;
      assert rounds[0..] == rounds;
      for i := 0 to |rounds|
        invariant Run(instants, cfg, old(Abstract()), rounds).reason ==
                  Run(instants, cfg, Abstract(), rounds[i..]).reason
      {
        assert rounds[i..][0] == rounds[i] && rounds[i..][1..] == rounds[i + 1..];
        reason := Turn(rounds[i]);
        if reason.Some? { return reason; }
      }
      reason := None;
    }
  }
}
