/**
 The nonce pool of the ACME client and its signed POSTs, as a machine over the steps of any
 number of calls in flight. A step is what runs between two waits: a response is harvested,
 a nonce is taken, a request is signed, a reply is acted on. Replies arrive in any order.
 */
module AcmeNonce {
  import opened Wrappers
  import Sorting

  /** One harvested nonce; id is its place among all nonces harvested. */
  datatype Entry = Entry(id: nat, value: string)

  const MAX_POOL := 32

  /** A signing key and the JWS alg it signs under. */
  datatype Key = Key(alg: string, handle: nat)

  /** Account requests may be signed again under another alg; a request with its own key may not. */
  datatype Signer = Account | Own(key: Key)

  /** The members of a parsed problem document that a retry looks at. */
  datatype Problem = Problem(kind: Option<string>, algorithms: Option<seq<string>>)

  datatype Reply = Reply(status: int, isProblem: bool, problem: Option<Problem>)

  /** A choice to sign again: the key picked, what it was picked from, and the count of POSTs before it. */
  datatype Resign = Resign(pick: Key, listed: seq<Key>, advertised: seq<string>, from: nat)

  /** One POST: its nonce, its signing key, and the account key at the time. */
  datatype Post = Post(entry: Entry, key: Key, account: Key)

  datatype Phase = Taking | Fetching | Holding(entry: Entry) | Posted | Returned(status: int) | Failed

  datatype Call = Call(signer: Signer, okStatuses: seq<int>, phase: Phase, attempt: nat, resignAttempt: nat,
      resign: Option<Resign>, posts: seq<Post>)

  datatype State = State(
    pool: seq<Entry>,
    harvested: seq<Entry>,
    discarded: multiset<Entry>,   // evicted from a full pool, or cleared with it
    held: multiset<Entry>,        // taken by a call that has not signed yet
    signed: multiset<Entry>,
    dropped: multiset<Entry>,     // taken by a call that failed before signing
    calls: map<nat, Call>,
    account: Key,
    resignKeys: Option<seq<Key>>)

  datatype Event =
    | Begin(call: nat, signer: Signer, okStatuses: seq<int>)
    | Take(call: nat)
    | Response(nonce: Option<string>)   // the Replay-Nonce of any response, none when absent or unusable
    | HeadDone(call: nat, ok: bool)
    | Sign(call: nat)
    | PostDone(call: nat, reply: Reply)
    | Abort(call: nat)
    | ChangeKey(key: Key)

  // ---------------------------------------------------------------- decisions

  /** A full pool loses its oldest entries until there is room for one more. */
  function WithRoom(pool: seq<Entry>): (kept: seq<Entry>)
    ensures |kept| < MAX_POOL && |kept| <= |pool| && kept == pool[|pool| - |kept|..]
  {
    if |pool| < MAX_POOL then pool else pool[|pool| - (MAX_POOL - 1)..]
  }

  predicate EndsWith(s: string, suffix: string) {
    |suffix| <= |s| && s[|s| - |suffix|..] == suffix
  }

  /** The first listed key whose alg the server advertised. */
  function FirstAdvertised(listed: seq<Key>, advertised: seq<string>): Option<Key> {
    if listed == [] then None
    else if listed[0].alg in advertised then Some(listed[0])
    else FirstAdvertised(listed[1..], advertised)
  }

  function ChooseResign(resignKeys: Option<seq<Key>>, algorithms: Option<seq<string>>): Option<Key> {
    if resignKeys.None? || algorithms.None? then None
    else FirstAdvertised(resignKeys.value, algorithms.value)
  }

  predicate HasKind(r: Reply, suffix: string) {
    r.isProblem && r.problem.Some? && r.problem.value.kind.Some? && EndsWith(r.problem.value.kind.value, suffix)
  }

  /** What a reply to a POST leads to: another POST, an answer, or an error. */
  function AfterPost(c: Call, r: Reply, maxNonceRetries: nat, resignKeys: Option<seq<Key>>): Call {
    if r.status >= 300 || r.isProblem then
      if HasKind(r, ":badNonce") && c.attempt < maxNonceRetries then
        c.(attempt := c.attempt + 1, phase := Taking)
      else if c.signer.Account? && HasKind(r, ":badSignatureAlgorithm") && c.resignAttempt < 1 then
        match ChooseResign(resignKeys, r.problem.value.algorithms)
        case None => c.(phase := Failed)
        case Some(pick) =>
          c.(resignAttempt := c.resignAttempt + 1, phase := Taking,
             resign := Some(Resign(pick, resignKeys.value, r.problem.value.algorithms.value, |c.posts|)))
      else c.(phase := Failed)
    else if r.status !in c.okStatuses then c.(phase := Failed)
    else c.(phase := Returned(r.status))
  }

  /** The key of the next POST of a call. */
  function SigningKey(c: Call, account: Key): Key {
    if c.signer.Own? then c.signer.key else if c.resign.Some? then c.resign.value.pick else account
  }

  // ---------------------------------------------------------------- steps

  predicate InPhase(s: State, call: nat, p: Phase) {
    call in s.calls && s.calls[call].phase == p
  }

  function SetCall(s: State, call: nat, c: Call): State {
    s.(calls := s.calls[call := c])
  }

  function SetPhase(s: State, call: nat, p: Phase): State
    requires call in s.calls
  {
    SetCall(s, call, s.calls[call].(phase := p))
  }

  /** The newest pooled nonce goes to a call. */
  function GiveNonce(s: State, call: nat): State
    requires call in s.calls && s.pool != []
  {
    var e := s.pool[|s.pool| - 1];
    SetPhase(s.(pool := s.pool[..|s.pool| - 1], held := s.held + multiset{e}), call, Holding(e))
  }

  function Harvest(s: State, nonce: Option<string>): State {
    match nonce
    case None => s
    case Some(v) =>
      var e := Entry(|s.harvested|, v);
      var kept := WithRoom(s.pool);
      s.(pool := kept + [e], harvested := s.harvested + [e],
         discarded := s.discarded + multiset(s.pool[..|s.pool| - |kept|]))
  }

  /** A request for a nonce answered: an error clears the pool, whatever was pooled meanwhile. */
  function AfterHead(s: State, call: nat, ok: bool): State
    requires call in s.calls
  {
    if !ok then SetPhase(s.(pool := [], discarded := s.discarded + multiset(s.pool)), call, Failed)
    else if s.pool == [] then SetPhase(s, call, Failed)
    else GiveNonce(s, call)
  }

  function SignAndPost(s: State, call: nat): State
    requires call in s.calls && s.calls[call].phase.Holding?
  {
    var c := s.calls[call];
    var e := c.phase.entry;
    var post := Post(e, SigningKey(c, s.account), s.account);
    SetCall(s.(held := s.held - multiset{e}, signed := s.signed + multiset{e}), call,
            c.(phase := Posted, posts := c.posts + [post]))
  }

  /** The transport, the nonce request or the signing of a call failed. */
  function AbortCall(s: State, call: nat): State
    requires call in s.calls
  {
    var p := s.calls[call].phase;
    match p
    case Holding(e) => SetPhase(s.(held := s.held - multiset{e}, dropped := s.dropped + multiset{e}), call, Failed)
    case Returned(_) => s
    case _ => SetPhase(s, call, Failed)
  }

  function Step(max: nat, s: State, e: Event): State {
    match e
    case Begin(call, signer, okStatuses) =>
      if call in s.calls then s else SetCall(s, call, Call(signer, okStatuses, Taking, 0, 0, None, []))
    case Take(call) =>
      if !InPhase(s, call, Taking) then s
      else if s.pool == [] then SetPhase(s, call, Fetching)
      else GiveNonce(s, call)
    case Response(nonce) => Harvest(s, nonce)
    case HeadDone(call, ok) => if InPhase(s, call, Fetching) then AfterHead(s, call, ok) else s
    case Sign(call) => if call in s.calls && s.calls[call].phase.Holding? then SignAndPost(s, call) else s
    case PostDone(call, reply) =>
      if InPhase(s, call, Posted) then SetCall(s, call, AfterPost(s.calls[call], reply, max, s.resignKeys)) else s
    case Abort(call) => if call in s.calls then AbortCall(s, call) else s
    case ChangeKey(key) => s.(account := key, resignKeys := None)
  }

  function Init(account: Key, resignKeys: Option<seq<Key>>): State {
    State([], [], multiset{}, multiset{}, multiset{}, multiset{}, map[], account, resignKeys)
  }

  function Run(max: nat, s: State, es: seq<Event>): State
    decreases |es|
  {
    if es == [] then s else Run(max, Step(max, s, es[0]), es[1..])
  }

  // ---------------------------------------------------------------- what every step keeps

  /** Every nonce harvested is in exactly one place. */
  ghost predicate Conserved(s: State) {
    multiset(s.harvested) == multiset(s.pool) + s.discarded + s.held + s.signed + s.dropped
  }

  ghost predicate Numbered(s: State) {
    forall i :: 0 <= i < |s.harvested| ==> s.harvested[i].id == i
  }

  ghost predicate PoolOk(s: State) {
    Conserved(s) && Numbered(s) && |s.pool| <= MAX_POOL
  }

  ghost predicate Holds(s: State, c: nat) {
    c in s.calls && s.calls[c].phase.Holding?
  }

  /** No two calls hold the same nonce. */
  ghost predicate HeldOk(s: State) {
    && (forall c | Holds(s, c) :: s.calls[c].phase.entry in s.held)
    && (forall c, d | Holds(s, c) && Holds(s, d) && c != d :: s.calls[c].phase.entry != s.calls[d].phase.entry)
  }

  ghost predicate IsPost(s: State, c: nat, i: nat) {
    c in s.calls && i < |s.calls[c].posts|
  }

  function PostEntry(s: State, c: nat, i: nat): Entry
    requires IsPost(s, c, i)
  {
    s.calls[c].posts[i].entry
  }

  /** No two POSTs, of one call or of two, carry the same nonce. */
  ghost predicate PostsOk(s: State) {
    && (forall c, i | IsPost(s, c, i) :: PostEntry(s, c, i) in s.signed)
    && (forall c, i, d, j | IsPost(s, c, i) && IsPost(s, d, j) && (c, i) != (d, j) ::
        PostEntry(s, c, i) != PostEntry(s, d, j))
  }

  /** The pick is listed, advertised, and no key listed before it is advertised. */
  ghost predicate PickOk(r: Resign) {
    exists i :: 0 <= i < |r.listed| && r.listed[i] == r.pick && r.pick.alg in r.advertised && NoneBefore(r, i)
  }

  ghost predicate NoneBefore(r: Resign, i: nat) {
    forall j :: 0 <= j < i && j < |r.listed| ==> r.listed[j].alg !in r.advertised
  }

  /** Signed by the call's own key, or by the account key of the time, or after signing again by the key picked. */
  ghost predicate SignedRight(c: Call, k: nat)
    requires k < |c.posts|
  {
    c.posts[k].key ==
      if c.signer.Own? then c.signer.key
      else if c.resign.Some? && k >= c.resign.value.from then c.resign.value.pick
      else c.posts[k].account
  }

  /** POSTs sent and one still to come are covered by the first try, the retries and the one signing again. */
  ghost predicate CallOk(max: nat, c: Call) {
    && c.attempt <= max && c.resignAttempt <= 1
    && |c.posts| + (if c.phase.Taking? || c.phase.Fetching? || c.phase.Holding? then 1 else 0) <=
       1 + c.attempt + c.resignAttempt
    && (c.resign.Some? <==> c.resignAttempt == 1) && (c.signer.Own? ==> c.resign.None?)
    && (c.resign.Some? ==> PickOk(c.resign.value) && c.resign.value.from <= |c.posts|)
    && forall k :: 0 <= k < |c.posts| ==> SignedRight(c, k)
  }

  ghost predicate CallsOk(max: nat, s: State) {
    forall c | c in s.calls :: CallOk(max, s.calls[c])
  }

  ghost predicate Safe(max: nat, s: State) {
    PoolOk(s) && HeldOk(s) && PostsOk(s) && CallsOk(max, s)
  }

  /** A nonce is harvested under one number, so it is in one place at most. */
  lemma OnePlace(s: State, e: Entry)
    requires Conserved(s) && Numbered(s)
    ensures multiset(s.pool)[e] + s.discarded[e] + s.held[e] + s.signed[e] + s.dropped[e] <= 1
  {
    if multiset(s.harvested)[e] >= 2 {
      var i, j := Sorting.TwoPlaces(s.harvested, e);
      assert false;
    }
  }

  lemma {:induction false} FirstAdvertisedOk(listed: seq<Key>, advertised: seq<string>, from: nat) returns (i: nat)
    requires FirstAdvertised(listed, advertised).Some?
    ensures i < |listed| && listed[i] == FirstAdvertised(listed, advertised).value && listed[i].alg in advertised
    ensures NoneBefore(Resign(listed[i], listed, advertised, from), i)
  {
    if listed[0].alg in advertised {
      i := 0;
    } else {
      i := FirstAdvertisedOk(listed[1..], advertised, from);
      i := i + 1;
      forall j | 0 <= j < i ensures listed[j].alg !in advertised {
        if j > 0 { assert listed[1..][j - 1] == listed[j]; }
      }
    }
  }

  lemma AfterPostOk(max: nat, c: Call, r: Reply, resignKeys: Option<seq<Key>>)
    requires CallOk(max, c) && c.phase == Posted
    ensures CallOk(max, AfterPost(c, r, max, resignKeys)) && AfterPost(c, r, max, resignKeys).posts == c.posts
    ensures !AfterPost(c, r, max, resignKeys).phase.Holding?
  {
    hide FirstAdvertised, EndsWith, PickOk;
    var d := AfterPost(c, r, max, resignKeys);
    if d.resign != c.resign {
      assert ChooseResign(resignKeys, r.problem.value.algorithms).Some? by { assert r.problem.Some?; }
      var algorithms := r.problem.value.algorithms.value;
      var i := FirstAdvertisedOk(resignKeys.value, algorithms, |c.posts|);
      PickIsOk(d.resign.value, i);
    }
    forall k | 0 <= k < |d.posts| ensures SignedRight(d, k) {
      assert SignedRight(c, k);
    }
  }

  lemma PickIsOk(r: Resign, i: nat)
    requires i < |r.listed| && r.listed[i] == r.pick && r.pick.alg in r.advertised && NoneBefore(r, i)
    ensures PickOk(r)
  {
  }

  /** A call put into a phase in which it holds no nonce, its POSTs unchanged. */
  lemma SetCallSafe(max: nat, s: State, call: nat, c: Call)
    requires Safe(max, s) && CallOk(max, c) && !c.phase.Holding?
    requires c.posts == if call in s.calls then s.calls[call].posts else []
    ensures Safe(max, SetCall(s, call, c))
  {
    hide CallOk;
    var t := SetCall(s, call, c);
    forall d, i | IsPost(t, d, i) ensures IsPost(s, d, i) && PostEntry(t, d, i) == PostEntry(s, d, i) {
    }
    assert forall d :: Holds(t, d) ==> Holds(s, d) && t.calls[d] == s.calls[d];
  }

  lemma SetPhaseSafe(max: nat, s: State, call: nat, p: Phase)
    requires Safe(max, s) && call in s.calls && !p.Holding?
    requires p.Taking? || p.Fetching? ==>
             s.calls[call].phase.Taking? || s.calls[call].phase.Fetching? || s.calls[call].phase.Holding?
    ensures Safe(max, SetPhase(s, call, p))
  {
    hide PickOk;
    var c := s.calls[call];
    var d := c.(phase := p);
    forall k | 0 <= k < |d.posts| ensures SignedRight(d, k) { assert SignedRight(c, k); }
    hide CallOk;
    SetCallSafe(max, s, call, d);
  }

  /** One nonce moves from a place to another. */
  lemma Moves(whole: multiset<Entry>, rest: multiset<Entry>, x: multiset<Entry>, x': multiset<Entry>,
      y: multiset<Entry>, e: Entry)
    requires whole == rest + x + y && x == x' + multiset{e}
    ensures whole == rest + x' + (y + multiset{e})
  {
  }

  lemma GivePool(s: State, call: nat)
    requires PoolOk(s) && call in s.calls && s.pool != []
    ensures PoolOk(GiveNonce(s, call))
  {
    var e := s.pool[|s.pool| - 1];
    var t := GiveNonce(s, call);
    assert s.pool == s.pool[..|s.pool| - 1] + [e];
    assert multiset(s.pool) == multiset(t.pool) + multiset{e};
    Moves(multiset(s.harvested), s.discarded + s.signed + s.dropped, multiset(s.pool), multiset(t.pool), s.held, e);
  }

  lemma GiveHeld(s: State, call: nat)
    requires PoolOk(s) && HeldOk(s) && call in s.calls && s.pool != [] && !Holds(s, call)
    ensures HeldOk(GiveNonce(s, call))
  {
    var e := s.pool[|s.pool| - 1];
    var t := GiveNonce(s, call);
    OnePlace(s, e);
    assert e in multiset(s.pool);
    hide PoolOk;
    assert forall b :: b != call && Holds(t, b) ==> Holds(s, b) && t.calls[b] == s.calls[b];
  }

  /** A step that leaves the POSTs of every call alone. */
  lemma SamePosts(s: State, t: State)
    requires PostsOk(s) && t.signed == s.signed && t.calls.Keys == s.calls.Keys
    requires forall b :: b in s.calls ==> t.calls[b].posts == s.calls[b].posts
    ensures PostsOk(t)
  {
    forall b, i | IsPost(t, b, i) ensures IsPost(s, b, i) && PostEntry(t, b, i) == PostEntry(s, b, i) {
    }
  }

  lemma GiveCall(max: nat, c: Call, e: Entry)
    requires CallOk(max, c) && (c.phase.Taking? || c.phase.Fetching?)
    ensures CallOk(max, c.(phase := Holding(e)))
  {
    hide PickOk;
    var d := c.(phase := Holding(e));
    forall k | 0 <= k < |d.posts| ensures SignedRight(d, k) { assert SignedRight(c, k); }
  }

  lemma GiveNonceSafe(max: nat, s: State, call: nat)
    requires Safe(max, s) && call in s.calls && s.pool != []
    requires s.calls[call].phase.Taking? || s.calls[call].phase.Fetching?
    ensures Safe(max, GiveNonce(s, call))
  {
    hide CallOk, PoolOk, HeldOk, PostsOk;
    GivePool(s, call);
    GiveHeld(s, call);
    GiveCall(max, s.calls[call], s.pool[|s.pool| - 1]);
    SamePosts(s, GiveNonce(s, call));
  }

  lemma HarvestConserves(harvested: seq<Entry>, pool: seq<Entry>, kept: seq<Entry>, e: Entry, d: multiset<Entry>,
      rest: multiset<Entry>)
    requires |kept| <= |pool| && kept == pool[|pool| - |kept|..]
    requires multiset(harvested) == multiset(pool) + d + rest
    ensures multiset(harvested + [e]) == multiset(kept + [e]) + (d + multiset(pool[..|pool| - |kept|])) + rest
  {
    var evicted := pool[..|pool| - |kept|];
    assert pool == evicted + kept;
    AddedLast(harvested, e);
    AddedLast(kept, e);
    Evicts(multiset(harvested), rest, multiset(evicted), multiset(kept), d, e);
  }

  lemma HarvestPool(s: State, v: string)
    requires PoolOk(s)
    ensures PoolOk(Harvest(s, Some(v)))
  {
    var e := Entry(|s.harvested|, v);
    HarvestNumbered(s.harvested, e);
    hide Numbered, WithRoom;
    HarvestConserves(s.harvested, s.pool, WithRoom(s.pool), e, s.discarded, s.held + s.signed + s.dropped);
    NumberedBy(Harvest(s, Some(v)));
  }

  lemma HarvestNumbered(harvested: seq<Entry>, e: Entry)
    requires (forall i :: 0 <= i < |harvested| ==> harvested[i].id == i) && e.id == |harvested|
    ensures forall i :: 0 <= i <= |harvested| ==> (harvested + [e])[i].id == i
  {
  }

  lemma NumberedBy(s: State)
    requires forall i :: 0 <= i < |s.harvested| ==> s.harvested[i].id == i
    ensures Numbered(s)
  {
  }

  lemma AddedLast(xs: seq<Entry>, e: Entry)
    ensures multiset(xs + [e]) == multiset(xs) + multiset{e}
  {
  }

  lemma Evicts(whole: multiset<Entry>, rest: multiset<Entry>, evicted: multiset<Entry>, kept: multiset<Entry>,
      d: multiset<Entry>, e: Entry)
    requires whole == rest + (evicted + kept) + d
    ensures whole + multiset{e} == rest + (kept + multiset{e}) + (d + evicted)
  {
  }

  lemma HarvestSafe(max: nat, s: State, nonce: Option<string>)
    requires Safe(max, s)
    ensures Safe(max, Harvest(s, nonce))
  {
    hide CallOk, PoolOk, HeldOk, PostsOk, CallsOk;
    if nonce.Some? { HarvestPool(s, nonce.value); }
    KeepsCalls(max, s, Harvest(s, nonce));
  }

  /** A step that leaves calls, held and signed nonces alone. */
  lemma KeepsCalls(max: nat, s: State, t: State)
    requires HeldOk(s) && PostsOk(s) && CallsOk(max, s)
    requires t.calls == s.calls && t.held == s.held && t.signed == s.signed
    ensures HeldOk(t) && PostsOk(t) && CallsOk(max, t)
  {
    hide CallOk;
    assert forall b :: Holds(t, b) <==> Holds(s, b);
    forall b, i | IsPost(t, b, i) ensures IsPost(s, b, i) && PostEntry(t, b, i) == PostEntry(s, b, i) {
    }
  }

  lemma ClearPoolSafe(max: nat, s: State)
    requires Safe(max, s)
    ensures Safe(max, s.(pool := [], discarded := s.discarded + multiset(s.pool)))
  {
    KeepsCalls(max, s, s.(pool := [], discarded := s.discarded + multiset(s.pool)));
  }

  lemma SignCallOk(max: nat, c: Call, account: Key)
    requires CallOk(max, c) && c.phase.Holding?
    ensures CallOk(max, c.(phase := Posted, posts := c.posts + [Post(c.phase.entry, SigningKey(c, account), account)]))
  {
    hide PickOk;
    var d := c.(phase := Posted, posts := c.posts + [Post(c.phase.entry, SigningKey(c, account), account)]);
    forall k | 0 <= k < |d.posts| ensures SignedRight(d, k) {
      if k < |c.posts| { assert SignedRight(c, k); }
    }
  }

  lemma SignPool(s: State, call: nat)
    requires PoolOk(s) && HeldOk(s) && Holds(s, call)
    ensures PoolOk(SignAndPost(s, call))
  {
    var e := s.calls[call].phase.entry;
    var t := SignAndPost(s, call);
    hide Numbered;
    assert s.held == (s.held - multiset{e}) + multiset{e};
    Moves(multiset(s.harvested), multiset(s.pool) + s.discarded + s.dropped, s.held, t.held, s.signed, e);
    SameHarvested(s, t);
  }

  lemma DropPool(s: State, call: nat)
    requires PoolOk(s) && HeldOk(s) && Holds(s, call)
    ensures PoolOk(AbortCall(s, call))
  {
    var e := s.calls[call].phase.entry;
    var t := AbortCall(s, call);
    hide Numbered;
    assert s.held == (s.held - multiset{e}) + multiset{e};
    Moves(multiset(s.harvested), multiset(s.pool) + s.discarded + s.signed, s.held, t.held, s.dropped, e);
    SameHarvested(s, t);
  }

  lemma SameHarvested(s: State, t: State)
    requires Numbered(s) && t.harvested == s.harvested
    ensures Numbered(t)
  {
  }

  lemma SignHeld(s: State, call: nat)
    requires PoolOk(s) && HeldOk(s) && Holds(s, call)
    ensures HeldOk(SignAndPost(s, call)) && s.signed[s.calls[call].phase.entry] == 0
  {
    var t := SignAndPost(s, call);
    OnePlace(s, s.calls[call].phase.entry);
    hide PoolOk;
    assert forall b :: Holds(t, b) ==> Holds(s, b) && b != call && t.calls[b] == s.calls[b];
  }

  lemma SignPosts(s: State, call: nat)
    requires PostsOk(s) && Holds(s, call) && s.signed[s.calls[call].phase.entry] == 0
    ensures PostsOk(SignAndPost(s, call))
  {
    var c, t := s.calls[call], SignAndPost(s, call);
    var e := c.phase.entry;
    forall b, i | IsPost(t, b, i)
      ensures (b == call && i == |c.posts|) || IsPost(s, b, i)
      ensures PostEntry(t, b, i) == if b == call && i == |c.posts| then e else PostEntry(s, b, i)
    {
    }
  }

  lemma SignSafe(max: nat, s: State, call: nat)
    requires Safe(max, s) && Holds(s, call)
    ensures Safe(max, SignAndPost(s, call))
  {
    SignPool(s, call);
    SignCallOk(max, s.calls[call], s.account);
    hide CallOk, PoolOk, PostsOk, HeldOk;
    SignHeld(s, call);
    SignPosts(s, call);
  }

  lemma DropHeld(s: State, call: nat)
    requires PoolOk(s) && HeldOk(s) && Holds(s, call)
    ensures HeldOk(AbortCall(s, call))
  {
    var u := AbortCall(s, call);
    hide PoolOk;
    assert forall b :: Holds(u, b) ==> Holds(s, b) && b != call && u.calls[b] == s.calls[b];
  }

  lemma AbortSafe(max: nat, s: State, call: nat)
    requires Safe(max, s) && call in s.calls
    ensures Safe(max, AbortCall(s, call))
  {
    hide CallOk, PoolOk, HeldOk, PostsOk;
    match s.calls[call].phase
    case Holding(e) =>
      SetPhaseSafe(max, s, call, Failed);
      DropPool(s, call);
      DropHeld(s, call);
      SamePosts(s, AbortCall(s, call));
    case Returned(_) =>
    case _ => SetPhaseSafe(max, s, call, Failed);
  }

  lemma HeadSafe(max: nat, s: State, call: nat, ok: bool)
    requires Safe(max, s) && InPhase(s, call, Fetching)
    ensures Safe(max, AfterHead(s, call, ok))
  {
    hide Safe, CallOk;
    if !ok {
      ClearPoolSafe(max, s);
      SetPhaseSafe(max, s.(pool := [], discarded := s.discarded + multiset(s.pool)), call, Failed);
    } else if s.pool == [] {
      SetPhaseSafe(max, s, call, Failed);
    } else {
      GiveNonceSafe(max, s, call);
    }
  }

  lemma BeginOk(max: nat, signer: Signer, okStatuses: seq<int>)
    ensures CallOk(max, Call(signer, okStatuses, Taking, 0, 0, None, []))
  {
  }

  lemma StepSafe(max: nat, s: State, e: Event)
    requires Safe(max, s)
    ensures Safe(max, Step(max, s, e))
  {
    hide CallOk, AfterPost, HeldOk, PostsOk, PoolOk, GiveNonce, Harvest, AfterHead, SignAndPost, AbortCall, SetPhase,
         SetCall;
    match e
    case Begin(call, signer, okStatuses) =>
      if call !in s.calls {
        BeginOk(max, signer, okStatuses);
        SetCallSafe(max, s, call, Call(signer, okStatuses, Taking, 0, 0, None, []));
      }
    case Take(call) =>
      if InPhase(s, call, Taking) {
        if s.pool == [] { SetPhaseSafe(max, s, call, Fetching); } else { GiveNonceSafe(max, s, call); }
      }
    case Response(nonce) => HarvestSafe(max, s, nonce);
    case HeadDone(call, ok) => if InPhase(s, call, Fetching) { HeadSafe(max, s, call, ok); }
    case Sign(call) => if Holds(s, call) { SignSafe(max, s, call); }
    case PostDone(call, reply) =>
      if InPhase(s, call, Posted) {
        AfterPostOk(max, s.calls[call], reply, s.resignKeys);
        SetCallSafe(max, s, call, AfterPost(s.calls[call], reply, max, s.resignKeys));
      }
    case Abort(call) => if call in s.calls { AbortSafe(max, s, call); }
    case ChangeKey(key) => ChangeKeySafe(max, s, key);
  }

  lemma ChangeKeySafe(max: nat, s: State, key: Key)
    requires Safe(max, s)
    ensures Safe(max, s.(account := key, resignKeys := None))
  {
    KeepsCalls(max, s, s.(account := key, resignKeys := None));
  }

  lemma {:induction false} RunSafe(max: nat, s: State, es: seq<Event>)
    requires Safe(max, s)
    ensures Safe(max, Run(max, s, es))
    decreases |es|
  {
    hide Safe, Step;
    if es != [] {
      StepSafe(max, s, es[0]);
      RunSafe(max, Step(max, s, es[0]), es[1..]);
    }
  }

  // ---------------------------------------------------------------- over whole runs

  lemma InitSafe(max: nat, account: Key, resignKeys: Option<seq<Key>>)
    ensures Safe(max, Init(account, resignKeys))
  {
  }

  /**
   In every run the nonces signed with, pooled, held, evicted, cleared and dropped are together the nonces harvested,
   and at most 32 are pooled.
   */
  lemma {:induction false} NoncesConserved(max: nat, account: Key, resignKeys: Option<seq<Key>>, es: seq<Event>)
    ensures var s := Run(max, Init(account, resignKeys), es);
      && multiset(s.harvested) == multiset(s.pool) + s.discarded + s.held + s.signed + s.dropped
      && |s.pool| <= 32
  {
    hide Run, Init;
    InitSafe(max, account, resignKeys);
    RunSafe(max, Init(account, resignKeys), es);
  }

  /** In every run two different POSTs carry two different nonces. */
  lemma {:induction false} NoNonceSignsTwice(max: nat, account: Key, resignKeys: Option<seq<Key>>, es: seq<Event>,
      c: nat, i: nat, d: nat, j: nat)
    requires var s := Run(max, Init(account, resignKeys), es);
      IsPost(s, c, i) && IsPost(s, d, j) && (c, i) != (d, j)
    ensures var s := Run(max, Init(account, resignKeys), es);
      PostEntry(s, c, i).id != PostEntry(s, d, j).id
  {
    hide Run, Init;
    var s := Run(max, Init(account, resignKeys), es);
    InitSafe(max, account, resignKeys);
    RunSafe(max, Init(account, resignKeys), es);
    var x, y := PostEntry(s, c, i), PostEntry(s, d, j);
    assert x in multiset(s.harvested) && y in multiset(s.harvested);
    var m :| 0 <= m < |s.harvested| && s.harvested[m] == x;
    var n :| 0 <= n < |s.harvested| && s.harvested[n] == y;
  }

  /**
   In every run a call sends at most maxNonceRetries + 2 POSTs, and signs each with the account key of the time or,
   after one choice to sign again, with the first listed key whose alg the server advertised.
   */
  lemma {:induction false} PostsBoundedAndSigned(max: nat, account: Key, resignKeys: Option<seq<Key>>,
      es: seq<Event>, c: nat)
    requires c in Run(max, Init(account, resignKeys), es).calls
    ensures var call := Run(max, Init(account, resignKeys), es).calls[c];
      && |call.posts| <= max + 2 && (call.signer.Own? ==> |call.posts| <= max + 1)
      && (call.resign.Some? ==> PickOk(call.resign.value))
      && forall k :: 0 <= k < |call.posts| ==> SignedRight(call, k)
  {
    hide Run, Init, PickOk;
    InitSafe(max, account, resignKeys);
    RunSafe(max, Init(account, resignKeys), es);
    assert CallOk(max, Run(max, Init(account, resignKeys), es).calls[c]);
  }

  // ---------------------------------------------------------------- nonces lost

  /** A nonce harvested into a full pool pushes out the oldest. */
  predicate EvictsAt(s: State, ev: Event, e: Entry) {
    ev.Response? && ev.nonce.Some? && |s.pool| == 32 && s.pool[0] == e
  }

  /** A failed request for a nonce clears what is pooled when its answer arrives. */
  predicate ClearsAt(s: State, ev: Event, e: Entry) {
    FailsFetch(s, ev) && e in s.pool
  }

  predicate FailsFetch(s: State, ev: Event) {
    ev.HeadDone? && !ev.ok && InPhase(s, ev.call, Fetching)
  }

  /** What a step evicts, and what it clears. */
  function Evicted(s: State, ev: Event): multiset<Entry> {
    if ev.Response? && ev.nonce.Some? && |s.pool| >= MAX_POOL then multiset(s.pool[..|s.pool| - (MAX_POOL - 1)])
    else multiset{}
  }

  function Cleared(s: State, ev: Event): multiset<Entry> {
    if FailsFetch(s, ev) then multiset(s.pool) else multiset{}
  }

  /** The sums of these over a run. */
  function EvictedIn(max: nat, s: State, es: seq<Event>): multiset<Entry>
    decreases |es|
  {
    if es == [] then multiset{} else Evicted(s, es[0]) + EvictedIn(max, Step(max, s, es[0]), es[1..])
  }

  function ClearedIn(max: nat, s: State, es: seq<Event>): multiset<Entry>
    decreases |es|
  {
    if es == [] then multiset{} else Cleared(s, es[0]) + ClearedIn(max, Step(max, s, es[0]), es[1..])
  }

  lemma HarvestDiscards(s: State, nonce: Option<string>)
    ensures Harvest(s, nonce).discarded == s.discarded + Evicted(s, Response(nonce))
  {
    var kept := WithRoom(s.pool);
    assert |s.pool| < MAX_POOL ==> s.pool[..|s.pool| - |kept|] == [];
  }

  lemma StepDiscards(max: nat, s: State, ev: Event)
    ensures Step(max, s, ev).discarded == s.discarded + Evicted(s, ev) + Cleared(s, ev)
  {
    hide AfterPost, Harvest, SigningKey, InPhase;
    if ev.Response? {
      HarvestDiscards(s, ev.nonce);
      assert Cleared(s, ev) == multiset{};
    } else {
      assert Evicted(s, ev) == multiset{};
    }
  }

  lemma {:induction false} RunDiscards(max: nat, s: State, es: seq<Event>)
    ensures Run(max, s, es).discarded == s.discarded + EvictedIn(max, s, es) + ClearedIn(max, s, es)
    decreases |es|
  {
    hide Step, Evicted, Cleared;
    if es != [] {
      StepDiscards(max, s, es[0]);
      RunDiscards(max, Step(max, s, es[0]), es[1..]);
    }
  }

  lemma {:induction false} RunAppend(max: nat, s: State, es: seq<Event>, ev: Event)
    ensures Run(max, s, es + [ev]) == Step(max, Run(max, s, es), ev)
    decreases |es|
  {
    hide Step;
    if es == [] {
      assert es + [ev] == [ev] && [ev][1..] == [];
    } else {
      assert (es + [ev])[0] == es[0] && (es + [ev])[1..] == es[1..] + [ev];
      RunAppend(max, Step(max, s, es[0]), es[1..], ev);
    }
  }

  /** A step is what evicts or clears a nonce, at some place of a run. */
  ghost predicate EvictedDuring(max: nat, s: State, es: seq<Event>, e: Entry) {
    exists i :: 0 <= i < |es| && EvictsAt(Run(max, s, es[..i]), es[i], e)
  }

  ghost predicate ClearedDuring(max: nat, s: State, es: seq<Event>, e: Entry) {
    exists i :: 0 <= i < |es| && ClearsAt(Run(max, s, es[..i]), es[i], e)
  }

  lemma DuringNone(max: nat, s: State, e: Entry)
    ensures !EvictedDuring(max, s, [], e) && !ClearedDuring(max, s, [], e)
  {
  }

  lemma DuringAppend(max: nat, s: State, es: seq<Event>, ev: Event, e: Entry)
    ensures EvictedDuring(max, s, es + [ev], e) <==>
            EvictedDuring(max, s, es, e) || EvictsAt(Run(max, s, es), ev, e)
    ensures ClearedDuring(max, s, es + [ev], e) <==>
            ClearedDuring(max, s, es, e) || ClearsAt(Run(max, s, es), ev, e)
  {
    hide Run, EvictsAt, ClearsAt;
    var fs := es + [ev];
    assert fs[..|es|] == es && fs[|es|] == ev;
    forall i | 0 <= i < |es| ensures fs[..i] == es[..i] && fs[i] == es[i] {
    }
  }

  lemma StepLoses(max: nat, s: State, ev: Event, e: Entry)
    requires |s.pool| <= MAX_POOL
    ensures e in Step(max, s, ev).discarded <==> e in s.discarded || EvictsAt(s, ev, e) || ClearsAt(s, ev, e)
  {
    StepDiscards(max, s, ev);
    hide Step;
    if |s.pool| == MAX_POOL { assert s.pool[..1] == [s.pool[0]]; }
  }

  lemma {:induction false} LostExactly(max: nat, s: State, es: seq<Event>, e: Entry)
    requires Safe(max, s)
    ensures e in Run(max, s, es).discarded <==>
            e in s.discarded || EvictedDuring(max, s, es, e) || ClearedDuring(max, s, es, e)
    decreases |es|
  {
    hide Step, EvictedDuring, ClearedDuring, EvictsAt, ClearsAt, HeldOk, PostsOk, CallsOk, Conserved, Numbered;
    if es == [] {
      DuringNone(max, s, e);
    } else {
      var before, ev := es[..|es| - 1], es[|es| - 1];
      assert es == before + [ev];
      hide Run;
      RunSafe(max, s, before);
      LostExactly(max, s, before, e);
      RunAppend(max, s, before, ev);
      StepLoses(max, Run(max, s, before), ev, e);
      DuringAppend(max, s, before, ev, e);
    }
  }

  /**
   In every run the nonces lost are those evicted and those cleared, and a nonce is among them exactly when at some
   step a nonce is harvested into a full pool of which it is the oldest, or a request for a nonce fails while it is
   pooled.
   */
  lemma {:induction false} DiscardedExactly(max: nat, account: Key, resignKeys: Option<seq<Key>>, es: seq<Event>,
      e: Entry)
    ensures var s := Init(account, resignKeys);
      && Run(max, s, es).discarded == EvictedIn(max, s, es) + ClearedIn(max, s, es)
      && (e in Run(max, s, es).discarded <==> EvictedDuring(max, s, es, e) || ClearedDuring(max, s, es, e))
  {
    hide Run, EvictedIn, ClearedIn, EvictedDuring, ClearedDuring;
    InitSafe(max, account, resignKeys);
    hide Safe;
    RunDiscards(max, Init(account, resignKeys), es);
    LostExactly(max, Init(account, resignKeys), es, e);
  }

  /** At some place of a run a request for a nonce fails with nonces in the pool. */
  ghost predicate FailureMeetsPool(max: nat, s: State, es: seq<Event>) {
    exists i :: 0 <= i < |es| && FailsFetch(Run(max, s, es[..i]), es[i]) && Run(max, s, es[..i]).pool != []
  }

  /** A run loses nonces to failures exactly when some request for a nonce fails with nonces in the pool. */
  lemma {:induction false} ClearedExactly(max: nat, s: State, es: seq<Event>)
    ensures ClearedIn(max, s, es) != multiset{} <==> FailureMeetsPool(max, s, es)
    decreases |es|
  {
    hide Step, FailsFetch;
    if es != [] {
      var t := Step(max, s, es[0]);
      ClearedExactly(max, t, es[1..]);
      assert s.pool != [] ==> s.pool[0] in multiset(s.pool);
      FailureShifts(max, s, es);
    }
  }

  lemma FailureShifts(max: nat, s: State, es: seq<Event>)
    requires es != []
    ensures FailureMeetsPool(max, s, es) <==>
            (FailsFetch(s, es[0]) && s.pool != []) || FailureMeetsPool(max, Step(max, s, es[0]), es[1..])
  {
    hide Step, FailsFetch;
    var t := Step(max, s, es[0]);
    forall i | 0 < i <= |es| ensures Run(max, s, es[..i]) == Run(max, t, es[1..][..i - 1]) {
      assert es[..i][0] == es[0] && es[..i][1..] == es[1..][..i - 1];
    }
    assert es[..0] == [] && Run(max, s, []) == s;
    hide Run;
    if FailureMeetsPool(max, t, es[1..]) {
      var i :| 0 <= i < |es| - 1 && FailsFetch(Run(max, t, es[1..][..i]), es[1..][i]) &&
          Run(max, t, es[1..][..i]).pool != [];
      assert es[1..][i] == es[i + 1];
      assert FailsFetch(Run(max, s, es[..i + 1]), es[i + 1]);
    }
    if FailureMeetsPool(max, s, es) {
      var i :| 0 <= i < |es| && FailsFetch(Run(max, s, es[..i]), es[i]) && Run(max, s, es[..i]).pool != [];
      if i > 0 { assert es[1..][i - 1] == es[i]; }
    }
  }

  /** A failed request for a nonce empties the pool and ends its call. */
  lemma FailedHeadClearsPool(max: nat, s: State, call: nat)
    requires InPhase(s, call, Fetching)
    ensures var t := Step(max, s, HeadDone(call, false));
      && t.pool == [] && t.discarded == s.discarded + multiset(s.pool) && InPhase(t, call, Failed)
      && t.harvested == s.harvested && t.signed == s.signed
  {
  }

  /** The events of a call that asks for a nonce, a response to another request meanwhile, and the call's refusal. */
  function FetchCrossed(call: nat, v: string): seq<Event> {
    [Begin(call, Account, [200]), Take(call), Response(Some(v)), HeadDone(call, false)]
  }

  lemma FetchStarts(max: nat, account: Key, resignKeys: Option<seq<Key>>, call: nat)
    ensures var s := Step(max, Step(max, Init(account, resignKeys), Begin(call, Account, [200])), Take(call));
      InPhase(s, call, Fetching) && s.pool == [] && s.harvested == [] && s.discarded == s.signed == multiset{}
  {
    hide AfterPost, AfterHead, Harvest, SignAndPost, AbortCall, GiveNonce;
  }

  lemma FirstPooled(max: nat, s: State, call: nat, v: string)
    requires InPhase(s, call, Fetching) && s.pool == [] && s.harvested == []
    ensures var t := Step(max, s, Response(Some(v)));
      && InPhase(t, call, Fetching) && t.pool == [Entry(0, v)] && t.harvested == [Entry(0, v)]
      && t.discarded == s.discarded && t.signed == s.signed
  {
    hide AfterPost, AfterHead, SignAndPost, AbortCall, GiveNonce;
  }

  /** So a nonce the server issued to one request is lost to the failure of another. */
  lemma PooledNonceLost(max: nat, account: Key, resignKeys: Option<seq<Key>>, call: nat, v: string)
    ensures var s := Run(max, Init(account, resignKeys), FetchCrossed(call, v));
      s.harvested == [Entry(0, v)] && s.pool == [] && s.discarded == multiset{Entry(0, v)} && s.signed == multiset{}
  {
    hide Init, InPhase, AfterPost, Harvest, SignAndPost, AbortCall, GiveNonce;
    var es, s0 := FetchCrossed(call, v), Init(account, resignKeys);
    FetchStarts(max, account, resignKeys, call);
    var s1 := Step(max, s0, es[0]);
    var s2 := Step(max, s1, es[1]);
    FirstPooled(max, s2, call, v);
    var s3 := Step(max, s2, es[2]);
    FailedHeadClearsPool(max, s3, call);
    hide Step;
    RunStep(max, s0, es);
    RunStep(max, s1, es[1..]);
    RunStep(max, s2, es[2..]);
    RunStep(max, s3, es[3..]);
    assert es[1..][1..] == es[2..] && es[2..][1..] == es[3..] && es[3..][1..] == [];
  }

  lemma RunStep(max: nat, s: State, es: seq<Event>)
    requires es != []
    ensures Run(max, s, es) == Run(max, Step(max, s, es[0]), es[1..])
  {
  }

  // ---------------------------------------------------------------- what a reply leads to

  lemma LastChar(s: string, suffix: string)
    requires EndsWith(s, suffix) && suffix != []
    ensures s != [] && s[|s| - 1] == suffix[|suffix| - 1]
  {
    assert s[|s| - |suffix|..][|suffix| - 1] == s[|s| - 1];
  }

  lemma KindsApart(r: Reply)
    ensures !(HasKind(r, ":badNonce") && HasKind(r, ":badSignatureAlgorithm"))
  {
    hide EndsWith;
    if HasKind(r, ":badNonce") { LastChar(r.problem.value.kind.value, ":badNonce"); }
    if HasKind(r, ":badSignatureAlgorithm") { LastChar(r.problem.value.kind.value, ":badSignatureAlgorithm"); }
  }

  /** A call that has met only bad nonces: each POST but the first answers one. */
  ghost predicate RetriedOnly(max: nat, c: Call) {
    && c.resignAttempt == 0 && c.attempt <= max && !c.phase.Returned? && |c.posts| <= max + 1
    && (c.phase.Taking? || c.phase.Fetching? || c.phase.Holding? ==> |c.posts| == c.attempt)
    && (c.phase.Posted? ==> |c.posts| == c.attempt + 1)
  }

  lemma BadNonceReply(max: nat, c: Call, r: Reply, resignKeys: Option<seq<Key>>)
    requires RetriedOnly(max, c) && c.phase == Posted && HasKind(r, ":badNonce")
    ensures var d := AfterPost(c, r, max, resignKeys);
      && RetriedOnly(max, d) && d.posts == c.posts && d.phase == if |c.posts| <= max then Taking else Failed
  {
    KindsApart(r);
    hide EndsWith, ChooseResign;
    assert r.isProblem;
  }

  ghost predicate Retrying(max: nat, s: State, c: nat) {
    c in s.calls ==> RetriedOnly(max, s.calls[c])
  }

  lemma HeadRetrying(max: nat, s: State, call: nat, ok: bool, c: nat)
    requires Retrying(max, s, c) && InPhase(s, call, Fetching)
    ensures Retrying(max, AfterHead(s, call, ok), c)
  {
  }

  lemma SignRetrying(max: nat, s: State, call: nat, c: nat)
    requires Retrying(max, s, c) && call in s.calls && s.calls[call].phase.Holding?
    ensures Retrying(max, SignAndPost(s, call), c)
  {
    hide SigningKey;
  }

  lemma AbortRetrying(max: nat, s: State, call: nat, c: nat)
    requires Retrying(max, s, c) && call in s.calls
    ensures Retrying(max, AbortCall(s, call), c)
  {
    if call == c { FailedRetried(max, s.calls[c]); }
    hide RetriedOnly;
  }

  lemma FailedRetried(max: nat, c: Call)
    requires |c.posts| <= max + 1 && c.resignAttempt == 0 && c.attempt <= max
    ensures RetriedOnly(max, c.(phase := Failed))
  {
  }

  lemma BadNonceStep(max: nat, s: State, ev: Event, c: nat)
    requires Retrying(max, s, c) && (ev.PostDone? && ev.call == c ==> HasKind(ev.reply, ":badNonce"))
    ensures Retrying(max, Step(max, s, ev), c)
  {
    hide AfterPost, AfterHead, SignAndPost, AbortCall, HasKind, WithRoom;
    if ev.HeadDone? && InPhase(s, ev.call, Fetching) {
      HeadRetrying(max, s, ev.call, ev.ok, c);
    } else if ev.Sign? && Holds(s, ev.call) {
      SignRetrying(max, s, ev.call, c);
    } else if ev.PostDone? && ev.call == c && InPhase(s, c, Posted) {
      BadNonceReply(max, s.calls[c], ev.reply, s.resignKeys);
    } else if ev.Abort? && ev.call in s.calls {
      AbortRetrying(max, s, ev.call, c);
    }
  }

  lemma {:induction false} BadNonceRun(max: nat, s: State, es: seq<Event>, c: nat)
    requires Retrying(max, s, c) && forall q :: PostDone(c, q) in es ==> HasKind(q, ":badNonce")
    ensures Retrying(max, Run(max, s, es), c)
    decreases |es|
  {
    hide Step, HasKind, Retrying;
    if es != [] {
      if es[0].PostDone? && es[0].call == c { assert PostDone(c, es[0].reply) in es; }
      BadNonceStep(max, s, es[0], c);
      BadNonceRun(max, Step(max, s, es[0]), es[1..], c);
    }
  }

  /**
   In every run in which a call meets nothing but bad nonces it sends at most maxNonceRetries + 1 POSTs, and at each
   bad nonce it goes on to another POST if it has sent no more than maxNonceRetries, and fails if it has.
   */
  lemma {:induction false} BadNonceRetried(max: nat, account: Key, resignKeys: Option<seq<Key>>, es: seq<Event>, c: nat,
      r: Reply)
    requires forall q :: PostDone(c, q) in es ==> HasKind(q, ":badNonce")
    requires InPhase(Run(max, Init(account, resignKeys), es), c, Posted) && HasKind(r, ":badNonce")
    ensures var s := Run(max, Init(account, resignKeys), es);
      var t, sent := Step(max, s, PostDone(c, r)), |s.calls[c].posts|;
      && 1 <= sent <= max + 1 && c in t.calls && t.calls[c].posts == s.calls[c].posts
      && t.calls[c].phase == if sent <= max then Taking else Failed
  {
    hide Run, HasKind, AfterPost;
    BadNonceRun(max, Init(account, resignKeys), es, c);
    var s := Run(max, Init(account, resignKeys), es);
    BadNonceReply(max, s.calls[c], r, s.resignKeys);
  }

  lemma ResignReply(max: nat, c: Call, r: Reply, resignKeys: Option<seq<Key>>)
    requires c.phase == Posted && HasKind(r, ":badSignatureAlgorithm") && (c.resign.Some? <==> c.resignAttempt == 1)
    requires c.resignAttempt <= 1
    ensures var d, pick := AfterPost(c, r, max, resignKeys), ChooseResign(resignKeys, r.problem.value.algorithms);
      && d.posts == c.posts && d.signer == c.signer
      && if c.signer.Own? || c.resign.Some? || pick.None? then d.phase == Failed
         else
           && d.phase == Taking && d.resign.Some?
           && d.resign.value.pick == pick.value && d.resign.value.from == |c.posts|
  {
    KindsApart(r);
    assert r.isProblem && r.problem.Some?;
    hide EndsWith, ChooseResign;
  }

  /** A call that has signed again keeps its choice. */
  ghost predicate Chosen(s: State, c: nat, resign: Resign) {
    c in s.calls && s.calls[c].resign == Some(resign)
  }

  lemma ChosenStep(max: nat, s: State, ev: Event, c: nat, resign: Resign)
    requires CallsOk(max, s) && Chosen(s, c, resign)
    ensures Chosen(Step(max, s, ev), c, resign)
  {
    assert CallOk(max, s.calls[c]);
    hide CallOk, AfterHead, SignAndPost, AbortCall, AfterPost, WithRoom, HasKind;
    if ev.HeadDone? && InPhase(s, ev.call, Fetching) {
      HeadChosen(s, ev.call, ev.ok, c, resign);
    } else if ev.Sign? && Holds(s, ev.call) {
      SignChosen(s, ev.call, c, resign);
    } else if ev.PostDone? && ev.call == c && InPhase(s, c, Posted) {
      PostChosen(max, s.calls[c], ev.reply, s.resignKeys);
    } else if ev.Abort? && ev.call in s.calls {
      AbortChosen(s, ev.call, c, resign);
    }
  }

  lemma HeadChosen(s: State, call: nat, ok: bool, c: nat, resign: Resign)
    requires Chosen(s, c, resign) && call in s.calls
    ensures Chosen(AfterHead(s, call, ok), c, resign)
  {
  }

  lemma SignChosen(s: State, call: nat, c: nat, resign: Resign)
    requires Chosen(s, c, resign) && Holds(s, call)
    ensures Chosen(SignAndPost(s, call), c, resign)
  {
  }

  lemma AbortChosen(s: State, call: nat, c: nat, resign: Resign)
    requires Chosen(s, c, resign) && call in s.calls
    ensures Chosen(AbortCall(s, call), c, resign)
  {
  }

  lemma PostChosen(max: nat, c: Call, r: Reply, resignKeys: Option<seq<Key>>)
    requires CallOk(max, c) && c.resign.Some?
    ensures AfterPost(c, r, max, resignKeys).resign == c.resign
  {
    hide HasKind, ChooseResign, PickOk, SignedRight;
  }

  lemma {:induction false} ChosenRun(max: nat, s: State, es: seq<Event>, c: nat, resign: Resign)
    requires Safe(max, s) && Chosen(s, c, resign)
    ensures Safe(max, Run(max, s, es)) && Chosen(Run(max, s, es), c, resign)
    decreases |es|
  {
    hide Step, HeldOk, PostsOk, PoolOk, CallsOk, Chosen;
    if es != [] {
      ChosenStep(max, s, es[0], c, resign);
      StepSafe(max, s, es[0]);
      ChosenRun(max, Step(max, s, es[0]), es[1..], c, resign);
    }
  }

  lemma ChosenSigns(max: nat, s: State, c: nat, resign: Resign, k: nat)
    requires Safe(max, s) && Chosen(s, c, resign) && resign.from <= k < |s.calls[c].posts|
    ensures s.calls[c].posts[k].key == resign.pick
  {
    hide HeldOk, PostsOk, PoolOk, PickOk;
    assert CallOk(max, s.calls[c]) && SignedRight(s.calls[c], k);
  }

  /**
   In every run a refused signature algorithm ends a call that has signed again already, or may not, or finds no key
   to sign with; any other call goes on, and whatever happens after, each further POST of it is signed under the
   first listed key the server advertised.
   */
  lemma {:induction false} SignedAgainOnce(max: nat, account: Key, resignKeys: Option<seq<Key>>, es: seq<Event>, c: nat,
      r: Reply, fs: seq<Event>)
    requires InPhase(Run(max, Init(account, resignKeys), es), c, Posted) && HasKind(r, ":badSignatureAlgorithm")
    ensures var s := Run(max, Init(account, resignKeys), es);
      var t, pick := Step(max, s, PostDone(c, r)), ChooseResign(s.resignKeys, r.problem.value.algorithms);
      var u := Run(max, t, fs);
      && c in t.calls && t.calls[c].posts == s.calls[c].posts
      && if s.calls[c].signer.Own? || s.calls[c].resign.Some? || pick.None? then t.calls[c].phase == Failed
         else
           && t.calls[c].phase == Taking && c in u.calls
           && forall k :: |s.calls[c].posts| <= k < |u.calls[c].posts| ==> u.calls[c].posts[k].key == pick.value
  {
    hide Run, Init, HasKind, AfterPost, ChooseResign, PickOk, SignedRight;
    InitSafe(max, account, resignKeys);
    RunSafe(max, Init(account, resignKeys), es);
    var s := Run(max, Init(account, resignKeys), es);
    assert CallOk(max, s.calls[c]);
    ResignReply(max, s.calls[c], r, s.resignKeys);
    hide Safe, CallOk;
    var t := Step(max, s, PostDone(c, r));
    if t.calls[c].phase == Taking {
      var resign := t.calls[c].resign.value;
      StepSafe(max, s, PostDone(c, r));
      ChosenRun(max, t, fs, c, resign);
      var u := Run(max, t, fs);
      forall k | |s.calls[c].posts| <= k < |u.calls[c].posts| ensures u.calls[c].posts[k].key == resign.pick {
        ChosenSigns(max, u, c, resign, k);
      }
    }
  }

  // ---------------------------------------------------------------- order of the pool

  /** The pool holds its nonces in the order they were harvested. */
  ghost predicate Ordered(s: State) {
    && (forall i, j :: 0 <= i < j < |s.pool| ==> s.pool[i].id < s.pool[j].id)
    && (forall i :: 0 <= i < |s.pool| ==> s.pool[i].id < |s.harvested|)
  }

  lemma HarvestOrdered(s: State, v: string)
    requires Ordered(s)
    ensures Ordered(Harvest(s, Some(v)))
  {
    hide WithRoom;
    var kept := WithRoom(s.pool);
    assert Harvest(s, Some(v)).pool == kept + [Entry(|s.harvested|, v)];
  }

  /** Taking from the end, or clearing, keeps the order. */
  lemma PrefixOrdered(s: State, t: State)
    requires Ordered(s) && t.pool <= s.pool && t.harvested == s.harvested
    ensures Ordered(t)
  {
  }

  lemma StepOrdered(max: nat, s: State, e: Event)
    requires Ordered(s)
    ensures Ordered(Step(max, s, e))
  {
    hide AfterPost, Ordered, Harvest;
    if e.Response? {
      if e.nonce.Some? { HarvestOrdered(s, e.nonce.value); } else { NothingHarvested(s); }
    } else {
      PrefixOrdered(s, Step(max, s, e));
    }
  }

  lemma NothingHarvested(s: State)
    ensures Harvest(s, None) == s
  {
  }

  lemma {:induction false} RunOrdered(max: nat, s: State, es: seq<Event>)
    requires Ordered(s)
    ensures Ordered(Run(max, s, es))
    decreases |es|
  {
    hide Step, Ordered;
    if es != [] {
      StepOrdered(max, s, es[0]);
      RunOrdered(max, Step(max, s, es[0]), es[1..]);
    }
  }

  lemma InitOrdered(account: Key, resignKeys: Option<seq<Key>>)
    ensures Ordered(Init(account, resignKeys))
  {
  }

  /** A call asks for a nonce, or its request for one has been answered. */
  predicate Takes(s: State, ev: Event, call: nat) {
    (ev == Take(call) && InPhase(s, call, Taking)) || (ev == HeadDone(call, true) && InPhase(s, call, Fetching))
  }

  /**
   In every run a call that asks for a nonce, or whose request for one has been answered, takes the newest pooled; with
   none pooled the first sends a request and the second fails.
   */
  lemma {:induction false} NewestTaken(max: nat, account: Key, resignKeys: Option<seq<Key>>, es: seq<Event>, call: nat,
      ev: Event)
    requires Takes(Run(max, Init(account, resignKeys), es), ev, call)
    ensures var s := Run(max, Init(account, resignKeys), es);
      var t := Step(max, s, ev);
      if s.pool == [] then t.pool == [] && InPhase(t, call, if ev.Take? then Fetching else Failed)
      else
        && call in t.calls && t.calls[call].phase.Holding?
        && t.calls[call].phase.entry in s.pool && t.calls[call].phase.entry !in t.pool
        && forall e :: e in t.pool ==> e.id < t.calls[call].phase.entry.id
  {
    hide Run, Init;
    InitOrdered(account, resignKeys);
    RunOrdered(max, Init(account, resignKeys), es);
  }

  /** In a list of rising ids what is cut off the front is older than what stays and than what is added. */
  lemma CutOffOlder(pool: seq<Entry>, k: nat, added: Entry, e: Entry, f: Entry)
    requires k <= |pool| && forall i, j :: 0 <= i < j < |pool| ==> pool[i].id < pool[j].id
    requires forall i :: 0 <= i < |pool| ==> pool[i].id < added.id
    requires e in pool && e !in pool[k..] && (f in pool[k..] || f == added)
    ensures e.id < f.id
  {
    var i :| 0 <= i < |pool| && pool[i] == e;
    if f in pool[k..] {
      var j :| 0 <= j < |pool| - k && pool[k..][j] == f;
      assert pool[k + j] == f;
    }
  }

  lemma EvictedOlder(s: State, v: string, e: Entry, f: Entry)
    requires Ordered(s) && e in s.pool && e !in Harvest(s, Some(v)).pool && f in Harvest(s, Some(v)).pool
    ensures e.id < f.id
  {
    hide WithRoom;
    var kept, added := WithRoom(s.pool), Entry(|s.harvested|, v);
    assert Harvest(s, Some(v)).pool == kept + [added];
    CutOffOlder(s.pool, |s.pool| - |kept|, added, e, f);
  }

  /** In every run a nonce harvested into a full pool evicts only nonces older than all that stay. */
  lemma {:induction false} OldestEvicted(max: nat, account: Key, resignKeys: Option<seq<Key>>, es: seq<Event>,
      v: string, e: Entry, f: Entry)
    requires var s := Run(max, Init(account, resignKeys), es);
      var t := Step(max, s, Response(Some(v)));
      e in s.pool && e !in t.pool && f in t.pool
    ensures e.id < f.id
  {
    hide Run, Init, Harvest, Ordered;
    InitOrdered(account, resignKeys);
    RunOrdered(max, Init(account, resignKeys), es);
    EvictedOlder(Run(max, Init(account, resignKeys), es), v, e, f);
  }
}
