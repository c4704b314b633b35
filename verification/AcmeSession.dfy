/**
 The client closure that owns the nonce pool, as a class. Each method is one step of the
 machine of AcmeNonce.dfy and is proved to take exactly that step.
 */
module AcmeSession {
  import opened Wrappers
  import opened AcmeNonce

  /** The scan of _chooseResign: the caller's list outside, the server's inside. */
  method ChooseResignKey(resignKeys: Option<seq<Key>>, algorithms: Option<seq<string>>) returns (pick: Option<Key>)
    ensures pick == ChooseResign(resignKeys, algorithms)
  {
    if resignKeys.None? || algorithms.None? { return None; }
    var listed, advertised := resignKeys.value, algorithms.value;
    assert listed[0..] == listed;
    for i := 0 to |listed|
      invariant FirstAdvertised(listed, advertised) == FirstAdvertised(listed[i..], advertised)
    {
      assert listed[i..][1..] == listed[i + 1..];
      for j := 0 to |advertised|
        invariant forall k :: 0 <= k < j ==> advertised[k] != listed[i].alg
      {
        if advertised[j] == listed[i].alg { return Some(listed[i]); }
      }
    }
    pick := None;
  }

  /** Shifting out the oldest one at a time leaves what WithRoom keeps. */
  lemma RoomMade(pool: seq<Entry>, k: nat)
    requires k <= |pool| && |pool[k..]| < MAX_POOL && (k > 0 ==> |pool[k..]| >= MAX_POOL - 1)
    ensures pool[k..] == WithRoom(pool) && k == |pool| - |WithRoom(pool)|
  {
  }

  /** What the step of a response changes. */
  lemma HarvestStep(max: nat, s: State, nonce: Option<string>)
    ensures nonce.None? ==> Step(max, s, Response(nonce)) == s
    ensures nonce.Some? ==>
              var kept, e := WithRoom(s.pool), Entry(|s.harvested|, nonce.value);
              Step(max, s, Response(nonce)) ==
                State(kept + [e], s.harvested + [e], s.discarded + multiset(s.pool[..|s.pool| - |kept|]), s.held,
                      s.signed, s.dropped, s.calls, s.account, s.resignKeys)
  {
    hide WithRoom;
  }

  class Session {
    const maxNonceRetries: nat
    var nonces: seq<Entry>
    var count: nat               // nonces harvested so far
    var calls: map<nat, Call>
    var account: Key
    var resignKeys: Option<seq<Key>>
    ghost var harvested: seq<Entry>
    ghost var discarded: multiset<Entry>
    ghost var held: multiset<Entry>
    ghost var signed: multiset<Entry>
    ghost var dropped: multiset<Entry>

    ghost function Abstract(): State
      reads this
    {
      State(nonces, harvested, discarded, held, signed, dropped, calls, account, resignKeys)
    }

    ghost predicate Valid()
      reads this
    {
      count == |harvested|
    }

    constructor (account: Key, resignKeys: Option<seq<Key>>, maxNonceRetries: nat)
      ensures Valid() && Abstract() == Init(account, resignKeys) && this.maxNonceRetries == maxNonceRetries
    {
      this.maxNonceRetries := maxNonceRetries;
      this.account := account;
      this.resignKeys := resignKeys;
      nonces := [];
      count := 0;
      calls := map[];
      harvested := [];
      discarded, held, signed, dropped := multiset{}, multiset{}, multiset{}, multiset{};
    }

    /** The oldest nonces leave until there is room for one more. */
    method MakeRoom()
      modifies `nonces
      ensures nonces == WithRoom(old(nonces))
    {
      ghost var k := 0;
      while |nonces| >= 32
        invariant 0 <= k <= |old(nonces)| && nonces == old(nonces)[k..] && (k > 0 ==> |nonces| >= 31)
        decreases |nonces|
      {
        nonces := nonces[1..];
        k := k + 1;
      }
      RoomMade(old(nonces), k);
    }

    /** Room is made, then the new nonce joins. */
    method HarvestNonce(nonce: Option<string>)
      requires Valid()
      modifies this
      ensures Valid() && Abstract() == Step(maxNonceRetries, old(Abstract()), Response(nonce))
    {
      hide Step, WithRoom;
      HarvestStep(maxNonceRetries, Abstract(), nonce);
      if nonce.None? { return; }
      MakeRoom();
      var e := Entry(count, nonce.value);
      discarded := discarded + multiset(old(nonces)[..|old(nonces)| - |nonces|]);
      nonces := nonces + [e];
      count := count + 1;
      harvested := harvested + [e];
    }

    method PopFor(call: nat)
      requires Valid() && call in calls && nonces != []
      modifies this
      ensures Valid() && Abstract() == GiveNonce(old(Abstract()), call)
    {
      var e := nonces[|nonces| - 1];
      nonces := nonces[..|nonces| - 1];
      calls := calls[call := calls[call].(phase := Holding(e))];
      held := held + multiset{e};
    }

    method BeginCall(call: nat, signer: Signer, okStatuses: seq<int>)
      requires Valid()
      modifies this
      ensures Valid() && Abstract() == Step(maxNonceRetries, old(Abstract()), Begin(call, signer, okStatuses))
    {
      if call !in calls {
        calls := calls[call := Call(signer, okStatuses, Taking, 0, 0, None, [])];
      }
    }

    /** A pooled nonce at once, or a request for one. */
    method TakeNonce(call: nat)
      requires Valid()
      modifies this
      ensures Valid() && Abstract() == Step(maxNonceRetries, old(Abstract()), Take(call))
    {
      if call !in calls || calls[call].phase != Taking { return; }
      if |nonces| > 0 {
        PopFor(call);
      } else {
        calls := calls[call := calls[call].(phase := Fetching)];
      }
    }

    /**
     The request for a nonce answered. On an error the pool is cut back to its length when the request was made, which
     is zero.
     */
    method NonceFetched(call: nat, ok: bool)
      requires Valid()
      modifies this
      ensures Valid() && Abstract() == Step(maxNonceRetries, old(Abstract()), HeadDone(call, ok))
    {
      if call !in calls || calls[call].phase != Fetching { return; }
      if !ok {
        discarded := discarded + multiset(nonces);
        nonces := [];
        calls := calls[call := calls[call].(phase := Failed)];
      } else if |nonces| == 0 {
        calls := calls[call := calls[call].(phase := Failed)];
      } else {
        PopFor(call);
      }
    }

    /** The request is signed with the nonce held and sent. */
    method SignRequest(call: nat)
      requires Valid()
      modifies this
      ensures Valid() && Abstract() == Step(maxNonceRetries, old(Abstract()), Sign(call))
    {
      hide AfterPost, AfterHead, GiveNonce, Harvest, AbortCall, WithRoom;
      if call !in calls || !calls[call].phase.Holding? { return; }
      var c := calls[call];
      var e := c.phase.entry;
      var key := if c.signer.Own? then c.signer.key else if c.resign.Some? then c.resign.value.pick else account;
      calls := calls[call := c.(phase := Posted, posts := c.posts + [Post(e, key, account)])];
      held := held - multiset{e};
      signed := signed + multiset{e};
    }

    /** The reply to a POST: retried on a bad nonce while retries remain, signed again once, returned, or an error. */
    method ReplyArrived(call: nat, reply: Reply)
      requires Valid()
      modifies this
      ensures Valid() && Abstract() == Step(maxNonceRetries, old(Abstract()), PostDone(call, reply))
    {
      if call !in calls || calls[call].phase != Posted { return; }
      var c := calls[call];
      var next := c.(phase := Failed);
      if reply.status >= 300 || reply.isProblem {
        if HasKind(reply, ":badNonce") && c.attempt < maxNonceRetries {
          next := c.(attempt := c.attempt + 1, phase := Taking);
        } else if c.signer.Account? && HasKind(reply, ":badSignatureAlgorithm") && c.resignAttempt < 1 {
          var pick := ChooseResignKey(resignKeys, reply.problem.value.algorithms);
          if pick.Some? {
            var resign := Resign(pick.value, resignKeys.value, reply.problem.value.algorithms.value, |c.posts|);
            next := c.(resignAttempt := c.resignAttempt + 1, phase := Taking, resign := Some(resign));
          }
        }
      } else if reply.status in c.okStatuses {
        next := c.(phase := Returned(reply.status));
      }
      calls := calls[call := next];
    }

    /** A call fails while it holds a nonce, and the nonce is lost. */
    method LoseNonce(call: nat)
      requires Valid() && call in calls && calls[call].phase.Holding?
      modifies this
      ensures Valid() && Abstract() == AbortCall(old(Abstract()), call)
    {
      var c := calls[call];
      held := held - multiset{c.phase.entry};
      dropped := dropped + multiset{c.phase.entry};
      calls := calls[call := c.(phase := Failed)];
    }

    /** A transport or signing failure ends the call; a nonce it held is lost. */
    method CallFailed(call: nat)
      requires Valid()
      modifies this
      ensures Valid() && Abstract() == Step(maxNonceRetries, old(Abstract()), Abort(call))
    {
      hide AfterPost, AfterHead, SignAndPost, GiveNonce, Harvest, WithRoom;
      if call !in calls { return; }
      var p := calls[call].phase;
      if p.Holding? {
        LoseNonce(call);
      } else if !p.Returned? {
        calls := calls[call := calls[call].(phase := Failed)];
      }
    }

    /** keyChange accepted: the new account key is in force and the keys to sign again with are gone. */
    method KeyChanged(key: Key)
      requires Valid()
      modifies this
      ensures Valid() && Abstract() == Step(maxNonceRetries, old(Abstract()), ChangeKey(key))
    {
      account := key;
      resignKeys := None;
    }
  }
}
