/** The store-from-source lease lock: Redis leases with a token and a time to live, and the coordinator's handles,
    which are kept by key and not by owner. */
module StoreLock {

  /** One lease: the token of the holder and the moment the key expires. */
  datatype Lease = Lease(token: nat, expiry: nat)

  /** The clock and the keys of Redis, with the handles of the coordinator. */
  datatype Locks = Locks(now: nat, leases: map<string, Lease>, handles: map<string, nat>, nextToken: nat)
  {
    /** A lease is gone once its time to live has passed. */
    predicate Free(key: string) {
      key !in leases || leases[key].expiry <= now
    }

    predicate HeldBy(key: string, token: nat) {
      !Free(key) && leases[key].token == token
    }

    /** Set-if-absent with a fresh token. */
    function Obtain(key: string, ttl: nat): Locks {
      this.(leases := leases[key := Lease(nextToken, now + ttl)], nextToken := nextToken + 1)
    }

    function Acquire(key: string, ttl: nat): Locks {
      if !Free(key) then this else Obtain(key, ttl).(handles := handles[key := nextToken])
    }

    /** Removes the lease only if its token is that of the handle; the handle goes in any case. */
    function Release(key: string): Locks {
      if key !in handles then this
      else this.(leases := if HeldBy(key, handles[key]) then leases - {key} else leases, handles := handles - {key})
    }

    /** A release that did not reach Redis. */
    function Forget(key: string): Locks {
      this.(handles := handles - {key})
    }

    predicate RefreshOk(key: string) {
      key in handles && HeldBy(key, handles[key])
    }

    function Refresh(key: string, ttl: nat): Locks {
      if RefreshOk(key) then this.(leases := leases[key := Lease(handles[key], now + ttl)]) else this
    }
  }

  datatype ObtainResult = Obtained(token: nat) | NotObtained | Unreachable
  datatype LockError = LockNone | LockNotObtained | LockNotHeld | LockUnreachable

  /** The Redis side: keys with a time to live, and the compare-token scripts. */
  class Redis {
    var now: nat
    var leases: map<string, Lease>
    var nextToken: nat

    constructor ()
      ensures now == 0 && leases == map[] && nextToken == 0
    {
      now, leases, nextToken := 0, map[], 0;
    }

    predicate Live(key: string)
      reads this
    {
      key in leases && now < leases[key].expiry
    }

    /** The connection may fail before or after the command took effect. */
    method SetNX(key: string, ttl: nat) returns (r: ObtainResult)
      modifies this
      ensures now == old(now)
      ensures r.NotObtained? ==> old(Live(key))
      ensures r.Obtained? ==> r.token == old(nextToken) && !old(Live(key)) && nextToken == old(nextToken) + 1
      ensures r.NotObtained? ==> nextToken == old(nextToken)
      ensures r.Unreachable? ==> nextToken == old(nextToken) || (!old(Live(key)) && nextToken == old(nextToken) + 1)
      ensures leases == if nextToken == old(nextToken) then old(leases)
                else old(leases)[key := Lease(old(nextToken), now + ttl)]
    {
      var sent: bool, answered: bool := *, *;
      if !sent {
        return Unreachable;
      }
      if Live(key) {
        r := NotObtained;
      } else {
        leases := leases[key := Lease(nextToken, now + ttl)];
        r := Obtained(nextToken);
        nextToken := nextToken + 1;
      }
      if !answered {
        r := Unreachable;
      }
    }

    method CompareAndDelete(key: string, token: nat) returns (ok: bool)
      modifies this`leases
      ensures ok <==> old(Live(key)) && old(leases)[key].token == token
      ensures leases == if ok then old(leases) - {key} else old(leases)
    {
      ok := Live(key) && leases[key].token == token;
      if ok {
        leases := leases - {key};
      }
    }

    method CompareAndExpire(key: string, token: nat, ttl: nat) returns (ok: bool)
      modifies this`leases
      ensures ok <==> old(Live(key)) && old(leases)[key].token == token
      ensures leases == if ok then old(leases)[key := Lease(token, now + ttl)] else old(leases)
    {
      ok := Live(key) && leases[key].token == token;
      if ok {
        leases := leases[key := Lease(token, now + ttl)];
      }
    }
  }

  /** The coordinator's lock table. */
  class RedisLock {
    const client: Redis
    var locks: map<string, nat>

    constructor (client: Redis)
      ensures this.client == client && locks == map[]
    {
      this.client, locks := client, map[];
    }

    ghost function State(): Locks
      reads this, client
    {
      Locks(client.now, client.leases, locks, client.nextToken)
    }

    method Acquire(key: string, ttl: nat) returns (error: LockError)
      modifies this, client
      ensures error.LockNone? ==> old(State().Free(key)) && State() == old(State()).Acquire(key, ttl)
      ensures error.LockNotObtained? ==> !old(State().Free(key)) && State() == old(State())
      ensures error.LockUnreachable? ==>
                State() == old(State()) || (old(State().Free(key)) && State() == old(State()).Obtain(key, ttl))
      ensures !error.LockNotHeld?
    {
      var lock := client.SetNX(key, ttl);
      match lock {
        case Unreachable => error := LockUnreachable;
        case Obtained(token) =>
          locks := locks[key := token];
          error := LockNone;
        case NotObtained => error := LockNotObtained;
      }
    }

    method Release(key: string) returns (error: LockError)
      modifies this, client
      ensures State() == old(State()).Release(key) || State() == old(State()).Forget(key)
      ensures error == if key in old(locks) then LockNone else LockNotHeld
    {
      if key in locks {
        var sent: bool := *;
        if sent {
          var _ := client.CompareAndDelete(key, locks[key]);
        }
        locks := locks - {key};
        return LockNone;
      }
      return LockNotHeld;
    }

    method Refresh(key: string, ttl: nat) returns (error: LockError)
      modifies client
      ensures !error.LockUnreachable? ==>
                State() == old(State()).Refresh(key, ttl) && (error.LockNone? <==> old(State()).RefreshOk(key))
      ensures error.LockUnreachable? ==> State() == old(State()) || State() == old(State()).Refresh(key, ttl)
    {
      if key !in locks {
        return LockNotHeld;
      }
      var sent: bool, answered: bool := *, *;
      if !sent {
        return LockUnreachable;
      }
      var ok := client.CompareAndExpire(key, locks[key], ttl);
      return if !answered then LockUnreachable else if ok then LockNone else LockNotObtained;
    }
  }

  // ---- the lock key -----------------------------------------------------------

  /** The source path with every slash replaced by an underscore. */
  function Mangled(path: string): string {
    seq(|path|, i requires 0 <= i < |path| => if path[i] == '/' then '_' else path[i])
  }

  function LockKey(locality: string, path: string): string {
    "blobcache:store_from_content_lock:" + locality + ":" + Mangled(path)
  }

  /** For localities without a colon, two sources share a lock exactly when their locality is the same and their
      paths agree up to slashes and underscores. */
  lemma LockKeyEqual(l1: string, p1: string, l2: string, p2: string)
    requires ':' !in l1 && ':' !in l2
    ensures LockKey(l1, p1) == LockKey(l2, p2) <==> l1 == l2 && Mangled(p1) == Mangled(p2)
  {
    if LockKey(l1, p1) == LockKey(l2, p2) {
      var prefix := "blobcache:store_from_content_lock:";
      var a, b := l1 + ":" + Mangled(p1), l2 + ":" + Mangled(p2);
      assert LockKey(l1, p1)[|prefix|..] == a && LockKey(l2, p2)[|prefix|..] == b;
      assert a[|l1|] == ':' && b[|l2|] == ':';
      assert forall i :: 0 <= i < |l1| ==> a[i] == l1[i] != ':';
      assert forall i :: 0 <= i < |l2| ==> b[i] == l2[i] != ':';
      assert l1 == a[..|l1|] && l2 == b[..|l2|];
      assert Mangled(p1) == a[|l1| + 1..] && Mangled(p2) == b[|l2| + 1..];
    }
  }

  /** With a colon in a locality, different sources of different localities can share a lock. */
  lemma LockKeyWithColon()
    ensures LockKey("a:b", "c") == LockKey("a", "b:c")
  {
    assert Mangled("c") == "c" && Mangled("b:c") == "b:c";
  }
}
