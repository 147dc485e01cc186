/** Every run of `StoreContentFromSourceWithLock` calls on any number of servers against one coordinator: acquire,
    the refresher's ticks, releases and their arrival at any later moment, the error path that returns without
    releasing, lost messages, coordinator restarts and the passing of time. */
module LockRuns {
  import opened StoreLock

  /** The lease time of the store lock, in milliseconds. */
  const TTL: nat := 5000

  /** One call: it stores until it sends its release or fails; its refresher and its release may outlive it. `since` is
      the moment of its acquire or of the last refresh it made that took effect. */
  datatype Worker = Worker(key: string, token: nat, since: nat, storing: bool, refreshing: bool, releasing: bool)

  /** `touched` remembers for each key when its lease was last acquired or refreshed. */
  datatype System = System(locks: Locks, workers: map<nat, Worker>, touched: map<string, nat>)

  const START := System(Locks(0, map[], map[], 0), map[], map[])

  /** How far an acquire gets: told to the worker, lost on the way back to it, or lost on the way back to the
      coordinator. */
  datatype Answer = Told | Untold | Unheard

  datatype Event =
    | Tick(elapsed: nat)
    | Acquire(w: nat, locality: string, path: string, answer: Answer)
    | Refresh(w: nat)
    | SendRelease(w: nat)
    | DeliverRelease(w: nat, sent: bool)
    | LoseRelease(w: nat)
    | Abandon(w: nat)
    | StopRefresher(w: nat)
    | CoordinatorRestart

  function Next(s: System, e: Event): System {
    match e
    case Tick(elapsed) => s.(locks := s.locks.(now := s.locks.now + elapsed))
    case Acquire(w, locality, path, answer) => NextAcquire(s, w, LockKey(locality, path), answer)
    case Refresh(w) => NextRefresh(s, w)
    case SendRelease(w) =>
      if w !in s.workers || !s.workers[w].storing then s
      else s.(workers := s.workers[w := s.workers[w].(storing := false, releasing := true)])
    case DeliverRelease(w, sent) => NextDeliver(s, w, sent)
    case LoseRelease(w) =>
      if w !in s.workers then s else s.(workers := s.workers[w := s.workers[w].(releasing := false)])
    case Abandon(w) =>
      if w !in s.workers then s else s.(workers := s.workers[w := s.workers[w].(storing := false)])
    case StopRefresher(w) =>
      if w !in s.workers || s.workers[w].storing then s
      else s.(workers := s.workers[w := s.workers[w].(refreshing := false)])
    case CoordinatorRestart => s.(locks := s.locks.(handles := map[]))
  }

  function NextAcquire(s: System, w: nat, key: string, answer: Answer): System {
    if w in s.workers || !s.locks.Free(key) then s
    else
      var token, now := s.locks.nextToken, s.locks.now;
      var t := s.(touched := s.touched[key := now]);
      match answer
      case Unheard => t.(locks := s.locks.Obtain(key, TTL))
      case Untold => t.(locks := s.locks.Acquire(key, TTL))
      case Told =>
        t.(locks := s.locks.Acquire(key, TTL), workers := s.workers[w := Worker(key, token, now, true, true, false)])
  }

  /** A tick of the refresher of `w`, which may come after `w` has ended. It names only the key. */
  function NextRefresh(s: System, w: nat): System {
    if w !in s.workers || !s.workers[w].refreshing then s
    else
      var worker := s.workers[w];
      if !s.locks.RefreshOk(worker.key) then s
      else
        s.(locks := s.locks.Refresh(worker.key, TTL), touched := s.touched[worker.key := s.locks.now],
           workers := if worker.storing || worker.releasing then s.workers[w := worker.(since := s.locks.now)]
               else s.workers)
  }

  /** The release of `w` reaches the coordinator, which may be long after `w` has ended, and the coordinator reaches
      Redis or not. It names only the key. */
  function NextDeliver(s: System, w: nat, sent: bool): System {
    if w !in s.workers || !s.workers[w].releasing then s
    else
      var key := s.workers[w].key;
      s.(locks := if sent then s.locks.Release(key) else s.locks.Forget(key),
         workers := s.workers[w := s.workers[w].(releasing := false)])
  }

  function Run(s: System, es: seq<Event>): System
    decreases |es|
  {
    if es == [] then s else Run(Next(s, es[0]), es[1..])
  }

  ghost predicate Storing(s: System, w: nat) {
    w in s.workers && s.workers[w].storing
  }

  /** The worker is storing, or its release is still on the way. */
  ghost predicate Busy(s: System, w: nat) {
    w in s.workers && (s.workers[w].storing || s.workers[w].releasing)
  }

  /** No busy worker has gone a full lease time without a refresh that took effect. */
  ghost predicate Timely(s: System) {
    forall w :: Busy(s, w) ==> s.locks.now < s.workers[w].since + TTL
  }

  /** Every state of the run before the last one is timely. */
  ghost predicate TimelyRun(s: System, es: seq<Event>)
    decreases |es|
  {
    es == [] || (Timely(s) && TimelyRun(Next(s, es[0]), es[1..]))
  }

  ghost predicate AtMostOne(s: System) {
    forall w, w' :: Storing(s, w) && Storing(s, w') && s.workers[w].key == s.workers[w'].key ==> w == w'
  }

  // ---- what holds in every run ---------------------------------------------------

  /** Tokens are never reused, a worker that has sent its release is not storing, and each lease runs out exactly one
      lease time after it was last touched. */
  ghost predicate Sound(s: System) {
    && (forall k :: k in s.locks.leases ==> s.locks.leases[k].token < s.locks.nextToken)
    && (forall k :: k in s.locks.handles ==> s.locks.handles[k] < s.locks.nextToken)
    && (forall w :: w in s.workers ==>
      s.workers[w].token < s.locks.nextToken && !(s.workers[w].storing && s.workers[w].releasing))
    && (forall w, w' :: w in s.workers && w' in s.workers && s.workers[w].token == s.workers[w'].token ==> w == w')
    && (forall k :: k in s.locks.leases ==>
          k in s.touched && s.touched[k] <= s.locks.now && s.locks.leases[k].expiry == s.touched[k] + TTL)
  }

  lemma AcquireKeepsSound(s: System, w: nat, key: string, answer: Answer)
    requires Sound(s)
    ensures Sound(NextAcquire(s, w, key, answer))
  {
  }

  lemma RefreshKeepsSound(s: System, w: nat)
    requires Sound(s)
    ensures Sound(NextRefresh(s, w))
  {
  }

  lemma DeliverKeepsSound(s: System, w: nat, sent: bool)
    requires Sound(s)
    ensures Sound(NextDeliver(s, w, sent))
  {
  }

  lemma NextKeepsSound(s: System, e: Event)
    requires Sound(s)
    ensures Sound(Next(s, e))
  {
    match e
    case Acquire(w, locality, path, answer) => AcquireKeepsSound(s, w, LockKey(locality, path), answer);
    case Refresh(w) => RefreshKeepsSound(s, w);
    case DeliverRelease(w, sent) => DeliverKeepsSound(s, w, sent);
    case Tick(elapsed) =>
    case CoordinatorRestart =>
    case _ => WorkerKeepsSound(s, e);
  }

  lemma WorkerKeepsSound(s: System, e: Event)
    requires Sound(s) && (e.SendRelease? || e.LoseRelease? || e.Abandon? || e.StopRefresher?)
    ensures Sound(Next(s, e))
  {
  }

  lemma {:induction false} RunKeepsSound(s: System, es: seq<Event>)
    requires Sound(s)
    ensures Sound(Run(s, es))
    decreases |es|
  {
    if es != [] {
      NextKeepsSound(s, es[0]);
      RunKeepsSound(Next(s, es[0]), es[1..]);
    }
  }

  /** In every run, timely or not, a refresher's tick, even one of a worker that has ended, changes no holder: a key
      that was held stays held under the same token for at least as long, a key that was free stays free. */
  lemma RefreshAdmitsNobody(es: seq<Event>, w: nat, key: string)
    ensures SameHolders(Run(START, es), Next(Run(START, es), Refresh(w)), key)
  {
    RunKeepsSound(START, es);
    RefreshStep(Run(START, es), w, key);
  }

  /** The key is free in both states, or held under the same token for at least as long; and the same workers store. */
  ghost predicate SameHolders(s: System, t: System, key: string) {
    && (s.locks.Free(key) <==> t.locks.Free(key))
    && (!s.locks.Free(key) ==> t.locks.leases[key].token == s.locks.leases[key].token
                               && t.locks.leases[key].expiry >= s.locks.leases[key].expiry)
    && (forall other :: Storing(s, other) <==> Storing(t, other))
  }

  lemma RefreshStep(s: System, w: nat, key: string)
    requires Sound(s)
    ensures SameHolders(s, NextRefresh(s, w), key)
  {
  }

  /** In every run, a release that arrives removes the lease of another worker exactly when the handle under the key has
      another token than the releaser's and still holds the live lease. */
  lemma ForeignReleaseIff(es: seq<Event>, w: nat)
    requires w in Run(START, es).workers && Run(START, es).workers[w].releasing
    ensures var s := Run(START, es);
            var Worker(key, token, _, _, _, _) := s.workers[w];
            var t := Next(s, DeliverRelease(w, true));
            key in s.locks.leases && key !in t.locks.leases && s.locks.leases[key].token != token
            <==> key in s.locks.handles && s.locks.handles[key] != token && s.locks.HeldBy(key, s.locks.handles[key])
  {
  }

  // ---- what holds in timely runs ----------------------------------------------------

  /** A busy worker's lease is in place, lasts at least as long as its last refresh promised, and the handle
      under its key, if any, is its own. */
  ghost predicate Holds(s: System, w: nat)
    requires w in s.workers
  {
    var Worker(key, token, since, _, _, _) := s.workers[w];
    && key in s.locks.leases && s.locks.leases[key].token == token && since + TTL <= s.locks.leases[key].expiry
    && (key in s.locks.handles ==> s.locks.handles[key] == token)
  }

  ghost predicate Inv(s: System) {
    Sound(s) && forall w :: Busy(s, w) ==> Holds(s, w)
  }

  lemma InvMeansAtMostOne(s: System, w: nat, w': nat)
    requires Inv(s) && Busy(s, w) && Busy(s, w') && s.workers[w].key == s.workers[w'].key
    ensures w == w'
  {
    assert Holds(s, w) && Holds(s, w');
  }

  lemma AcquireKeepsHolds(s: System, w: nat, key: string, answer: Answer, other: nat)
    requires Inv(s) && Timely(s) && Busy(NextAcquire(s, w, key, answer), other)
    ensures Holds(NextAcquire(s, w, key, answer), other)
  {
    if Busy(s, other) {
      assert Holds(s, other);
    }
  }

  lemma RefreshKeepsHolds(s: System, w: nat, other: nat)
    requires Inv(s) && Busy(NextRefresh(s, w), other)
    ensures Holds(NextRefresh(s, w), other)
  {
    assert Busy(s, other) && Holds(s, other);
  }

  /** When a release arrives in time, no other worker's lease or handle can go with it. */
  lemma DeliverKeepsHolds(s: System, w: nat, sent: bool, other: nat)
    requires Inv(s) && Busy(NextDeliver(s, w, sent), other)
    ensures Holds(NextDeliver(s, w, sent), other)
  {
    assert Busy(s, other) && Holds(s, other);
    if Busy(s, w) {
      assert Holds(s, w);
    }
  }

  lemma NextKeepsHolds(s: System, e: Event, other: nat)
    requires Inv(s) && Timely(s) && Busy(Next(s, e), other)
    ensures Holds(Next(s, e), other)
  {
    match e
    case Acquire(w, locality, path, answer) => AcquireKeepsHolds(s, w, LockKey(locality, path), answer, other);
    case Refresh(w) => RefreshKeepsHolds(s, w, other);
    case DeliverRelease(w, sent) => DeliverKeepsHolds(s, w, sent, other);
    case _ => assert Busy(s, other) && Holds(s, other);
  }

  lemma NextKeepsInv(s: System, e: Event)
    requires Inv(s) && Timely(s)
    ensures Inv(Next(s, e))
  {
    NextKeepsSound(s, e);
    forall w | Busy(Next(s, e), w) ensures Holds(Next(s, e), w) {
      NextKeepsHolds(s, e, w);
    }
  }

  lemma {:induction false} RunKeepsInv(s: System, es: seq<Event>)
    requires Inv(s) && TimelyRun(s, es)
    ensures Inv(Run(s, es))
    decreases |es|
  {
    if es != [] {
      NextKeepsInv(s, es[0]);
      RunKeepsInv(Next(s, es[0]), es[1..]);
    }
  }

  /** Mutual exclusion: in every timely run at most one worker per lock key, hence per locality and path, is storing or
      has its release on the way. */
  lemma MutualExclusion(es: seq<Event>, w: nat, w': nat)
    requires TimelyRun(START, es) && Busy(Run(START, es), w) && Busy(Run(START, es), w')
    requires Run(START, es).workers[w].key == Run(START, es).workers[w'].key
    ensures w == w'
  {
    RunKeepsInv(START, es);
    InvMeansAtMostOne(Run(START, es), w, w');
  }

  /** In every timely run an arriving release removes at most the releaser's own lease, although it names only the
      key. */
  lemma ReleaseIsOwn(es: seq<Event>, w: nat, sent: bool, key: string)
    requires TimelyRun(START, es) && w in Run(START, es).workers && key in Run(START, es).locks.leases
    requires key !in Next(Run(START, es), DeliverRelease(w, sent)).locks.leases
    ensures var s := Run(START, es); key == s.workers[w].key && s.locks.leases[key].token == s.workers[w].token
  {
    RunKeepsInv(START, es);
    assert Busy(Run(START, es), w) && Holds(Run(START, es), w);
  }

  /** Exactness: in every run, timely or not, as long as exclusion holds the next acquire breaks it if and only if the
      key is free while some worker stores under it. */
  lemma AcquireBreaksIff(es: seq<Event>, other: nat, locality: string, path: string)
    requires AtMostOne(Run(START, es)) && other !in Run(START, es).workers
    ensures var s, key := Run(START, es), LockKey(locality, path);
            !AtMostOne(Next(s, Acquire(other, locality, path, Told)))
            <==> s.locks.Free(key) && exists w :: Storing(s, w) && s.workers[w].key == key
  {
    AcquireStepIff(Run(START, es), other, LockKey(locality, path));
  }

  lemma AcquireStepIff(s: System, other: nat, key: string)
    requires AtMostOne(s) && other !in s.workers
    ensures !AtMostOne(NextAcquire(s, other, key, Told))
            <==> s.locks.Free(key) && exists w :: Storing(s, w) && s.workers[w].key == key
  {
    var t := NextAcquire(s, other, key, Told);
    if s.locks.Free(key) {
      assert Storing(t, other) && t.workers[other].key == key;
      forall w | w != other ensures Storing(t, w) <==> Storing(s, w) {
      }
      if w :| Storing(s, w) && s.workers[w].key == key {
        assert Storing(t, w) && t.workers[w].key == key;
      }
    }
  }

  lemma RunAt(s: System, es: seq<Event>, i: nat)
    requires i < |es|
    ensures Run(s, es[i..]) == Run(Next(s, es[i]), es[i + 1..])
  {
    assert es[i..][1..] == es[i + 1..];
  }

  /** Without timeliness of the storing: for every source, a worker that stalls for one lease time lets a second one
      in. */
  lemma StalledWorkerBreaksExclusion(locality: string, path: string)
    ensures var s := Run(START, [Acquire(0, locality, path, Told), Tick(TTL), Acquire(1, locality, path, Told)]);
            Storing(s, 0) && Storing(s, 1) && s.workers[0].key == s.workers[1].key == LockKey(locality, path)
  {
    var es := [Acquire(0, locality, path, Told), Tick(TTL), Acquire(1, locality, path, Told)];
    var s1 := Next(START, es[0]);
    var s2 := Next(s1, es[1]);
    assert es[0..] == es && es[3..] == [];
    RunAt(START, es, 0);
    RunAt(s1, es, 1);
    RunAt(s2, es, 2);
  }

  /** A release that is sent, arrives one lease time later, and meets the next holder. */
  function LateRelease(locality: string, path: string): seq<Event> {
    [Acquire(0, locality, path, Told), SendRelease(0), StopRefresher(0), Tick(TTL), Acquire(1, locality, path, Told),
     DeliverRelease(0, true), Acquire(2, locality, path, Told)]
  }

  ghost predicate InTime(s: System) {
    forall w :: Storing(s, w) ==> s.locks.now < s.workers[w].since + TTL
  }

  /** No worker goes a full lease time without refresh while it is storing. */
  ghost predicate StoresInTime(s: System, es: seq<Event>)
    decreases |es|
  {
    && InTime(s)
    && (es == [] || StoresInTime(Next(s, es[0]), es[1..]))
  }

  /** Timeliness of the storing is not enough: for every source, a release that arrives one lease time late removes the
      lease of the second worker, which is storing and in time, and lets a third one in. */
  lemma LateReleaseBreaksExclusion(locality: string, path: string)
    ensures StoresInTime(START, LateRelease(locality, path))
    ensures var s := Run(START, LateRelease(locality, path));
            Storing(s, 1) && Storing(s, 2) && s.workers[1].key == s.workers[2].key == LockKey(locality, path)
  {
    var es := LateRelease(locality, path);
    assert es[0..] == es;
    UntilLate(locality, path, es);
    AfterLate(locality, path, es);
  }

  /** The state in which the first worker has ended, its lease has run out and its release has not arrived. */
  function Late(key: string): System {
    System(Locks(TTL, map[key := Lease(0, TTL)], map[key := 0], 1),
           map[0 := Worker(key, 0, 0, false, false, true)], map[key := 0])
  }

  lemma UntilLate(locality: string, path: string, es: seq<Event>)
    requires es == LateRelease(locality, path)
    ensures Run(START, es[0..]) == Run(Late(LockKey(locality, path)), es[4..])
    ensures StoresInTime(Late(LockKey(locality, path)), es[4..]) ==> StoresInTime(START, es[0..])
  {
    var s1 := Next(START, es[0]);
    var s2 := Next(s1, es[1]);
    var s3 := Next(s2, es[2]);
    assert Next(s3, es[3]) == Late(LockKey(locality, path));
    RunAt(START, es, 0);
    RunAt(s1, es, 1);
    RunAt(s2, es, 2);
    RunAt(s3, es, 3);
    if StoresInTime(Late(LockKey(locality, path)), es[4..]) {
      InTimeAt(s3, es, 3);
      InTimeAt(s2, es, 2);
      InTimeAt(s1, es, 1);
      InTimeAt(START, es, 0);
    }
  }

  lemma AfterLate(locality: string, path: string, es: seq<Event>)
    requires es == LateRelease(locality, path)
    ensures StoresInTime(Late(LockKey(locality, path)), es[4..])
    ensures var s := Run(Late(LockKey(locality, path)), es[4..]);
            Storing(s, 1) && Storing(s, 2) && s.workers[1].key == s.workers[2].key == LockKey(locality, path)
  {
    var key := LockKey(locality, path);
    var s5 := Next(Late(key), es[4]);
    var s6 := Next(s5, es[5]);
    LateSteps(key, s5, s6);
    BothStore(key, s5, s6, Next(s6, es[6]));
    assert es[7..] == [];
    RunAt(Late(key), es, 4);
    RunAt(s5, es, 5);
    RunAt(s6, es, 6);
    InTimeAt(s6, es, 6);
    InTimeAt(s5, es, 5);
    InTimeAt(Late(key), es, 4);
  }

  /** The second worker acquires and the first one's release arrives. */
  lemma LateSteps(key: string, s5: System, s6: System)
    requires s5 == NextAcquire(Late(key), 1, key, Told) && s6 == NextDeliver(s5, 0, true)
    ensures InTime(Late(key)) && InTime(s5) && InTime(s6)
  {
  }

  /** Then the third one acquires. */
  lemma BothStore(key: string, s5: System, s6: System, s7: System)
    requires s5 == NextAcquire(Late(key), 1, key, Told) && s6 == NextDeliver(s5, 0, true)
               && s7 == NextAcquire(s6, 2, key, Told)
    ensures InTime(s7) && Storing(s7, 1) && Storing(s7, 2) && s7.workers[1].key == s7.workers[2].key == key
  {
  }

  lemma InTimeAt(s: System, es: seq<Event>, i: nat)
    requires i < |es| && StoresInTime(Next(s, es[i]), es[i + 1..])
    requires InTime(s)
    ensures StoresInTime(s, es[i..])
  {
    assert es[i..][1..] == es[i + 1..];
  }

  // ---- recovery -----------------------------------------------------------------------

  /** In every run a lease in place was touched before now and runs out one lease time after that. */
  lemma LeaseLifetime(es: seq<Event>, key: string)
    requires key in Run(START, es).locks.leases
    ensures var s := Run(START, es);
            key in s.touched && s.touched[key] <= s.locks.now && s.locks.leases[key].expiry == s.touched[key] + TTL
  {
    RunKeepsSound(START, es);
  }

  /** No refresher of `key` is alive. */
  ghost predicate Quiet(s: System, key: string) {
    forall w :: w in s.workers && s.workers[w].key == key ==> !s.workers[w].refreshing
  }

  ghost predicate NoAcquire(es: seq<Event>, key: string) {
    forall i :: 0 <= i < |es| && es[i].Acquire? ==> LockKey(es[i].locality, es[i].path) != key
  }

  /** The lease of `key`, if any, runs out by `deadline`. */
  ghost predicate GoneBy(s: System, key: string, deadline: nat) {
    key in s.locks.leases ==> s.locks.leases[key].expiry <= deadline
  }

  lemma NextStaysQuiet(s: System, e: Event, key: string, deadline: nat)
    requires Quiet(s, key) && GoneBy(s, key, deadline)
    requires e.Acquire? ==> LockKey(e.locality, e.path) != key
    ensures Quiet(Next(s, e), key) && GoneBy(Next(s, e), key, deadline)
  {
  }

  lemma {:induction false} RunStaysQuiet(s: System, es: seq<Event>, key: string, deadline: nat)
    requires Quiet(s, key) && GoneBy(s, key, deadline) && NoAcquire(es, key)
    ensures GoneBy(Run(s, es), key, deadline)
    decreases |es|
  {
    if es != [] {
      NextStaysQuiet(s, es[0], key, deadline);
      RunStaysQuiet(Next(s, es[0]), es[1..], key, deadline);
    }
  }

  /** Recovery: from any reachable state in which no refresher of a key is alive, one lease time later the key can be
      acquired, even if the worker that held it failed and never released it. */
  lemma AbandonedLockRecovers(es: seq<Event>, later: seq<Event>, locality: string, path: string, w: nat)
    requires Quiet(Run(START, es), LockKey(locality, path)) && NoAcquire(later, LockKey(locality, path))
    requires var s := Run(START, es);
             var t := Run(s, later);
             s.locks.now + TTL <= t.locks.now && w !in t.workers
    ensures Storing(Next(Run(Run(START, es), later), Acquire(w, locality, path, Told)), w)
  {
    var s, key := Run(START, es), LockKey(locality, path);
    if key in s.locks.leases {
      LeaseLifetime(es, key);
    }
    RunStaysQuiet(s, later, key, s.locks.now + TTL);
  }
}
