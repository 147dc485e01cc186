/** Every run of the store together with the prefetcher: a worker that takes a task of an existing object makes one
    `Get` of the store and keeps its buffer until that call has ended. */
module PrefetchedStore {
  import opened Paging
  import opened StoreState
  import S = StoreRuns
  import P = Prefetching

  /** `gets` tells the call of each busy worker. */
  datatype Joint = Joint(store: S.Store, prefetcher: P.Prefetcher, gets: map<nat, nat>)

  const START := Joint(S.EMPTY, P.IDLE, map[])

  /** A step of the store, one of the prefetcher other than its workers', a worker taking or skipping a task with the
      call `id` and the given buffer, and a worker whose call has ended. */
  datatype Event =
    | OfStore(e: S.Event)
    | OfPrefetcher(f: P.Event)
    | Take(worker: nat, id: nat, buffer: nat)
    | Finish(worker: nat)

  /** The effect of one event; one that is not possible changes nothing. A restart takes the prefetcher with it. */
  function Next(objects: Objects, p: PageSize, j: Joint, e: Event): Joint {
    match e
    case OfStore(f) => NextStore(objects, p, j, f)
    case OfPrefetcher(f) => NextPrefetcher(j, f)
    case Take(worker, id, buffer) => NextTake(objects, p, j, worker, id, buffer)
    case Finish(worker) => NextFinish(j, worker)
  }

  function NextStore(objects: Objects, p: PageSize, j: Joint, f: S.Event): Joint {
    if f == S.Restart then Joint(S.Next(objects, p, j.store, f), P.IDLE, map[])
    else j.(store := S.Next(objects, p, j.store, f))
  }

  function NextPrefetcher(j: Joint, f: P.Event): Joint {
    if f.TakeTask? || f.FinishTask? then j else j.(prefetcher := P.Next(j.prefetcher, f))
  }

  function NextFinish(j: Joint, worker: nat): Joint {
    if worker !in j.gets || j.gets[worker] !in j.store.calls || !j.store.calls[j.gets[worker]].ReadEnded? then j
    else j.(prefetcher := P.Next(j.prefetcher, P.FinishTask(worker)), gets := j.gets - {worker})
  }

  function NextTake(objects: Objects, p: PageSize, j: Joint, worker: nat, id: nat, buffer: nat): Joint {
    if j.prefetcher.queue == [] || worker in j.prefetcher.held || id in j.store.calls then j
    else
      var task := j.prefetcher.queue[0];
      var present := S.Exists(j.store, task.hash);
      var f := P.Next(j.prefetcher, P.TakeTask(worker, present, buffer));
      if worker in f.held then
        Joint(S.Next(objects, p, j.store, S.StartGet(id, task.hash, task.offset, task.length)), f, j.gets[worker := id])
      else j.(prefetcher := f)
  }

  function Run(objects: Objects, p: PageSize, j: Joint, es: seq<Event>): Joint
    decreases |es|
  {
    if es == [] then j else Run(objects, p, Next(objects, p, j, es[0]), es[1..])
  }

  // ---- the store's part of a run ---------------------------------------------------------------

  /** The calls that could not read a file. */
  function FailedIds(es: seq<Event>): set<nat> {
    set k | 0 <= k < |es| && es[k].OfStore? && es[k].e.FailFile? :: es[k].e.id
  }

  lemma NextOfStore(objects: Objects, p: PageSize, j: Joint, e: Event) returns (f: seq<S.Event>)
    ensures |f| <= 1 && S.Run(objects, p, j.store, f) == Next(objects, p, j, e).store
    ensures f != [] && f[0].FailFile? ==> e == OfStore(f[0])
  {
    f := match e
    case OfStore(g) => [g]
    case Take(worker, id, _) =>
      if worker in Next(objects, p, j, e).gets && Next(objects, p, j, e).store != j.store
      then [S.StartGet(id, j.prefetcher.queue[0].hash, j.prefetcher.queue[0].offset, j.prefetcher.queue[0].length)]
          else []
    case _ => [];
    if f != [] {
      assert f[1..] == [];
      assert S.Run(objects, p, j.store, f) == S.Run(objects, p, S.Next(objects, p, j.store, f[0]), []);
    }
  }

  lemma {:induction false} RunConcat(objects: Objects, p: PageSize, s: S.Store, a: seq<S.Event>, b: seq<S.Event>)
    ensures S.Run(objects, p, s, a + b) == S.Run(objects, p, S.Run(objects, p, s, a), b)
    decreases |a|
  {
    if a == [] {
      assert a + b == b;
    } else {
      assert (a + b)[0] == a[0] && (a + b)[1..] == a[1..] + b;
      RunConcat(objects, p, S.Next(objects, p, s, a[0]), a[1..], b);
    }
  }

  /** Transparency: what the store does with a prefetcher beside it, it does in a run of its own, in which no other
      reads fail. */
  lemma {:induction false} RunOfStore(objects: Objects, p: PageSize, j: Joint, es: seq<Event>)
      returns (fs: seq<S.Event>)
    ensures S.Run(objects, p, j.store, fs) == Run(objects, p, j, es).store
    ensures S.FailedIds(fs) <= FailedIds(es)
    decreases |es|
  {
    if es == [] {
      return [];
    }
    var t := Next(objects, p, j, es[0]);
    var f := NextOfStore(objects, p, j, es[0]);
    var rest := RunOfStore(objects, p, t, es[1..]);
    RunConcat(objects, p, j.store, f, rest);
    fs := f + rest;
    forall id | id in S.FailedIds(fs) ensures id in FailedIds(es) {
      FailedTail(f, rest, es, id);
    }
  }

  lemma FailedTail(f: seq<S.Event>, rest: seq<S.Event>, es: seq<Event>, id: nat)
    requires es != [] && |f| <= 1 && (f != [] && f[0].FailFile? ==> es[0] == OfStore(f[0]))
    requires S.FailedIds(rest) <= FailedIds(es[1..]) && id in S.FailedIds(f + rest)
    ensures id in FailedIds(es)
  {
    var k :| 0 <= k < |f + rest| && (f + rest)[k].FailFile? && (f + rest)[k].id == id;
    if k < |f| {
      assert es[0].OfStore? && es[0].e.FailFile? && es[0].e.id == id;
    } else {
      assert rest[k - |f|].FailFile? && rest[k - |f|].id == id;
      assert id in S.FailedIds(rest);
      var i :| 0 <= i < |es[1..]| && es[1..][i].OfStore? && es[1..][i].e.FailFile? && es[1..][i].e.id == id;
      assert es[i + 1].OfStore? && es[i + 1].e.FailFile? && es[i + 1].e.id == id;
    }
  }

  /** With the prefetcher at work a `Get` that ended without error, a client's or a worker's, delivered exactly its
      slice. */
  lemma PrefetchedGetIsExact(objects: Objects, p: PageSize, es: seq<Event>, id: nat)
    requires var s := Run(objects, p, START, es).store;
             id in s.calls && s.calls[id].ReadEnded? && s.calls[id].result.Ok? && s.calls[id].offset >= 0
    ensures var get := Run(objects, p, START, es).store.calls[id];
            get.result.bytes == Slice(Content(objects, get.hash), get.offset, get.length)
  {
    var fs := RunOfStore(objects, p, START, es);
    S.EveryGetIsExact(objects, p, fs, id);
  }

  /** And what was stored on disk stays served. */
  lemma PrefetchedDurable(objects: Objects, p: PageSize, es: seq<Event>, later: seq<Event>, add: nat, get: nat)
    requires var s := Run(objects, p, START, es).store;
             && add in s.calls && s.calls[add].AddEnded? && s.calls[add].ok && s.calls[add].clean && get !in s.calls
    requires get !in FailedIds(later)
    requires var s, t := Run(objects, p, START, es).store, Run(objects, p, Run(objects, p, START, es), later).store;
             && get in t.calls && t.calls[get].ReadEnded? && t.calls[get].hash == s.calls[add].hash
               && t.calls[get].offset >= 0
    ensures var call := Run(objects, p, Run(objects, p, START, es), later).store.calls[get];
            var c := Content(objects, call.hash);
            call.result == if OutOfReach(|c|, p, call.offset, call.length) then NotFound
                           else Ok(Slice(c, call.offset, call.length))
  {
    var fs := RunOfStore(objects, p, START, es);
    var gs := RunOfStore(objects, p, Run(objects, p, START, es), later);
    S.Durable(objects, p, fs, gs, add, get);
  }

  // ---- the workers' buffers ----------------------------------------------------------------------

  /** Each busy worker has a call of one window, and a buffer of its own that holds it. */
  ghost predicate Inv(j: Joint) {
    P.Inv(j.prefetcher) && j.gets.Keys == j.prefetcher.held.Keys && Windows(j.store, j.gets)
  }

  ghost predicate Windows(s: S.Store, gets: map<nat, nat>) {
    forall w :: w in gets ==> OneWindow(s, gets[w])
  }

  ghost predicate OneWindow(s: S.Store, id: nat) {
    id in s.calls && (s.calls[id].Reading? || s.calls[id].ReadEnded?) && s.calls[id].length == P.WINDOW
  }

  /** No step of the store but a restart takes a reading call away or changes its range. */
  lemma WindowKept(objects: Objects, p: PageSize, s: S.Store, e: S.Event, id: nat)
    requires OneWindow(s, id) && e != S.Restart
    ensures OneWindow(S.Next(objects, p, s, e), id)
  {
    match e
    case ReadPage(get, fromMemory, promote) => ReadKeepsWindow(p, s, get, fromMemory, promote, id);
    case WritePage(add, writeOk) => WriteKeepsWindow(objects, p, s, add, writeOk, id);
    case CachePage(add, outcome) => CacheKeepsWindow(objects, p, s, add, outcome, id);
    case CacheIndex(add, outcome) => IndexKeepsWindow(objects, p, s, add, outcome, id);
    case StartAdd(add, hash, mkdirOk) =>
    case StartGet(get, hash, offset, length) =>
    case FailFile(get) => FailKeepsWindow(p, s, get, id);
    case _ => S.CallsKept(objects, p, s, e);
  }

  lemma FailKeepsWindow(p: PageSize, s: S.Store, get: nat, id: nat)
    requires OneWindow(s, id)
    ensures OneWindow(S.NextFail(p, s, get), id)
  {
  }

  lemma ReadKeepsWindow(p: PageSize, s: S.Store, get: nat, fromMemory: bool, promote: bool, id: nat)
    requires OneWindow(s, id)
    ensures OneWindow(S.NextRead(p, s, get, fromMemory, promote), id)
  {
    if S.NextRead(p, s, get, fromMemory, promote) != s {
      var call := s.calls[get];
      var o := call.offset + |call.got|;
      S.NextReadIs(p, s, get, call.hash, call.offset, call.length, call.got, o, fromMemory, promote);
      ReadAtKeepsWindow(s, get, call.hash, call.offset, call.length, call.got, PageIndex(o, p), PageStart(o, p),
          fromMemory, promote, id);
    }
  }

  lemma ReadAtKeepsWindow(s: S.Store, get: nat, hash: string, offset: int, length: int, got: Bytes, idx: int,
                          start: int, fromMemory: bool, promote: bool, id: nat)
    requires OneWindow(s, id) && |got| < length && (get == id ==> length == P.WINDOW)
    ensures OneWindow(S.ReadAt(s, get, hash, offset, length, got, idx, start, fromMemory, promote), id)
  {
  }

  lemma WriteKeepsWindow(objects: Objects, p: PageSize, s: S.Store, add: nat, writeOk: bool, id: nat)
    requires OneWindow(s, id)
    ensures OneWindow(S.NextWrite(objects, p, s, add, writeOk), id)
  {
  }

  lemma CacheKeepsWindow(objects: Objects, p: PageSize, s: S.Store, add: nat, outcome: S.SetOutcome, id: nat)
    requires OneWindow(s, id)
    ensures OneWindow(S.NextCache(objects, p, s, add, outcome), id)
  {
  }

  lemma IndexKeepsWindow(objects: Objects, p: PageSize, s: S.Store, add: nat, outcome: S.SetOutcome, id: nat)
    requires OneWindow(s, id)
    ensures OneWindow(S.NextIndex(objects, p, s, add, outcome), id)
  {
  }

  lemma WindowsKept(objects: Objects, p: PageSize, s: S.Store, e: S.Event, gets: map<nat, nat>)
    requires Windows(s, gets) && e != S.Restart
    ensures Windows(S.Next(objects, p, s, e), gets)
  {
    forall w | w in gets ensures OneWindow(S.Next(objects, p, s, e), gets[w]) {
      WindowKept(objects, p, s, e, gets[w]);
    }
  }

  /** The call that a worker starts is of one window. */
  lemma WindowStarted(objects: Objects, p: PageSize, s: S.Store, id: nat, hash: string, offset: int,
                      gets: map<nat, nat>, worker: nat)
    requires Windows(s, gets) && id !in s.calls
    ensures Windows(S.Next(objects, p, s, S.StartGet(id, hash, offset, P.WINDOW)), gets[worker := id])
  {
    WindowsKept(objects, p, s, S.StartGet(id, hash, offset, P.WINDOW), gets);
  }

  lemma HeldAfterTake(s: P.Prefetcher, worker: nat, present: bool, buffer: nat, t: P.Prefetcher)
    requires worker !in s.held && t == P.Next(s, P.TakeTask(worker, present, buffer))
    ensures t.held.Keys == if worker in t.held then s.held.Keys + {worker} else s.held.Keys
  {
  }

  /** The prefetcher has become `f`, with the worker busy or not. */
  lemma TakenKeepsInv(objects: Objects, p: PageSize, j: Joint, f: P.Prefetcher, worker: nat, id: nat, hash: string,
                      offset: int)
    requires Inv(j) && P.Inv(f) && id !in j.store.calls
    requires f.held.Keys == if worker in f.held then j.gets.Keys + {worker} else j.gets.Keys
    ensures if worker in f.held
            then Inv(Joint(S.Next(objects, p, j.store, S.StartGet(id, hash, offset, P.WINDOW)), f,
                j.gets[worker := id]))
            else Inv(j.(prefetcher := f))
  {
    WindowStarted(objects, p, j.store, id, hash, offset, j.gets, worker);
  }

  lemma TakeKeepsInv(objects: Objects, p: PageSize, j: Joint, worker: nat, id: nat, buffer: nat)
    requires Inv(j)
    ensures Inv(NextTake(objects, p, j, worker, id, buffer))
  {
    if j.prefetcher.queue != [] && worker !in j.prefetcher.held && id !in j.store.calls {
      var task := j.prefetcher.queue[0];
      var present := S.Exists(j.store, task.hash);
      var f := P.Next(j.prefetcher, P.TakeTask(worker, present, buffer));
      P.NextKeepsInv(j.prefetcher, P.TakeTask(worker, present, buffer));
      HeldAfterTake(j.prefetcher, worker, present, buffer, f);
      FirstIsWindow(j.prefetcher);
      TakenKeepsInv(objects, p, j, f, worker, id, task.hash, task.offset);
    }
  }

  lemma FirstIsWindow(s: P.Prefetcher)
    requires P.Inv(s) && s.queue != []
    ensures s.queue[0].length == P.WINDOW
  {
  }

  lemma FinishKeepsInv(j: Joint, worker: nat)
    requires Inv(j)
    ensures Inv(NextFinish(j, worker))
  {
    P.FinishKeepsInv(j.prefetcher, worker);
  }

  lemma StoreKeepsInv(objects: Objects, p: PageSize, j: Joint, f: S.Event)
    requires Inv(j)
    ensures Inv(NextStore(objects, p, j, f))
  {
    if f != S.Restart {
      WindowsKept(objects, p, j.store, f, j.gets);
    } else {
      P.IdleInv();
    }
  }

  lemma PrefetcherKeepsInv(j: Joint, f: P.Event)
    requires Inv(j)
    ensures Inv(NextPrefetcher(j, f))
  {
    if !f.TakeTask? && !f.FinishTask? {
      P.NextKeepsInv(j.prefetcher, f);
      HeldKept(j.prefetcher, f);
    }
  }

  lemma NextKeepsInv(objects: Objects, p: PageSize, j: Joint, e: Event)
    requires Inv(j)
    ensures Inv(Next(objects, p, j, e))
  {
    match e
    case OfStore(f) => StoreKeepsInv(objects, p, j, f);
    case OfPrefetcher(f) => PrefetcherKeepsInv(j, f);
    case Take(worker, id, buffer) => TakeKeepsInv(objects, p, j, worker, id, buffer);
    case Finish(worker) => FinishKeepsInv(j, worker);
  }

  lemma HeldKept(s: P.Prefetcher, f: P.Event)
    requires !f.TakeTask? && !f.FinishTask?
    ensures P.Next(s, f).held == s.held
  {
  }

  lemma {:induction false} RunKeepsInv(objects: Objects, p: PageSize, j: Joint, es: seq<Event>)
    requires Inv(j)
    ensures Inv(Run(objects, p, j, es))
    decreases |es|
  {
    if es != [] {
      NextKeepsInv(objects, p, j, es[0]);
      RunKeepsInv(objects, p, Next(objects, p, j, es[0]), es[1..]);
    }
  }

  /** In every run a worker's `Get` asks for no more than its buffer holds, and no other worker has that buffer. */
  lemma WorkersHaveRoom(objects: Objects, p: PageSize, es: seq<Event>, worker: nat, other: nat)
    requires worker in Run(objects, p, START, es).gets
    ensures var j := Run(objects, p, START, es);
            && worker in j.prefetcher.held && j.prefetcher.held[worker] in j.prefetcher.capacity
            && OneWindow(j.store, j.gets[worker])
            && j.store.calls[j.gets[worker]].length <= j.prefetcher.capacity[j.prefetcher.held[worker]]
            && (other in j.prefetcher.held && other != worker ==> j.prefetcher.held[other] != j.prefetcher.held[worker])
  {
    RunKeepsInv(objects, p, START, es);
  }
}
