/** Every run of the prefetcher: sequential-read detection, the goroutines that queue windows ahead of a reader, the
    workers that read them with pooled buffers, and the cleanup of stale states. The workers' reads are `Get` calls of
    the store runs; here it is about the queue and the buffers. */
module Prefetching {
  import opened BufferPool

  const WINDOW: nat := 4 * MB
  const AHEAD: nat := 16
  const QUEUE_CAPACITY: nat := 100
  const THRESHOLD: nat := 2 * MB
  const WORKERS: nat := 4
  /** How long a state is kept, in milliseconds. */
  const KEEP: nat := 30000

  // ---- the state ---------------------------------------------------------------------

  datatype Track = Track(lastOffset: int, lastAccess: nat, sequential: bool, prefetching: bool)
  datatype Task = Task(hash: string, offset: int, length: nat)

  /** One goroutine of `startPrefetch`: where it started, and the windows it has queued. */
  datatype Start = Start(hash: string, origin: int, queued: seq<Task>, active: bool)

  /** `held` maps a busy worker to its buffer, `free` are the pooled buffers, `capacity` tells the size of each. */
  datatype Prefetcher = Prefetcher(now: nat, tracks: map<string, Track>, starts: map<nat, Start>, queue: seq<Task>,
                                   held: map<nat, nat>, free: set<nat>, capacity: map<nat, nat>)

  const IDLE := Prefetcher(0, map[], map[], [], map[], {}, map[])

  datatype Event =
    | Tick(elapsed: nat)
    | Read(start: nat, hash: string, offset: int, length: int)
    | Enqueue(start: nat)
    | EndStart(start: nat)
    | TakeTask(worker: nat, present: bool, buffer: nat)
    | FinishTask(worker: nat)
    | DropFree(buffer: nat)
    | Cleanup

  predicate IsSequential(t: Track, offset: int) {
    t.lastOffset <= offset && offset - t.lastOffset <= THRESHOLD
  }

  /** `OnRead`; `start` names the goroutine it may launch. */
  function OnRead(s: Prefetcher, start: nat, hash: string, offset: int, length: int): Prefetcher {
    if hash !in s.tracks then s.(tracks := s.tracks[hash := Track(offset, s.now, false, false)])
    else
      var t := s.tracks[hash];
      var launch := IsSequential(t, offset) && !t.prefetching;
      s.(tracks := s.tracks[hash := Track(offset + length, s.now, IsSequential(t, offset), t.prefetching || launch)],
         starts := if launch then s.starts[start := Start(hash, offset + length, [], true)] else s.starts)
  }

  /** The effect of one event; one that is not possible changes nothing. */
  function Next(s: Prefetcher, e: Event): Prefetcher {
    match e
    case Tick(elapsed) => s.(now := s.now + elapsed)
    case Read(start, hash, offset, length) => if start in s.starts then s else OnRead(s, start, hash, offset, length)
    case Enqueue(start) => NextEnqueue(s, start)
    case EndStart(start) => NextEnd(s, start)
    case TakeTask(worker, present, buffer) => NextTake(s, worker, present, buffer)
    case FinishTask(worker) => NextFinish(s, worker)
    case DropFree(buffer) => s.(free := s.free - {buffer})
    case Cleanup => s.(tracks := map h | h in s.tracks && !Stale(s, h) :: s.tracks[h])
  }

  predicate Stale(s: Prefetcher, hash: string)
    requires hash in s.tracks
  {
    s.now - s.tracks[hash].lastAccess > KEEP
  }

  /** A worker puts its buffer back into the pool. */
  function NextFinish(s: Prefetcher, worker: nat): Prefetcher {
    if worker !in s.held then s else s.(held := s.held - {worker}, free := s.free + {s.held[worker]})
  }

  /** Window `i` of a start. */
  function Window(g: Start, i: nat): Task {
    Task(g.hash, g.origin + i * WINDOW, WINDOW)
  }

  /** Queues the next window, unless the queue is full; then the goroutine stops. */
  function NextEnqueue(s: Prefetcher, start: nat): Prefetcher {
    if start !in s.starts || !s.starts[start].active || |s.starts[start].queued| >= AHEAD then s
    else
      var g := s.starts[start];
      if |s.queue| >= QUEUE_CAPACITY then NextEnd(s, start)
      else Queued(s, start)
  }

  /** The next window of the start goes to the end of the queue. */
  function Queued(s: Prefetcher, start: nat): Prefetcher
    requires start in s.starts
  {
    var g := s.starts[start];
    s.(queue := s.queue + [Window(g, |g.queued|)], starts := s.starts[start := Longer(g)])
  }

  /** The start with its next window queued. */
  function Longer(g: Start): Start {
    g.(queued := g.queued + [Window(g, |g.queued|)])
  }

  function NextEnd(s: Prefetcher, start: nat): Prefetcher {
    if start !in s.starts || !s.starts[start].active then s
    else
      var g := s.starts[start];
      s.(starts := s.starts[start := g.(active := false)],
         tracks := if g.hash in s.tracks then s.tracks[g.hash := s.tracks[g.hash].(prefetching := false)] else s.tracks)
  }

  /** A worker takes the oldest task; if the object exists it reads it into a pooled buffer, or into a new one. */
  function NextTake(s: Prefetcher, worker: nat, present: bool, buffer: nat): Prefetcher {
    if s.queue == [] || worker in s.held || worker >= WORKERS then s
    else if !present then s.(queue := s.queue[1..])
    else
      Taken(s, worker, buffer, SelectPoolSize(s.queue[0].length))
  }

  /** The pool hands out one of its buffers of the bucket, or allocates a new one. */
  function Taken(s: Prefetcher, worker: nat, buffer: nat, bucket: nat): Prefetcher
    requires s.queue != []
  {
    if buffer in s.capacity && (buffer !in s.free || s.capacity[buffer] != bucket) then s
    else
      s.(queue := s.queue[1..], held := s.held[worker := buffer], free := s.free - {buffer},
         capacity := s.capacity[buffer := bucket])
  }

  function Run(s: Prefetcher, es: seq<Event>): Prefetcher
    decreases |es|
  {
    if es == [] then s else Run(Next(s, es[0]), es[1..])
  }

  // ---- the invariant ---------------------------------------------------------------------

  /** The windows a goroutine queued follow one another without gap from its origin, at most `AHEAD` of them. */
  ghost predicate Contiguous(g: Start) {
    && |g.queued| <= AHEAD
    && forall i :: 0 <= i < |g.queued| ==> g.queued[i] == Window(g, i)
  }

  /** Each buffer is held by one worker at most and not pooled meanwhile, and is large enough for any window. */
  ghost predicate GoodBuffers(held: map<nat, nat>, free: set<nat>, capacity: map<nat, nat>) {
    && (forall w, v :: w in held && v in held && held[w] == held[v] ==> w == v)
    && (forall w :: w in held ==> w < WORKERS && held[w] !in free && held[w] in capacity && capacity[held[w]] >= WINDOW)
    && free <= capacity.Keys
    && (forall b :: b in capacity ==> IsBucket(capacity[b]))
  }

  ghost predicate Inv(s: Prefetcher) {
    && |s.queue| <= QUEUE_CAPACITY
    && (forall i :: 0 <= i < |s.queue| ==> s.queue[i].length == WINDOW)
    && AllContiguous(s.starts)
    && GoodBuffers(s.held, s.free, s.capacity)
  }

  /** A worker takes a buffer that is pooled or new. */
  lemma TakeBuffer(held: map<nat, nat>, free: set<nat>, capacity: map<nat, nat>, worker: nat, buffer: nat, bucket: nat)
    requires GoodBuffers(held, free, capacity) && worker < WORKERS && worker !in held && IsBucket(bucket)
               && bucket >= WINDOW
    requires (buffer in free && capacity[buffer] == bucket) || buffer !in capacity
    ensures GoodBuffers(held[worker := buffer], free - {buffer}, capacity[buffer := bucket])
  {
  }

  lemma TakenKeepsInv(s: Prefetcher, worker: nat, buffer: nat, bucket: nat)
    requires Inv(s) && s.queue != [] && worker < WORKERS && worker !in s.held && IsBucket(bucket) && bucket >= WINDOW
    ensures Inv(Taken(s, worker, buffer, bucket))
  {
    if buffer !in s.capacity || (buffer in s.free && s.capacity[buffer] == bucket) {
      TakeBuffer(s.held, s.free, s.capacity, worker, buffer, bucket);
    }
  }

  lemma TakeKeepsInv(s: Prefetcher, worker: nat, present: bool, buffer: nat)
    requires Inv(s)
    ensures Inv(NextTake(s, worker, present, buffer))
  {
    if s.queue != [] && worker !in s.held && worker < WORKERS {
      TakenKeepsInv(s, worker, buffer, SelectPoolSize(s.queue[0].length));
    }
  }

  lemma FinishKeepsInv(s: Prefetcher, worker: nat)
    requires Inv(s)
    ensures Inv(NextFinish(s, worker))
  {
  }

  lemma EnqueueKeepsInv(s: Prefetcher, start: nat)
    requires Inv(s)
    ensures Inv(NextEnqueue(s, start))
  {
    var t := NextEnqueue(s, start);
    EnqueueIs(s, start);
    if t != s && |s.queue| < QUEUE_CAPACITY {
      QueuedKeepsInv(s, start);
    } else if t != s {
      EndKeepsInv(s, start);
    }
  }

  lemma EnqueueIs(s: Prefetcher, start: nat)
    ensures var t := NextEnqueue(s, start);
            || t == s
            || (t == NextEnd(s, start) && |s.queue| >= QUEUE_CAPACITY)
            || (start in s.starts && |s.starts[start].queued| < AHEAD && t == Queued(s, start)
                && |s.queue| < QUEUE_CAPACITY)
  {
  }

  lemma QueuedKeepsInv(s: Prefetcher, start: nat)
    requires Inv(s) && start in s.starts && |s.starts[start].queued| < AHEAD && |s.queue| < QUEUE_CAPACITY
    ensures Inv(Queued(s, start))
  {
    StartGrows(s.starts[start]);
    StartsKept(s.starts, start, Longer(s.starts[start]));
  }

  lemma EndKeepsInv(s: Prefetcher, start: nat)
    requires Inv(s)
    ensures Inv(NextEnd(s, start))
  {
  }

  ghost predicate AllContiguous(starts: map<nat, Start>) {
    forall g :: g in starts ==> Contiguous(starts[g])
  }

  lemma StartsKept(starts: map<nat, Start>, start: nat, g: Start)
    requires AllContiguous(starts) && Contiguous(g)
    ensures AllContiguous(starts[start := g])
  {
  }

  lemma StartGrows(g: Start)
    requires Contiguous(g) && |g.queued| < AHEAD
    ensures Contiguous(Longer(g))
  {
    forall i | 0 <= i < |g.queued| + 1 ensures Longer(g).queued[i] == Window(Longer(g), i) {
      assert i < |g.queued| ==> g.queued[i] == Window(g, i);
    }
  }

  lemma ReadKeepsInv(s: Prefetcher, start: nat, hash: string, offset: int, length: int)
    requires Inv(s) && start !in s.starts
    ensures Inv(OnRead(s, start, hash, offset, length))
  {
  }

  lemma NextKeepsInv(s: Prefetcher, e: Event)
    requires Inv(s)
    ensures Inv(Next(s, e))
  {
    match e
    case TakeTask(worker, present, buffer) => TakeKeepsInv(s, worker, present, buffer);
    case FinishTask(worker) => FinishKeepsInv(s, worker);
    case Enqueue(start) => EnqueueKeepsInv(s, start);
    case Read(start, hash, offset, length) => if start !in s.starts { ReadKeepsInv(s, start, hash, offset, length); }
    case _ =>
  }

  lemma IdleInv()
    ensures Inv(IDLE)
  {
  }

  lemma {:induction false} RunKeepsInv(s: Prefetcher, es: seq<Event>)
    requires Inv(s)
    ensures Inv(Run(s, es))
    decreases |es|
  {
    if es != [] {
      NextKeepsInv(s, es[0]);
      RunKeepsInv(Next(s, es[0]), es[1..]);
    }
  }

  /** In every run: the queue stays within its capacity; every start queues a gap-free prefix of its windows, at most
      `AHEAD` of them; no two workers share a buffer, no held buffer is pooled, and each is large enough for a window.
      */
  lemma EveryRunIsBounded(es: seq<Event>)
    ensures |Run(IDLE, es).queue| <= QUEUE_CAPACITY
    ensures AllContiguous(Run(IDLE, es).starts)
    ensures var s := Run(IDLE, es); GoodBuffers(s.held, s.free, s.capacity)
  {
    RunKeepsInv(IDLE, es);
  }

  // ---- one start per object ---------------------------------------------------------------

  predicate Active(s: Prefetcher, g: nat) {
    g in s.starts && s.starts[g].active
  }

  /** Every running goroutine is the only one of its object, and that object's state says it is prefetching. */
  ghost predicate Single(s: Prefetcher) {
    && (forall g :: Active(s, g) ==> s.starts[g].hash in s.tracks && s.tracks[s.starts[g].hash].prefetching)
    && (forall g, k :: Active(s, g) && Active(s, k) && s.starts[g].hash == s.starts[k].hash ==> g == k)
  }

  /** The event is a cleanup that would forget an object some goroutine is still queueing windows for. */
  ghost predicate Forgets(s: Prefetcher, e: Event) {
    e.Cleanup? && exists g :: Active(s, g) && s.starts[g].hash in s.tracks && Stale(s, s.starts[g].hash)
  }

  lemma EnqueueKeepsSingle(s: Prefetcher, start: nat)
    requires Single(s)
    ensures Single(NextEnqueue(s, start))
  {
  }

  lemma ReadKeepsSingle(s: Prefetcher, start: nat, hash: string, offset: int, length: int)
    requires Single(s) && start !in s.starts
    ensures Single(OnRead(s, start, hash, offset, length))
  {
  }

  /** A step keeps the discipline exactly when it is not such a cleanup. */
  lemma SingleIff(s: Prefetcher, e: Event)
    requires Single(s)
    ensures Single(Next(s, e)) <==> !Forgets(s, e)
  {
    if Forgets(s, e) {
      var g :| Active(s, g) && s.starts[g].hash in s.tracks && Stale(s, s.starts[g].hash);
      assert Active(Next(s, e), g);
    } else if e.Enqueue? {
      EnqueueKeepsSingle(s, e.start);
    } else if e.Read? && e.start !in s.starts {
      ReadKeepsSingle(s, e.start, e.hash, e.offset, e.length);
    } else if e.Cleanup? {
      forall g | Active(Next(s, e), g) ensures Active(s, g) && !Stale(s, s.starts[g].hash) { }
    }
  }

  /** No cleanup of the run forgets an object with a running goroutine. */
  ghost predicate Careful(s: Prefetcher, es: seq<Event>)
    decreases |es|
  {
    es == [] || (!Forgets(s, es[0]) && Careful(Next(s, es[0]), es[1..]))
  }

  /** Along such a run no object is ever prefetched by two goroutines at once. */
  lemma {:induction false} OneStartPerObject(s: Prefetcher, es: seq<Event>)
    requires Single(s) && Careful(s, es)
    ensures Single(Run(s, es))
    decreases |es|
  {
    if es != [] {
      SingleIff(s, es[0]);
      OneStartPerObject(Next(s, es[0]), es[1..]);
    }
  }

  /** A goroutine that outlives its object's state, two more reads, and the object has two goroutines. */
  const OVERTAKEN: seq<Event> :=
    [Read(0, "a", 0, 1), Read(0, "a", 1, 1), Tick(KEEP + 1), Cleanup, Read(1, "a", 2, 1), Read(1, "a", 3, 1)]

  lemma CleanupDoublesStart()
    ensures Active(Run(IDLE, OVERTAKEN), 0) && Active(Run(IDLE, OVERTAKEN), 1)
    ensures Run(IDLE, OVERTAKEN).starts[0].hash == Run(IDLE, OVERTAKEN).starts[1].hash
  {
    var s1 := Next(IDLE, OVERTAKEN[0]);
    var s2 := Next(s1, OVERTAKEN[1]);
    var s3 := Next(s2, OVERTAKEN[2]);
    var s4 := Next(s3, OVERTAKEN[3]);
    var s5 := Next(s4, OVERTAKEN[4]);
    var s6 := Next(s5, OVERTAKEN[5]);
    assert "a" !in s4.tracks;
    assert s6.starts[0].hash == s6.starts[1].hash == "a";
    assert OVERTAKEN[0..] == OVERTAKEN && OVERTAKEN[6..] == [];
    RunAt(IDLE, OVERTAKEN, 0);
    RunAt(s1, OVERTAKEN, 1);
    RunAt(s2, OVERTAKEN, 2);
    RunAt(s3, OVERTAKEN, 3);
    RunAt(s4, OVERTAKEN, 4);
    RunAt(s5, OVERTAKEN, 5);
  }

  lemma RunAt(s: Prefetcher, es: seq<Event>, i: nat)
    requires i < |es|
    ensures Run(s, es[i..]) == Run(Next(s, es[i]), es[i + 1..])
  {
    assert es[i..][1..] == es[i + 1..];
  }
}
