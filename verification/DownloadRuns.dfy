/** Every schedule of a ranged download: one task per range under a counting semaphore, a result channel with one
    place per range, the goroutine that closes it, and the collector. */
module DownloadRuns {
  import opened Paging
  import opened RangedDownload

  /** Where a task is: waiting for the semaphore, with its request in flight, with its result sent, with the
      semaphore given back, and reported done. */
  datatype Phase = Waiting | Requesting | Sent | Released | Finished

  datatype Download = Download(tasks: seq<Phase>, semaphore: nat, channel: seq<ChunkResult>, closed: bool,
                               received: seq<ChunkResult>)

  function Begin(count: nat): Download {
    Download(seq(count, _ => Waiting), 0, [], false, [])
  }

  datatype Event =
    | Acquire(i: nat)
    | Send(i: nat, data: Bytes, failed: bool)
    | ReleaseSemaphore(i: nat)
    | Finish(i: nat)
    | Close
    | Receive

  predicate At(s: Download, i: nat, phase: Phase) {
    i < |s.tasks| && s.tasks[i] == phase
  }

  /** Whether an event can happen: the semaphore has `limit` places and the channel one per range; a send to a full
      channel would block. */
  predicate Enabled(s: Download, e: Event, limit: nat) {
    match e
    case Acquire(i) => At(s, i, Waiting) && s.semaphore < limit
    case Send(i, _, _) => At(s, i, Requesting) && |s.channel| < |s.tasks|
    case ReleaseSemaphore(i) => At(s, i, Sent) && s.semaphore > 0
    case Finish(i) => At(s, i, Released)
    case Close => !s.closed && forall i :: 0 <= i < |s.tasks| ==> s.tasks[i] == Finished
    case Receive => s.channel != []
  }

  function Next(s: Download, e: Event, limit: nat): Download
    requires Enabled(s, e, limit)
  {
    match e
    case Acquire(i) => s.(tasks := s.tasks[i := Requesting], semaphore := s.semaphore + 1)
    case Send(i, data, failed) =>
      s.(tasks := s.tasks[i := Sent], channel := s.channel + [ChunkResult(i, if failed then [] else data, failed)])
    case ReleaseSemaphore(i) => s.(tasks := s.tasks[i := Released], semaphore := s.semaphore - 1)
    case Finish(i) => s.(tasks := s.tasks[i := Finished])
    case Close => s.(closed := true)
    case Receive => s.(channel := s.channel[1..], received := s.received + [s.channel[0]])
  }

  /** `t` is reached from `s` by the events `es`. */
  ghost predicate Reaches(s: Download, es: seq<Event>, t: Download, limit: nat)
    decreases |es|
  {
    if es == [] then s == t else Enabled(s, es[0], limit) && Reaches(Next(s, es[0], limit), es[1..], t, limit)
  }

  /** The collector's loop ends when the channel is closed and empty. */
  predicate Ended(s: Download) {
    s.closed && s.channel == []
  }

  // ---- the invariant -----------------------------------------------------------------

  ghost function InFlight(s: Download): set<nat> {
    set i: nat | i < |s.tasks| && s.tasks[i] == Requesting
  }

  ghost function Holding(s: Download): set<nat> {
    set i: nat | i < |s.tasks| && (s.tasks[i] == Requesting || s.tasks[i] == Sent)
  }

  predicate HasSent(phase: Phase) {
    phase == Sent || phase == Released || phase == Finished
  }

  ghost function Results(s: Download): seq<ChunkResult> {
    s.received + s.channel
  }

  /** The semaphore counts the tasks that hold it; the results sent so far, received or not, are one for each task that
      has sent; and the channel is closed only after all have finished. */
  ghost predicate Inv(s: Download, limit: nat) {
    && s.semaphore == |Holding(s)| <= limit
    && Distinct(Results(s))
    && (forall k :: 0 <= k < |Results(s)| ==> Results(s)[k].index < |s.tasks|)
    && (forall i: nat :: i < |s.tasks| ==> (HasSent(s.tasks[i]) <==> i in Indices(Results(s))))
    && (s.closed ==> forall i :: 0 <= i < |s.tasks| ==> s.tasks[i] == Finished)
  }

  lemma BeginInv(count: nat, limit: nat)
    ensures Inv(Begin(count), limit)
  {
    assert Holding(Begin(count)) == {};
  }

  lemma DistinctCount(results: seq<ChunkResult>)
    requires Distinct(results)
    ensures |Indices(results)| == |results|
    decreases |results|
  {
    if results != [] {
      var n := |results| - 1;
      DistinctCount(results[..n]);
      assert Indices(results) == Indices(results[..n]) + {results[n].index};
    }
  }

  lemma IndicesNext(results: seq<ChunkResult>, r: ChunkResult)
    ensures Indices(results + [r]) == Indices(results) + {r.index}
  {
    assert forall k :: 0 <= k < |results| ==> (results + [r])[k] == results[k];
    assert (results + [r])[|results|] == r;
  }

  lemma AcquireKeepsInv(s: Download, i: nat, limit: nat)
    requires Inv(s, limit) && Enabled(s, Acquire(i), limit)
    ensures Inv(Next(s, Acquire(i), limit), limit)
  {
    var t := Next(s, Acquire(i), limit);
    assert Results(t) == Results(s);
    assert Holding(t) == Holding(s) + {i};
  }

  lemma SendKeepsInv(s: Download, i: nat, data: Bytes, failed: bool, limit: nat)
    requires Inv(s, limit) && Enabled(s, Send(i, data, failed), limit)
    ensures Inv(Next(s, Send(i, data, failed), limit), limit)
  {
    var t := Next(s, Send(i, data, failed), limit);
    var r := t.channel[|s.channel|];
    assert Results(t) == Results(s) + [r];
    IndicesNext(Results(s), r);
    assert i !in Indices(Results(s));
    assert Holding(t) == Holding(s);
  }

  lemma ReleaseKeepsInv(s: Download, i: nat, limit: nat)
    requires Inv(s, limit) && Enabled(s, ReleaseSemaphore(i), limit)
    ensures Inv(Next(s, ReleaseSemaphore(i), limit), limit)
  {
    var t := Next(s, ReleaseSemaphore(i), limit);
    assert Results(t) == Results(s);
    assert Holding(t) == Holding(s) - {i};
  }

  lemma NextKeepsInv(s: Download, e: Event, limit: nat)
    requires Inv(s, limit) && Enabled(s, e, limit)
    ensures Inv(Next(s, e, limit), limit)
  {
    var t := Next(s, e, limit);
    match e
    case Acquire(i) => AcquireKeepsInv(s, i, limit);
    case Send(i, data, failed) => SendKeepsInv(s, i, data, failed, limit);
    case ReleaseSemaphore(i) => ReleaseKeepsInv(s, i, limit);
    case _ =>
      assert Results(t) == Results(s);
      assert Holding(t) == Holding(s);
  }

  lemma {:induction false} RunKeepsInv(s: Download, es: seq<Event>, t: Download, limit: nat)
    requires Inv(s, limit) && Reaches(s, es, t, limit)
    ensures Inv(t, limit) && |t.tasks| == |s.tasks|
    decreases |es|
  {
    if es != [] {
      NextKeepsInv(s, es[0], limit);
      RunKeepsInv(Next(s, es[0], limit), es[1..], t, limit);
    }
  }

  // ---- what holds in every schedule ---------------------------------------------------

  /** At most `limit` range requests are in flight. */
  lemma InFlightBounded(count: nat, es: seq<Event>, t: Download, limit: nat)
    requires Reaches(Begin(count), es, t, limit)
    ensures |InFlight(t)| <= limit
  {
    BeginInv(count, limit);
    RunKeepsInv(Begin(count), es, t, limit);
    Smaller(InFlight(t), Holding(t));
  }

  lemma Smaller(a: set<nat>, b: set<nat>)
    requires a <= b
    ensures |a| <= |b|
  {
    assert b == a + (b - a);
  }

  /** A task that is ready to send finds a place in the channel, and the channel open. */
  lemma SendNeverBlocks(count: nat, es: seq<Event>, t: Download, limit: nat, i: nat, data: Bytes, failed: bool)
    requires Reaches(Begin(count), es, t, limit) && At(t, i, Requesting)
    ensures Enabled(t, Send(i, data, failed), limit) && !t.closed
  {
    BeginInv(count, limit);
    RunKeepsInv(Begin(count), es, t, limit);
    RoomFor(t, i, limit);
  }

  lemma RoomFor(s: Download, i: nat, limit: nat)
    requires Inv(s, limit) && At(s, i, Requesting)
    ensures |s.channel| < |s.tasks|
  {
    DistinctCount(Results(s));
    assert i !in Indices(Results(s));
    Smaller(Indices(Results(s)) + {i}, UpTo(|s.tasks|));
  }

  /** When the collector stops it has received exactly one result of every task. */
  lemma EndedIsComplete(count: nat, es: seq<Event>, t: Download, limit: nat)
    requires Reaches(Begin(count), es, t, limit) && Ended(t)
    ensures Complete(t.received, count) && |t.received| == count
  {
    BeginInv(count, limit);
    RunKeepsInv(Begin(count), es, t, limit);
    assert Results(t) == t.received;
    DistinctCount(t.received);
    assert Indices(t.received) == UpTo(count);
  }

  /** For every schedule and every order of arrival, and whatever the replies hold: a collector that stopped has the
      object in its chunks if and only if every reply was the whole of its range. */
  lemma DownloadExact(object_: Bytes, chunkSize: PageSize, es: seq<Event>, t: Download, limit: nat)
    requires Reaches(Begin(PageCount(|object_|, chunkSize)), es, t, limit) && Ended(t)
    requires forall k :: 0 <= k < |t.received| ==> FitsRange(object_, chunkSize, t.received[k])
    ensures Flat(Gathered(t.received, PageCount(|object_|, chunkSize))) == object_
            <==> forall k :: 0 <= k < |t.received| ==> WholeRange(object_, chunkSize, t.received[k])
  {
    EndedIsComplete(PageCount(|object_|, chunkSize), es, t, limit);
    ReassemblyExact(object_, chunkSize, t.received);
  }

  /** The download as a caller sees it, for every schedule `es` that led to the collector's stop at `t`: it succeeds
      exactly when the object is not empty and no request failed; then the buffer holds the object exactly when every
      reply was whole, and if replies were at worst cut short the caller can tell by the buffer's length. */
  method DownloadOnSchedule(object_: Bytes, chunkSize: PageSize, ghost es: seq<Event>, t: Download, ghost limit: nat,
                            buffer: Buffer)
    returns (ok: bool)
    requires Reaches(Begin(PageCount(|object_|, chunkSize)), es, t, limit) && Ended(t)
    requires forall k :: 0 <= k < |t.received| ==> FitsRange(object_, chunkSize, t.received[k])
    modifies buffer
    ensures ok <==> object_ != [] && !AnyFailed(t.received)
    ensures !ok ==> buffer.contents == old(buffer.contents)
    ensures ok ==> (buffer.contents == object_
              <==> forall k :: 0 <= k < |t.received| ==> WholeRange(object_, chunkSize, t.received[k]))
    ensures ok && (forall k :: 0 <= k < |t.received| ==> PrefixOfRange(object_, chunkSize, t.received[k])) ==>
              (buffer.contents == object_ <==> |buffer.contents| == |object_|)
  {
    EndedIsComplete(PageCount(|object_|, chunkSize), es, t, limit);
    ReassemblyExact(object_, chunkSize, t.received);
    if forall k :: 0 <= k < |t.received| ==> PrefixOfRange(object_, chunkSize, t.received[k]) {
      ReassemblyLength(object_, chunkSize, t.received);
    }
    forall k | 0 <= k < |t.received| ensures t.received[k].index < PageCount(|object_|, chunkSize) {
      assert t.received[k].index in Indices(t.received);
    }
    ok := DownloadIntoBuffer(true, |object_|, chunkSize, t.received, buffer);
  }

  // ---- progress -------------------------------------------------------------------------

  /** With at least one place in the semaphore some event can happen until the collector has stopped. */
  lemma NoDeadlock(s: Download, limit: nat) returns (e: Event)
    requires Inv(s, limit) && limit > 0 && !Ended(s)
    ensures Enabled(s, e, limit)
  {
    if s.channel != [] {
      return Receive;
    }
    if i: nat :| i < |s.tasks| && s.tasks[i] != Finished {
      match s.tasks[i] {
        case Requesting =>
          RoomFor(s, i, limit);
          return Send(i, [], true);
        case Sent =>
          assert i in Holding(s);
          return ReleaseSemaphore(i);
        case Released => return Finish(i);
        case Waiting =>
          e := WaitingProceeds(s, i, limit);
          return;
      }
    }
    return Close;
  }

  lemma WaitingProceeds(s: Download, i: nat, limit: nat) returns (e: Event)
    requires Inv(s, limit) && limit > 0 && At(s, i, Waiting)
    ensures Enabled(s, e, limit)
  {
    if s.semaphore < limit {
      return Acquire(i);
    }
    assert Holding(s) != {};
    var j :| j in Holding(s);
    if s.tasks[j] == Sent {
      return ReleaseSemaphore(j);
    }
    RoomFor(s, j, limit);
    return Send(j, [], true);
  }

  function Left(phase: Phase): nat {
    match phase
    case Waiting => 4
    case Requesting => 3
    case Sent => 2
    case Released => 1
    case Finished => 0
  }

  function AllLeft(tasks: seq<Phase>): nat {
    if tasks == [] then 0 else Left(tasks[0]) + AllLeft(tasks[1..])
  }

  lemma {:induction false} AllLeftUpdate(tasks: seq<Phase>, i: nat, phase: Phase)
    requires i < |tasks|
    ensures AllLeft(tasks[i := phase]) == AllLeft(tasks) - Left(tasks[i]) + Left(phase)
  {
    if i > 0 {
      assert tasks[i := phase][1..] == tasks[1..][i - 1 := phase];
      AllLeftUpdate(tasks[1..], i - 1, phase);
    } else {
      assert tasks[i := phase][1..] == tasks[1..];
    }
  }

  function Measure(s: Download): nat {
    2 * AllLeft(s.tasks) + |s.channel| + if s.closed then 0 else 1
  }

  /** Every event uses up part of a bounded amount of work, so every schedule ends. */
  lemma EveryEventProgresses(s: Download, e: Event, limit: nat)
    requires Enabled(s, e, limit)
    ensures Measure(Next(s, e, limit)) < Measure(s)
  {
    match e
    case Acquire(i) => AllLeftUpdate(s.tasks, i, Requesting);
    case Send(i, _, _) => AllLeftUpdate(s.tasks, i, Sent);
    case ReleaseSemaphore(i) => AllLeftUpdate(s.tasks, i, Released);
    case Finish(i) => AllLeftUpdate(s.tasks, i, Finished);
    case _ =>
  }
}
