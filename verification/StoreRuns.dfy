/** Every run of the store: any interleaving of the page-sized steps of any number of `Add` and `Get` calls with
    evictions, losses, disk-full flag flips, unreadable files and restarts. Reads by the prefetch workers are `Get`
    calls too. */
module StoreRuns {
  import opened Paging
  import opened PageKeys
  import opened StoreState

  /** The calls of a run. `clean` says that the call has always found the disk-full flag unset. */
  datatype Call =
    | Adding(hash: string, page: nat, written: bool, clean: bool)
    | AddEnded(hash: string, ok: bool, clean: bool)
    | Reading(hash: string, offset: int, length: int, got: Bytes)
    | ReadEnded(hash: string, offset: int, length: int, result: ReadResult)

  /** A run of the eviction callback: an entry that has left the cache, then the page keys of its object still to
      delete. */
  datatype Callback = Evicted(key: string, value: Value) | Deleting(hash: string, keys: seq<string>)

  /** `panicked` records a failed type assertion on a cached value. */
  datatype Store = Store(mem: Memory, disk: Disk, dirs: set<string>, full: bool, calls: map<nat, Call>,
                         callbacks: map<nat, Callback>, panicked: bool)

  const EMPTY := Store(map[], map[], {}, false, map[], map[], false)

  /** What the cache does with a write: keeps it, refuses it silently, or reports it dropped. */
  datatype SetOutcome = Kept | Refused | Dropped

  datatype Event =
    | StartAdd(id: nat, hash: string, mkdirOk: bool)
    | WritePage(id: nat, writeOk: bool)
    | CachePage(id: nat, outcome: SetOutcome)
    | CacheIndex(id: nat, outcome: SetOutcome)
    | StartGet(id: nat, hash: string, offset: int, length: int)
    | ReadPage(id: nat, fromMemory: bool, promote: bool)
    | FailFile(id: nat)
    | EvictEntry(c: nat, key: string)
    | ReadIndex(c: nat)
    | DeleteNext(c: nat)
    | Lose(key: string)
    | SetFull(full: bool)
    | Restart

  function Update(s: Store, id: nat, call: Call): Store {
    s.(calls := s.calls[id := call])
  }

  /** The effect of one event; an event that is not possible in `s` changes nothing. */
  function Next(objects: Objects, p: PageSize, s: Store, e: Event): Store {
    match e
    case StartAdd(id, hash, mkdirOk) => NextStartAdd(objects, s, id, hash, mkdirOk)
    case WritePage(id, writeOk) => NextWrite(objects, p, s, id, writeOk)
    case CachePage(id, outcome) => NextCache(objects, p, s, id, outcome)
    case CacheIndex(id, outcome) => NextIndex(objects, p, s, id, outcome)
    case StartGet(id, hash, offset, length) =>
      if id in s.calls then s else Update(s, id, Passed(hash, offset, length, More([])))
    case ReadPage(id, fromMemory, promote) => NextRead(p, s, id, fromMemory, promote)
    case FailFile(id) => NextFail(p, s, id)
    case EvictEntry(c, key) => NextEvict(s, c, key)
    case ReadIndex(c) => NextReadIndex(s, c)
    case DeleteNext(c) => NextDelete(s, c)
    case Lose(key) => s.(mem := s.mem - {key})
    case SetFull(full) => s.(full := full)
    case Restart => NextRestart(s)
  }

  /** The start of `Add`: makes the object's directory unless the disk is full. */
  function NextStartAdd(objects: Objects, s: Store, id: nat, hash: string, mkdirOk: bool): Store {
    if id in s.calls || hash !in objects then s
    else if s.full then Update(s, id, Adding(hash, 0, false, false))
    else if !mkdirOk then Update(s, id, AddEnded(hash, false, true))
    else Update(s.(dirs := s.dirs + {hash}), id, Adding(hash, 0, false, true))
  }

  /** Memory and the calls in progress are lost, the disk stays. */
  function NextRestart(s: Store): Store {
    s.(mem := map[], full := false, callbacks := map[],
       calls := map id | id in s.calls && (s.calls[id].AddEnded? || s.calls[id].ReadEnded?) :: s.calls[id])
  }

  /** The disk half of a pass in `Add`: skipped when the disk is full, failing without the object's directory. */
  function NextWrite(objects: Objects, p: PageSize, s: Store, id: nat, writeOk: bool): Store {
    if id !in s.calls || !s.calls[id].Adding? || s.calls[id].written
       || s.calls[id].hash !in objects || !HasPage(objects[s.calls[id].hash], p, s.calls[id].page) then s
    else
      var Adding(hash, page, _, clean) := s.calls[id];
      if s.full then Update(s, id, Adding(hash, page, true, false))
      else if !writeOk || hash !in s.dirs then Update(s, id, AddEnded(hash, false, clean))
      else
        Update(s.(disk := s.disk[(hash, ChunkKey(hash, page)) := Page(objects[hash], p, page)]), id,
               Adding(hash, page, true, clean))
  }

  /** The memory half of a pass in `Add`: skipped when the page is there. */
  function NextCache(objects: Objects, p: PageSize, s: Store, id: nat, outcome: SetOutcome): Store {
    if id !in s.calls || !s.calls[id].Adding? || !s.calls[id].written
       || s.calls[id].hash !in objects || !HasPage(objects[s.calls[id].hash], p, s.calls[id].page) then s
    else
      var Adding(hash, page, _, clean) := s.calls[id];
      var key, next := ChunkKey(hash, page), Adding(hash, page + 1, false, clean);
      if key in s.mem then Update(s, id, next)
      else match outcome
        case Kept => Update(s.(mem := s.mem[key := PageValue(hash, Page(objects[hash], p, page))]), id, next)
        case Refused => Update(s, id, next)
        case Dropped => Update(s, id, AddEnded(hash, false, clean))
  }

  /** The end of `Add`, after the last page. */
  function NextIndex(objects: Objects, p: PageSize, s: Store, id: nat, outcome: SetOutcome): Store {
    if id !in s.calls || !s.calls[id].Adding? || s.calls[id].written
       || s.calls[id].hash !in objects || HasPage(objects[s.calls[id].hash], p, s.calls[id].page) then s
    else
      var Adding(hash, page, _, clean) := s.calls[id];
      match outcome
      case Kept => Update(s.(mem := s.mem[hash := IndexValue(IndexString(hash, page))]), id,
          AddEnded(hash, true, clean))
      case Refused => Update(s, id, AddEnded(hash, true, clean))
      case Dropped => Update(s, id, AddEnded(hash, false, clean))
  }

  /** One pass of the loop in `Get`. */
  function NextRead(p: PageSize, s: Store, id: nat, fromMemory: bool, promote: bool): Store {
    if id !in s.calls || !s.calls[id].Reading? || |s.calls[id].got| >= s.calls[id].length then s
    else
      var Reading(hash, offset, length, got) := s.calls[id];
      ReadAt(s, id, hash, offset, length, got, PageIndex(offset + |got|, p), PageStart(offset + |got|, p), fromMemory,
          promote)
  }

  /** The pass over page `idx`, from position `start` in the page. */
  function ReadAt(s: Store, id: nat, hash: string, offset: int, length: int, got: Bytes, idx: int, start: int,
                  fromMemory: bool, promote: bool): Store
    requires |got| < length
  {
    var key := ChunkKey(hash, idx);
    if fromMemory then
      if key !in s.mem then s
      else if !s.mem[key].PageValue? then s.(panicked := true)
      else Update(s, id, Passed(hash, offset, length, PassFrom(start, length, got, s.mem[key].content)))
    else if (hash, key) in s.disk then
      var page := s.disk[(hash, key)];
      Update(if promote then s.(mem := s.mem[key := PageValue(hash, page)]) else s, id,
             Passed(hash, offset, length, PassFrom(start, length, got, page)))
    else if key in s.mem then s
    else Update(s, id, ReadEnded(hash, offset, length, NotFound))
  }

  /** A pass that goes to disk and cannot open or read the page file, whether or not it is there. */
  function NextFail(p: PageSize, s: Store, id: nat): Store {
    if id !in s.calls || !s.calls[id].Reading? then s
    else
      var Reading(hash, offset, length, got) := s.calls[id];
      if ChunkKey(hash, PageIndex(offset + |got|, p)) in s.mem then s
      else Update(s, id, ReadEnded(hash, offset, length, NotFound))
  }

  function Passed(hash: string, offset: int, length: int, pass: Pass): Call {
    match pass
    case Stop(result) => ReadEnded(hash, offset, length, result)
    case More(got) =>
      if |got| >= length then ReadEnded(hash, offset, length, Ok(got)) else Reading(hash, offset, length, got)
  }

  /** An entry leaves the cache, by policy or by TTL. */
  function NextEvict(s: Store, c: nat, key: string): Store {
    if c in s.callbacks || key !in s.mem then s
    else s.(mem := s.mem - {key}, callbacks := s.callbacks[c := Evicted(key, s.mem[key])])
  }

  /** The callback finds the page keys of the evicted value's object. */
  function NextReadIndex(s: Store, c: nat): Store {
    if c !in s.callbacks || !s.callbacks[c].Evicted? then s
    else
      var Evicted(key, value) := s.callbacks[c];
      if value.PageValue? && value.hash in s.mem && !s.mem[value.hash].IndexValue? then s.(panicked := true)
      else s.(callbacks := s.callbacks[c := Deleting(Owner(key, value), Cascade(s.mem, value))])
  }

  /** One pass of its delete loop. */
  function NextDelete(s: Store, c: nat): Store {
    if c !in s.callbacks || !s.callbacks[c].Deleting? || s.callbacks[c].keys == [] then s
    else
      var Deleting(hash, keys) := s.callbacks[c];
      s.(mem := s.mem - {keys[0]}, callbacks := s.callbacks[c := Deleting(hash, keys[1..])])
  }

  function Run(objects: Objects, p: PageSize, s: Store, es: seq<Event>): Store
    decreases |es|
  {
    if es == [] then s else Run(objects, p, Next(objects, p, s, es[0]), es[1..])
  }

  // ---- the invariant -------------------------------------------------------

  ghost predicate GoodCall(objects: Objects, p: PageSize, disk: Disk, call: Call) {
    match call
    case Adding(hash, page, written, clean) =>
      && hash in objects && page <= PageCount(|objects[hash]|, p)
      && (clean ==> PagesOnDisk(disk, hash, if written then page + 1 else page))
    case AddEnded(hash, ok, clean) => ok && clean ==> AllOnDisk(objects, p, disk, hash)
    case Reading(hash, offset, length, got) =>
      |got| < length && Tracks(PagesOf(Content(objects, hash), p), p, offset, length, got)
    case ReadEnded(hash, offset, length, result) =>
      result != NotFound ==> Read(PagesOf(Content(objects, hash), p), p, offset, length) == result
  }

  /** The key is a page key of the object, or the empty string that the index of an empty object splits into. */
  ghost predicate OwnKey(hash: string, k: string) {
    k == "" || exists i: int :: k == ChunkKey(hash, i)
  }

  ghost predicate OwnKeys(hash: string, keys: seq<string>) {
    forall j :: 0 <= j < |keys| ==> OwnKey(hash, keys[j])
  }

  ghost predicate GoodCallback(objects: Objects, p: PageSize, callback: Callback) {
    match callback
    case Evicted(key, value) => GoodEntry(objects, p, key, value)
    case Deleting(hash, keys) => hash in objects && OwnKeys(hash, keys)
  }

  ghost predicate Inv(objects: Objects, p: PageSize, s: Store) {
    && !s.panicked
    && GoodMemory(objects, p, s.mem)
    && GoodDisk(objects, p, s.disk)
    && (forall dir, file :: (dir, file) in s.disk ==> dir in s.dirs)
    && (forall id :: id in s.calls ==> GoodCall(objects, p, s.disk, s.calls[id]))
    && (forall c :: c in s.callbacks ==> GoodCallback(objects, p, s.callbacks[c]))
  }

  /** The tiers changed for the better and one call moved on to a good state. */
  lemma UpdateKeepsInv(objects: Objects, p: PageSize, s: Store, t: Store, id: nat, call: Call)
    requires Inv(objects, p, s) && t.calls == s.calls && t.callbacks == s.callbacks && !t.panicked
    requires s.disk.Keys <= t.disk.Keys
    requires GoodMemory(objects, p, t.mem) && GoodDisk(objects, p, t.disk)
    requires forall dir, file :: (dir, file) in t.disk ==> dir in t.dirs
    requires GoodCall(objects, p, t.disk, call)
    ensures Inv(objects, p, Update(t, id, call))
  {
  }

  lemma MemoryKeepsInv(objects: Objects, p: PageSize, s: Store, mem: Memory, id: nat, call: Call)
    requires Inv(objects, p, s) && GoodMemory(objects, p, mem) && GoodCall(objects, p, s.disk, call)
    ensures Inv(objects, p, Update(s.(mem := mem), id, call))
  {
  }

  lemma StartAddKeepsInv(objects: Objects, p: PageSize, s: Store, id: nat, hash: string, mkdirOk: bool)
    requires Inv(objects, p, s)
    ensures Inv(objects, p, NextStartAdd(objects, s, id, hash, mkdirOk))
  {
    if id !in s.calls && hash in objects {
      var t := if s.full || !mkdirOk then s else s.(dirs := s.dirs + {hash});
      UpdateKeepsInv(objects, p, s, t, id, NextStartAdd(objects, s, id, hash, mkdirOk).calls[id]);
    }
  }

  lemma StartGetKeepsInv(objects: Objects, p: PageSize, s: Store, id: nat, hash: string, offset: int, length: int)
    requires Inv(objects, p, s)
    ensures Inv(objects, p, Update(s, id, Passed(hash, offset, length, More([]))))
  {
    PrependNothing(Read(PagesOf(Content(objects, hash), p), p, offset, length));
    UpdateKeepsInv(objects, p, s, s, id, Passed(hash, offset, length, More([])));
  }

  lemma WriteKeepsInv(objects: Objects, p: PageSize, s: Store, id: nat, writeOk: bool)
    requires Inv(objects, p, s)
    ensures Inv(objects, p, NextWrite(objects, p, s, id, writeOk))
  {
    var t := NextWrite(objects, p, s, id, writeOk);
    if t != s {
      var Adding(hash, page, _, clean) := s.calls[id];
      HasPageIffCounted(objects[hash], p, page);
      assert IsPage(objects, p, hash, ChunkKey(hash, page), Page(objects[hash], p, page));
      UpdateKeepsInv(objects, p, s, t.(calls := s.calls), id, t.calls[id]);
    }
  }

  /** The memory half of a pass changes nothing, or the call and perhaps the page it caches. */
  lemma NextCacheIs(objects: Objects, p: PageSize, s: Store, id: nat, outcome: SetOutcome, t: Store)
    requires t == NextCache(objects, p, s, id, outcome) && t != s
    ensures id in s.calls && s.calls[id].Adding? && s.calls[id].written && id in t.calls
    ensures t == Update(s.(mem := t.mem), id, t.calls[id])
    ensures var Adding(hash, page, _, clean) := s.calls[id];
            && hash in objects && HasPage(objects[hash], p, page)
            && (t.mem == s.mem || t.mem == s.mem[ChunkKey(hash, page) := PageValue(hash, Page(objects[hash], p, page))])
            && (t.calls[id] == Adding(hash, page + 1, false, clean) || t.calls[id] == AddEnded(hash, false, clean))
  {
  }

  lemma CacheKeepsInv(objects: Objects, p: PageSize, s: Store, id: nat, outcome: SetOutcome)
    requires Inv(objects, p, s)
    ensures Inv(objects, p, NextCache(objects, p, s, id, outcome))
  {
    var t := NextCache(objects, p, s, id, outcome);
    if t != s {
      NextCacheIs(objects, p, s, id, outcome, t);
      var Adding(hash, page, _, clean) := s.calls[id];
      assert GoodCall(objects, p, s.disk, s.calls[id]);
      HasPageIffCounted(objects[hash], p, page);
      PutPageGood(objects, p, s.mem, hash, page);
      MemoryKeepsInv(objects, p, s, t.mem, id, t.calls[id]);
    }
  }

  lemma PutPageGood(objects: Objects, p: PageSize, mem: Memory, hash: string, page: int)
    requires GoodMemory(objects, p, mem) && hash in objects && HasPage(objects[hash], p, page)
    ensures GoodMemory(objects, p, mem[ChunkKey(hash, page) := PageValue(hash, Page(objects[hash], p, page))])
  {
    assert IsPage(objects, p, hash, ChunkKey(hash, page), Page(objects[hash], p, page));
  }

  lemma IndexKeepsInv(objects: Objects, p: PageSize, s: Store, id: nat, outcome: SetOutcome)
    requires Inv(objects, p, s)
    ensures Inv(objects, p, NextIndex(objects, p, s, id, outcome))
  {
    var t := NextIndex(objects, p, s, id, outcome);
    if t != s {
      var Adding(hash, page, _, clean) := s.calls[id];
      HasPageIffCounted(objects[hash], p, page);
      AllPages(objects, p, hash);
      MemoryKeepsInv(objects, p, s, t.mem, id, t.calls[id]);
      assert t == Update(s.(mem := t.mem), id, t.calls[id]);
    }
  }

  /** A pass from `start` over page `idx` of the object would leave the call good. */
  ghost predicate Passable(objects: Objects, p: PageSize, disk: Disk, hash: string, offset: int, length: int,
                           got: Bytes, idx: int, start: int)
    requires |got| < length
  {
    hash in objects && HasPage(objects[hash], p, idx) ==>
      GoodCall(objects, p, disk,
          Passed(hash, offset, length, PassFrom(start, length, got, Page(objects[hash], p, idx))))
  }

  lemma PassedGood(objects: Objects, p: PageSize, disk: Disk, hash: string, offset: int, length: int, got: Bytes,
                   idx: int, start: int)
    requires GoodCall(objects, p, disk, Reading(hash, offset, length, got))
    requires idx == PageIndex(offset + |got|, p) && start == PageStart(offset + |got|, p)
    ensures Passable(objects, p, disk, hash, offset, length, got, idx, start)
  {
    var o := PageIndex(offset + |got|, p);
    if hash in objects && HasPage(objects[hash], p, o) {
      var v, pass := PagesOf(objects[hash], p), PassOver(p, offset, length, got, Page(objects[hash], p, o));
      PassTracks(v, p, offset, length, got, pass);
      if pass.More? && |pass.got| >= length {
        TracksDone(v, p, offset, length, pass.got);
      }
    }
  }

  lemma MemoryReadKeepsInv(objects: Objects, p: PageSize, s: Store, id: nat, hash: string, offset: int, length: int,
                           got: Bytes, idx: int, start: int, promote: bool)
    requires Inv(objects, p, s) && |got| < length && Passable(objects, p, s.disk, hash, offset, length, got, idx, start)
    ensures Inv(objects, p, ReadAt(s, id, hash, offset, length, got, idx, start, true, promote))
  {
    if ChunkKey(hash, idx) in s.mem {
      PageInMemory(objects, p, s.mem, hash, idx);
      var pass := PassFrom(start, length, got, Page(objects[hash], p, idx));
      MemoryKeepsInv(objects, p, s, s.mem, id, Passed(hash, offset, length, pass));
    }
  }

  lemma DiskReadKeepsInv(objects: Objects, p: PageSize, s: Store, id: nat, hash: string, offset: int, length: int,
                         got: Bytes, idx: int, start: int, promote: bool)
    requires Inv(objects, p, s) && |got| < length && Passable(objects, p, s.disk, hash, offset, length, got, idx, start)
    ensures Inv(objects, p, ReadAt(s, id, hash, offset, length, got, idx, start, false, promote))
  {
    var key := ChunkKey(hash, idx);
    if (hash, key) in s.disk {
      PageOnDisk(objects, p, s.disk, hash, idx);
      PutPageGood(objects, p, s.mem, hash, idx);
      var page := s.disk[(hash, key)];
      var mem := if promote then s.mem[key := PageValue(hash, page)] else s.mem;
      MemoryKeepsInv(objects, p, s, mem, id, Passed(hash, offset, length, PassFrom(start, length, got, page)));
    } else {
      MemoryKeepsInv(objects, p, s, s.mem, id, ReadEnded(hash, offset, length, NotFound));
    }
  }

  lemma ReadAtKeepsInv(objects: Objects, p: PageSize, s: Store, id: nat, hash: string, offset: int, length: int,
                       got: Bytes, idx: int, start: int, fromMemory: bool, promote: bool, t: Store)
    requires Inv(objects, p, s) && id in s.calls && s.calls[id] == Reading(hash, offset, length, got)
    requires idx == PageIndex(offset + |got|, p) && start == PageStart(offset + |got|, p) && |got| < length
    requires t == ReadAt(s, id, hash, offset, length, got, idx, start, fromMemory, promote)
    ensures Inv(objects, p, t)
  {
    assert GoodCall(objects, p, s.disk, s.calls[id]);
    PassedGood(objects, p, s.disk, hash, offset, length, got, idx, start);
    if fromMemory {
      MemoryReadKeepsInv(objects, p, s, id, hash, offset, length, got, idx, start, promote);
    } else {
      DiskReadKeepsInv(objects, p, s, id, hash, offset, length, got, idx, start, promote);
    }
  }

  lemma NextReadIs(p: PageSize, s: Store, id: nat, hash: string, offset: int, length: int, got: Bytes, o: int,
                   fromMemory: bool, promote: bool)
    requires id in s.calls && s.calls[id] == Reading(hash, offset, length, got) && |got| < length && o == offset + |got|
    ensures NextRead(p, s, id, fromMemory, promote)
            == ReadAt(s, id, hash, offset, length, got, PageIndex(o, p), PageStart(o, p), fromMemory, promote)
  {
  }

  lemma NextReadMoves(p: PageSize, s: Store, id: nat, fromMemory: bool, promote: bool)
    ensures NextRead(p, s, id, fromMemory, promote) != s ==>
              id in s.calls && s.calls[id].Reading? && |s.calls[id].got| < s.calls[id].length
  {
  }

  lemma ReadKeepsInv(objects: Objects, p: PageSize, s: Store, id: nat, fromMemory: bool, promote: bool)
    requires Inv(objects, p, s)
    ensures Inv(objects, p, NextRead(p, s, id, fromMemory, promote))
  {
    var t := NextRead(p, s, id, fromMemory, promote);
    NextReadMoves(p, s, id, fromMemory, promote);
    if t != s {
      var Reading(hash, offset, length, got) := s.calls[id];
      var o := offset + |got|;
      NextReadIs(p, s, id, hash, offset, length, got, o, fromMemory, promote);
      ReadAtKeepsInv(objects, p, s, id, hash, offset, length, got, PageIndex(o, p), PageStart(o, p), fromMemory,
          promote, t);
    }
  }

  lemma FailKeepsInv(objects: Objects, p: PageSize, s: Store, id: nat)
    requires Inv(objects, p, s)
    ensures Inv(objects, p, NextFail(p, s, id))
  {
    if id in s.calls && s.calls[id].Reading? {
      var Reading(hash, offset, length, _) := s.calls[id];
      MemoryKeepsInv(objects, p, s, s.mem, id, ReadEnded(hash, offset, length, NotFound));
    }
  }

  /** What the callback deletes are page keys of the evicted value's object. */
  lemma CascadeOwn(objects: Objects, p: PageSize, mem: Memory, key: string, value: Value)
    requires GoodMemory(objects, p, mem) && GoodEntry(objects, p, key, value)
    ensures value.PageValue? && value.hash in mem ==> mem[value.hash].IndexValue?
    ensures Owner(key, value) in objects && OwnKeys(Owner(key, value), Cascade(mem, value))
  {
    CascadeExact(objects, p, mem, key, value);
    ChunkKeysOwn(Owner(key, value), PageCount(|objects[Owner(key, value)]|, p));
  }

  lemma ChunkKeysOwn(hash: string, count: nat)
    ensures OwnKeys(hash, ChunkKeys(hash, count))
  {
    var keys := ChunkKeys(hash, count);
    forall j | 0 <= j < |keys| ensures OwnKey(hash, keys[j]) {
      assert keys[j] == ChunkKey(hash, j);
    }
  }

  lemma ReadIndexKeepsInv(objects: Objects, p: PageSize, s: Store, c: nat)
    requires Inv(objects, p, s)
    ensures Inv(objects, p, NextReadIndex(s, c))
  {
    if c in s.callbacks && s.callbacks[c].Evicted? {
      assert GoodCallback(objects, p, s.callbacks[c]);
      CascadeOwn(objects, p, s.mem, s.callbacks[c].key, s.callbacks[c].value);
    }
  }

  lemma DeleteKeepsInv(objects: Objects, p: PageSize, s: Store, c: nat)
    requires Inv(objects, p, s)
    ensures Inv(objects, p, NextDelete(s, c))
  {
    var t := NextDelete(s, c);
    if t != s {
      assert GoodCallback(objects, p, s.callbacks[c]);
      assert GoodCallback(objects, p, t.callbacks[c]);
    }
  }

  lemma EvictKeepsInv(objects: Objects, p: PageSize, s: Store, c: nat, key: string)
    requires Inv(objects, p, s)
    ensures Inv(objects, p, NextEvict(s, c, key))
  {
  }

  lemma LossKeepsInv(objects: Objects, p: PageSize, s: Store, e: Event)
    requires Inv(objects, p, s) && (e.Lose? || e.SetFull? || e.Restart?)
    ensures Inv(objects, p, Next(objects, p, s, e))
  {
    var t := Next(objects, p, s, e);
    forall id | id in t.calls ensures GoodCall(objects, p, t.disk, t.calls[id]) {
      assert GoodCall(objects, p, s.disk, s.calls[id]);
    }
  }

  lemma NextKeepsInv(objects: Objects, p: PageSize, s: Store, e: Event)
    requires Inv(objects, p, s)
    ensures Inv(objects, p, Next(objects, p, s, e))
  {
    match e
    case StartAdd(id, hash, mkdirOk) => StartAddKeepsInv(objects, p, s, id, hash, mkdirOk);
    case StartGet(id, hash, offset, length) => StartGetKeepsInv(objects, p, s, id, hash, offset, length);
    case WritePage(id, writeOk) => WriteKeepsInv(objects, p, s, id, writeOk);
    case CachePage(id, outcome) => CacheKeepsInv(objects, p, s, id, outcome);
    case CacheIndex(id, outcome) => IndexKeepsInv(objects, p, s, id, outcome);
    case ReadPage(id, fromMemory, promote) => ReadKeepsInv(objects, p, s, id, fromMemory, promote);
    case FailFile(id) => FailKeepsInv(objects, p, s, id);
    case EvictEntry(c, key) => EvictKeepsInv(objects, p, s, c, key);
    case ReadIndex(c) => ReadIndexKeepsInv(objects, p, s, c);
    case DeleteNext(c) => DeleteKeepsInv(objects, p, s, c);
    case _ => LossKeepsInv(objects, p, s, e);
  }

  /** No step removes a file. */
  lemma NextKeepsDisk(objects: Objects, p: PageSize, s: Store, e: Event)
    ensures s.disk.Keys <= Next(objects, p, s, e).disk.Keys
  {
    match e
    case WritePage(id, writeOk) => WriteKeepsDisk(objects, p, s, id, writeOk);
    case CachePage(id, outcome) => CacheKeepsDisk(objects, p, s, id, outcome);
    case CacheIndex(id, outcome) => IndexKeepsDisk(objects, p, s, id, outcome);
    case ReadPage(id, fromMemory, promote) => ReadKeepsDisk(p, s, id, fromMemory, promote);
    case _ =>
  }

  lemma WriteKeepsDisk(objects: Objects, p: PageSize, s: Store, id: nat, writeOk: bool)
    ensures s.disk.Keys <= NextWrite(objects, p, s, id, writeOk).disk.Keys
  {
  }

  lemma CacheKeepsDisk(objects: Objects, p: PageSize, s: Store, id: nat, outcome: SetOutcome)
    ensures NextCache(objects, p, s, id, outcome).disk == s.disk
  {
    var t := NextCache(objects, p, s, id, outcome);
    if t != s {
      NextCacheIs(objects, p, s, id, outcome, t);
    }
  }

  lemma IndexKeepsDisk(objects: Objects, p: PageSize, s: Store, id: nat, outcome: SetOutcome)
    ensures NextIndex(objects, p, s, id, outcome).disk == s.disk
  {
  }

  lemma ReadKeepsDisk(p: PageSize, s: Store, id: nat, fromMemory: bool, promote: bool)
    ensures NextRead(p, s, id, fromMemory, promote).disk == s.disk
  {
  }

  lemma {:induction false} RunKeepsInv(objects: Objects, p: PageSize, s: Store, es: seq<Event>)
    requires Inv(objects, p, s)
    ensures Inv(objects, p, Run(objects, p, s, es)) && s.disk.Keys <= Run(objects, p, s, es).disk.Keys
    decreases |es|
  {
    if es != [] {
      NextKeepsInv(objects, p, s, es[0]);
      NextKeepsDisk(objects, p, s, es[0]);
      RunKeepsInv(objects, p, Next(objects, p, s, es[0]), es[1..]);
    }
  }

  // ---- what every run keeps --------------------------------------------------

  /** In every run, a `Get` that ended without error delivered exactly the requested slice of the content its
      hash stands for: a missing page never shows up as a short read. And no type assertion ever failed. */
  lemma EveryGetIsExact(objects: Objects, p: PageSize, es: seq<Event>, id: nat)
    requires var s := Run(objects, p, EMPTY, es); id in s.calls && s.calls[id].ReadEnded? && s.calls[id].result.Ok?
    ensures var ReadEnded(hash, offset, length, result) := Run(objects, p, EMPTY, es).calls[id];
            && (length > 0 ==> offset >= 0 && hash in objects)
            && (offset >= 0 ==> result.bytes == Slice(Content(objects, hash), offset, length))
            && (offset >= 0 ==> |result.bytes| == Max(0, Min(length, |Content(objects, hash)| - offset)))
  {
    RunKeepsInv(objects, p, EMPTY, es);
    var s := Run(objects, p, EMPTY, es);
    var ReadEnded(hash, offset, length, result) := s.calls[id];
    assert GoodCall(objects, p, s.disk, s.calls[id]);
    if offset >= 0 {
      ExactRead(Content(objects, hash), p, offset, length);
    }
  }

  /** In every run bare hashes hold only index strings and page keys only their page, so no type assertion on a
      cached value ever failed. */
  lemma KeysKeepTheirTypes(objects: Objects, p: PageSize, es: seq<Event>, hash: string, idx: int)
    ensures var s := Run(objects, p, EMPTY, es);
            && !s.panicked
            && (hash in objects && hash in s.mem ==>
                  s.mem[hash] == IndexValue(IndexString(hash, PageCount(|objects[hash]|, p))))
            && (ChunkKey(hash, idx) in s.mem ==>
                  && hash in objects && HasPage(objects[hash], p, idx)
                  && s.mem[ChunkKey(hash, idx)] == PageValue(hash, Page(objects[hash], p, idx)))
  {
    RunKeepsInv(objects, p, EMPTY, es);
    var s := Run(objects, p, EMPTY, es);
    if hash in objects && hash in s.mem {
      IndexInMemory(objects, p, s.mem, hash);
    }
    if ChunkKey(hash, idx) in s.mem {
      PageInMemory(objects, p, s.mem, hash, idx);
    }
  }

  // ---- durability ------------------------------------------------------------

  /** A read of `hash` that has ended did so as a read of the fully resident object. */
  ghost predicate ServedCall(objects: Objects, p: PageSize, hash: string, call: Call) {
    call.ReadEnded? && call.hash == hash ==>
      call.result == Read(PagesOf(Content(objects, hash), p), p, call.offset, call.length)
  }

  /** So did every one that started after the calls in `before`. */
  ghost predicate Served(objects: Objects, p: PageSize, s: Store, hash: string, before: set<nat>) {
    forall id :: id in s.calls && id !in before ==> ServedCall(objects, p, hash, s.calls[id])
  }

  lemma FoundServed(objects: Objects, p: PageSize, disk: Disk, hash: string, call: Call)
    requires GoodCall(objects, p, disk, call) && (call.ReadEnded? ==> call.result != NotFound)
    ensures ServedCall(objects, p, hash, call)
  {
  }

  /** The page that a read in progress needs next is not on disk. */
  predicate Missing(p: PageSize, disk: Disk, call: Call) {
    call.Reading? && (call.hash, ChunkKey(call.hash, PageIndex(call.offset + |call.got|, p))) !in disk
  }

  /** A read that misses a page of an object whose pages are all on disk is out of reach. */
  lemma MissedServed(objects: Objects, p: PageSize, disk: Disk, hash: string, call: Call)
    requires Missing(p, disk, call) && GoodCall(objects, p, disk, call) && AllOnDisk(objects, p, disk, hash)
    ensures ServedCall(objects, p, hash, ReadEnded(call.hash, call.offset, call.length, NotFound))
  {
    if call.hash == hash {
      MissingPage(objects, p, disk, hash, call.offset, call.length, call.got, PageIndex(call.offset + |call.got|, p));
    }
  }

  lemma NextServes(objects: Objects, p: PageSize, s: Store, e: Event, hash: string, before: set<nat>)
    requires Inv(objects, p, s) && AllOnDisk(objects, p, s.disk, hash) && Served(objects, p, s, hash, before)
    requires e.FailFile? ==> e.id in before
    ensures Served(objects, p, Next(objects, p, s, e), hash, before)
  {
    NextKeepsInv(objects, p, s, e);
    var t := Next(objects, p, s, e);
    forall id | id in t.calls && id !in before ensures ServedCall(objects, p, hash, t.calls[id]) {
      assert GoodCall(objects, p, t.disk, t.calls[id]);
      if NewlyNotFound(s, t, id) {
        EndedByRead(objects, p, s, e, id);
        assert GoodCall(objects, p, s.disk, s.calls[id]);
        MissedServed(objects, p, s.disk, hash, s.calls[id]);
      } else if !t.calls[id].ReadEnded? || t.calls[id].result != NotFound {
        FoundServed(objects, p, t.disk, hash, t.calls[id]);
      }
    }
  }

  /** Apart from a failure to read a file, only a pass of the call itself, at a page that is not on disk, ends a `Get`
      with not-found. */
  lemma EndedByRead(objects: Objects, p: PageSize, s: Store, e: Event, id: nat)
    requires NewlyNotFound(s, Next(objects, p, s, e), id) && e != FailFile(id)
    ensures id in s.calls && Missing(p, s.disk, s.calls[id])
    ensures var Reading(hash, offset, length, _) := s.calls[id];
            Next(objects, p, s, e).calls[id] == ReadEnded(hash, offset, length, NotFound)
  {
    if e.ReadPage? {
      EndedByPass(p, s, e.id, e.fromMemory, e.promote, id);
    } else {
      OtherwiseNotEnded(objects, p, s, e, id);
    }
  }

  ghost predicate NewlyNotFound(s: Store, t: Store, id: nat) {
    id in t.calls && t.calls[id].ReadEnded? && t.calls[id].result == NotFound
        && (id in s.calls ==> s.calls[id] != t.calls[id])
  }

  lemma OtherwiseNotEnded(objects: Objects, p: PageSize, s: Store, e: Event, id: nat)
    requires !e.ReadPage? && e != FailFile(id)
    ensures !NewlyNotFound(s, Next(objects, p, s, e), id)
  {
    match e
    case WritePage(add, writeOk) => WriteNotEnded(objects, p, s, add, writeOk, id);
    case CachePage(add, outcome) => CacheNotEnded(objects, p, s, add, outcome, id);
    case CacheIndex(add, outcome) => IndexNotEnded(objects, p, s, add, outcome, id);
    case FailFile(other) => FailNotEnded(p, s, other, id);
    case StartGet(get, hash, offset, length) =>
    case StartAdd(add, hash, mkdirOk) =>
    case Restart =>
    case _ => CallsKept(objects, p, s, e);
  }

  lemma FailNotEnded(p: PageSize, s: Store, other: nat, id: nat)
    requires other != id
    ensures !NewlyNotFound(s, NextFail(p, s, other), id)
  {
  }

  lemma CallsKept(objects: Objects, p: PageSize, s: Store, e: Event)
    requires e.EvictEntry? || e.ReadIndex? || e.DeleteNext? || e.Lose? || e.SetFull?
    ensures Next(objects, p, s, e).calls == s.calls
  {
  }

  lemma WriteNotEnded(objects: Objects, p: PageSize, s: Store, add: nat, writeOk: bool, id: nat)
    ensures !NewlyNotFound(s, NextWrite(objects, p, s, add, writeOk), id)
  {
  }

  lemma CacheNotEnded(objects: Objects, p: PageSize, s: Store, add: nat, outcome: SetOutcome, id: nat)
    ensures !NewlyNotFound(s, NextCache(objects, p, s, add, outcome), id)
  {
  }

  lemma IndexNotEnded(objects: Objects, p: PageSize, s: Store, add: nat, outcome: SetOutcome, id: nat)
    ensures !NewlyNotFound(s, NextIndex(objects, p, s, add, outcome), id)
  {
  }

  lemma EndedByPass(p: PageSize, s: Store, pass: nat, fromMemory: bool, promote: bool, id: nat)
    requires NewlyNotFound(s, NextRead(p, s, pass, fromMemory, promote), id)
    ensures id in s.calls && Missing(p, s.disk, s.calls[id])
    ensures var Reading(hash, offset, length, _) := s.calls[id];
            NextRead(p, s, pass, fromMemory, promote).calls[id] == ReadEnded(hash, offset, length, NotFound)
  {
    var Reading(hash, offset, length, got) := s.calls[pass];
    var o := offset + |got|;
    NextReadIs(p, s, pass, hash, offset, length, got, o, fromMemory, promote);
    EndedByPassAt(s, pass, hash, offset, length, got, PageIndex(o, p), PageStart(o, p), fromMemory, promote, id);
  }

  lemma EndedByPassAt(s: Store, pass: nat, hash: string, offset: int, length: int, got: Bytes, idx: int, start: int,
                      fromMemory: bool, promote: bool, id: nat)
    requires |got| < length
    requires NewlyNotFound(s, ReadAt(s, pass, hash, offset, length, got, idx, start, fromMemory, promote), id)
    ensures id == pass && (hash, ChunkKey(hash, idx)) !in s.disk
    ensures ReadAt(s, pass, hash, offset, length, got, idx, start, fromMemory, promote).calls[id]
            == ReadEnded(hash, offset, length, NotFound)
  {
    var key := ChunkKey(hash, idx);
    if fromMemory && key in s.mem && s.mem[key].PageValue? {
      PassedIsFound(hash, offset, length, start, got, s.mem[key].content);
    } else if !fromMemory && (hash, key) in s.disk {
      PassedIsFound(hash, offset, length, start, got, s.disk[(hash, key)]);
    }
  }

  lemma PassedIsFound(hash: string, offset: int, length: int, start: int, got: Bytes, page: Bytes)
    requires |got| < length
    ensures var call := Passed(hash, offset, length, PassFrom(start, length, got, page)); call.ReadEnded? ==>
              call.result != NotFound
  {
  }

  lemma MissingPage(objects: Objects, p: PageSize, disk: Disk, hash: string, offset: int, length: int, got: Bytes,
                    idx: int)
    requires |got| < length && idx == PageIndex(offset + |got|, p) && (hash, ChunkKey(hash, idx)) !in disk
    requires AllOnDisk(objects, p, disk, hash) && Tracks(PagesOf(Content(objects, hash), p), p, offset, length, got)
    ensures Read(PagesOf(Content(objects, hash), p), p, offset, length) == NotFound
  {
    TracksMissing(PagesOf(Content(objects, hash), p), p, offset, length, got);
  }

  lemma {:induction false} RunServes(objects: Objects, p: PageSize, s: Store, es: seq<Event>, hash: string,
                                     before: set<nat>)
    requires Inv(objects, p, s) && AllOnDisk(objects, p, s.disk, hash) && Served(objects, p, s, hash, before)
    requires FailedIds(es) <= before
    ensures AllOnDisk(objects, p, Run(objects, p, s, es).disk, hash)
    ensures Served(objects, p, Run(objects, p, s, es), hash, before)
    decreases |es|
  {
    if es != [] {
      NextKeepsInv(objects, p, s, es[0]);
      NextKeepsDisk(objects, p, s, es[0]);
      assert es[0].FailFile? ==> es[0].id in FailedIds(es);
      assert FailedIds(es[1..]) <= FailedIds(es);
      NextServes(objects, p, s, es[0], hash, before);
      RunServes(objects, p, Next(objects, p, s, es[0]), es[1..], hash, before);
    }
  }

  /** The calls that could not read a file. */
  function FailedIds(es: seq<Event>): set<nat> {
    set k | 0 <= k < |es| && es[k].FailFile? :: es[k].id
  }

  /** Durability: once an `Add` has succeeded with the disk-full flag never set, then after any later steps every `Get`
      started since, unless it could not read a file, fails exactly when its range is out of reach, and otherwise
      delivers its slice. */
  lemma Durable(objects: Objects, p: PageSize, es: seq<Event>, later: seq<Event>, add: nat, get: nat)
    requires var s := Run(objects, p, EMPTY, es);
             && add in s.calls && s.calls[add].AddEnded? && s.calls[add].ok && s.calls[add].clean && get !in s.calls
    requires get !in FailedIds(later)
    requires var s := Run(objects, p, EMPTY, es);
             var t := Run(objects, p, s, later);
             get in t.calls && t.calls[get].ReadEnded? && t.calls[get].hash == s.calls[add].hash
                 && t.calls[get].offset >= 0
    ensures var t := Run(objects, p, Run(objects, p, EMPTY, es), later);
            var ReadEnded(hash, offset, length, result) := t.calls[get];
            result == if OutOfReach(|Content(objects, hash)|, p, offset, length) then NotFound
                      else Ok(Slice(Content(objects, hash), offset, length))
  {
    var s := Run(objects, p, EMPTY, es);
    var t := Run(objects, p, s, later);
    RunKeepsInv(objects, p, EMPTY, es);
    assert GoodCall(objects, p, s.disk, s.calls[add]);
    RunServes(objects, p, s, later, s.calls[add].hash, s.calls.Keys + FailedIds(later));
    ExactRead(Content(objects, t.calls[get].hash), p, t.calls[get].offset, t.calls[get].length);
  }

  /** Such a `Get` also gets there: each pass over disk ends it or copies at least one more byte. */
  lemma DurableProgress(objects: Objects, p: PageSize, s: Store, id: nat, promote: bool)
    requires GoodMemory(objects, p, s.mem) && id in s.calls && s.calls[id].Reading?
               && |s.calls[id].got| < s.calls[id].length
    requires AllOnDisk(objects, p, s.disk, s.calls[id].hash)
    ensures var t := NextRead(p, s, id, false, promote);
            id in t.calls && (t.calls[id].ReadEnded? || (t.calls[id].Reading? && s.calls[id].got < t.calls[id].got))
  {
    var Reading(hash, offset, length, got) := s.calls[id];
    NextReadIs(p, s, id, hash, offset, length, got, offset + |got|, false, promote);
    DiskPassProgress(objects, p, s, id, hash, offset, length, got, PageIndex(offset + |got|, p),
        PageStart(offset + |got|, p), promote, NextRead(p, s, id, false, promote));
  }

  lemma DiskPassProgress(objects: Objects, p: PageSize, s: Store, id: nat, hash: string, offset: int, length: int,
                         got: Bytes, idx: int, start: int, promote: bool, t: Store)
    requires GoodMemory(objects, p, s.mem) && |got| < length && AllOnDisk(objects, p, s.disk, hash)
    requires t == ReadAt(s, id, hash, offset, length, got, idx, start, false, promote)
    ensures id in t.calls && (t.calls[id].ReadEnded? || (t.calls[id].Reading? && got < t.calls[id].got))
  {
    var key := ChunkKey(hash, idx);
    if (hash, key) in s.disk {
      PassGrows(start, length, got, s.disk[(hash, key)]);
    } else if key in s.mem {
      PageInMemory(objects, p, s.mem, hash, idx);
    }
  }

  lemma PassGrows(start: int, length: int, got: Bytes, page: Bytes)
    requires |got| < length
    ensures PassFrom(start, length, got, page).More? ==> got < PassFrom(start, length, got, page).got
  {
  }

  /** In every run, however it interleaves with other steps, a delete of the eviction callback takes away at most a
      page of the evicted entry's object: no entry of another object, and no index. */
  lemma DeleteTouchesOwn(objects: Objects, p: PageSize, es: seq<Event>, c: nat, k: string)
    requires var s := Run(objects, p, EMPTY, es);
             && c in s.callbacks && s.callbacks[c].Deleting? && k in s.mem
             && (s.mem[k].IndexValue? || Owner(k, s.mem[k]) != s.callbacks[c].hash)
    ensures var s, t := Run(objects, p, EMPTY, es), Next(objects, p, Run(objects, p, EMPTY, es), DeleteNext(c));
            k in t.mem && t.mem[k] == s.mem[k]
  {
    RunKeepsInv(objects, p, EMPTY, es);
    DeleteStepOwn(objects, p, Run(objects, p, EMPTY, es), c, k);
  }

  lemma DeleteStepOwn(objects: Objects, p: PageSize, s: Store, c: nat, k: string)
    requires Inv(objects, p, s) && c in s.callbacks && s.callbacks[c].Deleting? && k in s.mem
    requires s.mem[k].IndexValue? || Owner(k, s.mem[k]) != s.callbacks[c].hash
    ensures var t := Next(objects, p, s, DeleteNext(c)); k in t.mem && t.mem[k] == s.mem[k]
  {
    var Deleting(hash, keys) := s.callbacks[c];
    assert GoodCallback(objects, p, s.callbacks[c]);
    if keys != [] && keys[0] == k {
      NoEmptyKey(objects, p, s.mem);
      assert OwnKey(hash, keys[0]);
      var i: int :| k == ChunkKey(hash, i);
      PageInMemory(objects, p, s.mem, hash, i);
    }
  }

  /** The steps are deletes of the callback `c`. */
  ghost predicate DeletesOf(c: nat, steps: seq<Event>) {
    forall k :: 0 <= k < |steps| ==> steps[k] == DeleteNext(c)
  }

  lemma KeySetFirst(keys: seq<string>)
    requires keys != []
    ensures KeySet(keys) == {keys[0]} + KeySet(keys[1..])
  {
    assert keys == [keys[0]] + keys[1..];
  }

  lemma {:induction false} DeletesRun(objects: Objects, p: PageSize, s: Store, c: nat, steps: seq<Event>)
    requires c in s.callbacks && s.callbacks[c].Deleting? && |steps| == |s.callbacks[c].keys| && DeletesOf(c, steps)
    ensures Run(objects, p, s, steps).mem == s.mem - KeySet(s.callbacks[c].keys)
    decreases |steps|
  {
    if steps != [] {
      var keys, t := s.callbacks[c].keys, NextDelete(s, c);
      DeletesRun(objects, p, t, c, steps[1..]);
      assert Run(objects, p, s, steps) == Run(objects, p, t, steps[1..]);
      KeySetFirst(keys);
      assert s.mem - {keys[0]} - KeySet(keys[1..]) == s.mem - KeySet(keys);
    }
  }

  /** In every run, an eviction that nothing interrupts removes exactly what it should. */
  lemma EveryEvictionIsExact(objects: Objects, p: PageSize, es: seq<Event>, c: nat, key: string)
      returns (deletes: seq<Event>)
    requires key in Run(objects, p, EMPTY, es).mem && c !in Run(objects, p, EMPTY, es).callbacks
    ensures DeletesOf(c, deletes)
    ensures var s := Run(objects, p, EMPTY, es);
            EvictedExactly(s.mem, Run(objects, p, s, [EvictEntry(c, key), ReadIndex(c)] + deletes).mem, key)
  {
    RunKeepsInv(objects, p, EMPTY, es);
    var s := Run(objects, p, EMPTY, es);
    EvictionExact(objects, p, s.mem, key);
    deletes := EvictionRun(objects, p, s, c, key);
  }

  lemma EvictionRun(objects: Objects, p: PageSize, s: Store, c: nat, key: string) returns (deletes: seq<Event>)
    requires key in s.mem && c !in s.callbacks
    requires s.mem[key].PageValue? && s.mem[key].hash in s.mem - {key} ==> (s.mem - {key})[s.mem[key].hash].IndexValue?
    ensures DeletesOf(c, deletes)
    ensures Run(objects, p, s, [EvictEntry(c, key), ReadIndex(c)] + deletes).mem == AfterEviction(s.mem, key)
  {
    var t := EvictionStart(objects, p, s, c, key);
    deletes := seq(|t.callbacks[c].keys|, _ => DeleteNext(c));
    DeletesRun(objects, p, t, c, deletes);
    RunTwo(objects, p, s, EvictEntry(c, key), ReadIndex(c), deletes);
  }

  lemma EvictionStart(objects: Objects, p: PageSize, s: Store, c: nat, key: string) returns (t: Store)
    requires key in s.mem && c !in s.callbacks
    requires s.mem[key].PageValue? && s.mem[key].hash in s.mem - {key} ==> (s.mem - {key})[s.mem[key].hash].IndexValue?
    ensures t == Next(objects, p, Next(objects, p, s, EvictEntry(c, key)), ReadIndex(c))
    ensures t.mem == s.mem - {key} && c in t.callbacks
    ensures t.callbacks[c] == Deleting(Owner(key, s.mem[key]), Cascade(s.mem - {key}, s.mem[key]))
  {
    t := NextReadIndex(NextEvict(s, c, key), c);
  }

  lemma RunTwo(objects: Objects, p: PageSize, s: Store, a: Event, b: Event, rest: seq<Event>)
    ensures Run(objects, p, s, [a, b] + rest) == Run(objects, p, Next(objects, p, Next(objects, p, s, a), b), rest)
  {
    assert ([a, b] + rest)[1..] == [b] + rest && ([b] + rest)[1..] == rest;
  }

  // ---- what a read needs ------------------------------------------------------

  /** The steps are passes of the call `id`, each from memory or from disk. */
  ghost predicate PassesOf(id: nat, steps: seq<Event>) {
    forall k :: 0 <= k < |steps| ==> steps[k].ReadPage? && steps[k].id == id
  }

  /** The call reads the view `v`: in progress it has what `v` gave so far, ended it has what `v` gives. */
  ghost predicate Follows(v: View, p: PageSize, hash: string, offset: int, length: int, call: Call) {
    match call
    case Reading(h, o, l, got) => h == hash && o == offset && l == length && |got| < length
        && Tracks(v, p, offset, length, got)
    case ReadEnded(h, o, l, result) => h == hash && o == offset && l == length && result == Read(v, p, offset, length)
    case _ => false
  }

  /** Nothing but the call's own passes has happened since `resident` was resident. */
  ghost predicate Alone(objects: Objects, p: PageSize, s: Store, id: nat, hash: string, offset: int, length: int,
                        resident: iset<int>) {
    && GoodMemory(objects, p, s.mem) && GoodDisk(objects, p, s.disk) && Resident(s.mem, s.disk, hash) == resident
    && id in s.calls && Follows(Only(Content(objects, hash), p, resident), p, hash, offset, length, s.calls[id])
  }

  /** A pass over a page of the view leaves the call following it. */
  lemma PassFollows(v: View, p: PageSize, hash: string, offset: int, length: int, got: Bytes, idx: int, start: int)
    requires Bounded(v, p) && |got| < length && Tracks(v, p, offset, length, got) && (forall i :: i in v ==> i >= 0)
    requires idx == PageIndex(offset + |got|, p) && start == PageStart(offset + |got|, p) && idx in v
    ensures Follows(v, p, hash, offset, length, Passed(hash, offset, length, PassFrom(start, length, got, v[idx])))
  {
    var pass := PassFrom(start, length, got, v[idx]);
    PassTracks(v, p, offset, length, got, pass);
    if pass.More? && |pass.got| >= length {
      TracksDone(v, p, offset, length, pass.got);
    }
  }

  lemma MissFollows(v: View, p: PageSize, hash: string, offset: int, length: int, got: Bytes, idx: int)
    requires |got| < length && Tracks(v, p, offset, length, got) && idx == PageIndex(offset + |got|, p) && idx !in v
    ensures Follows(v, p, hash, offset, length, ReadEnded(hash, offset, length, NotFound))
  {
    TracksMissing(v, p, offset, length, got);
  }

  lemma UpdateAlone(objects: Objects, p: PageSize, s: Store, mem: Memory, id: nat, hash: string, offset: int,
                    length: int, resident: iset<int>, call: Call)
    requires GoodMemory(objects, p, mem) && GoodDisk(objects, p, s.disk) && Resident(mem, s.disk, hash) == resident
    requires Follows(Only(Content(objects, hash), p, resident), p, hash, offset, length, call)
    ensures Alone(objects, p, Update(s.(mem := mem), id, call), id, hash, offset, length, resident)
  {
  }

  /** The call's next page is `idx`, from `start` on, and a pass over it, or its absence, leaves the call following. */
  ghost predicate NextFollows(v: View, p: PageSize, hash: string, offset: int, length: int, got: Bytes, idx: int,
                              start: int)
    requires |got| < length
  {
    if idx in v then Follows(v, p, hash, offset, length,
        Passed(hash, offset, length, PassFrom(start, length, got, v[idx])))
    else Follows(v, p, hash, offset, length, ReadEnded(hash, offset, length, NotFound))
  }

  lemma MemoryPassAlone(objects: Objects, p: PageSize, s: Store, id: nat, hash: string, offset: int, length: int,
                        resident: iset<int>, got: Bytes, idx: int, start: int, promote: bool)
    requires Alone(objects, p, s, id, hash, offset, length, resident) && |got| < length
    requires NextFollows(Only(Content(objects, hash), p, resident), p, hash, offset, length, got, idx, start)
    ensures Alone(objects, p, ReadAt(s, id, hash, offset, length, got, idx, start, true, promote), id, hash, offset,
              length, resident)
  {
    var key := ChunkKey(hash, idx);
    if key in s.mem {
      PageInMemory(objects, p, s.mem, hash, idx);
      assert idx in resident;
      UpdateAlone(objects, p, s, s.mem, id, hash, offset, length, resident,
                  Passed(hash, offset, length, PassFrom(start, length, got, s.mem[key].content)));
    }
  }

  lemma PromoteAlone(objects: Objects, p: PageSize, s: Store, hash: string, idx: int)
    requires GoodMemory(objects, p, s.mem) && GoodDisk(objects, p, s.disk) && (hash, ChunkKey(hash, idx)) in s.disk
    ensures var mem := s.mem[ChunkKey(hash, idx) := PageValue(hash, s.disk[(hash, ChunkKey(hash, idx))])];
            GoodMemory(objects, p, mem) && Resident(mem, s.disk, hash) == Resident(s.mem, s.disk, hash)
  {
    PageOnDisk(objects, p, s.disk, hash, idx);
    PutPageGood(objects, p, s.mem, hash, idx);
  }

  /** A pass from disk may cache what disk has, which changes nothing in what is resident. */
  lemma DiskPassAlone(objects: Objects, p: PageSize, s: Store, id: nat, hash: string, offset: int, length: int,
                      resident: iset<int>, got: Bytes, idx: int, start: int, promote: bool)
    requires Alone(objects, p, s, id, hash, offset, length, resident) && |got| < length
    requires NextFollows(Only(Content(objects, hash), p, resident), p, hash, offset, length, got, idx, start)
    ensures Alone(objects, p, ReadAt(s, id, hash, offset, length, got, idx, start, false, promote), id, hash, offset,
              length, resident)
  {
    var key := ChunkKey(hash, idx);
    if (hash, key) in s.disk {
      PageOnDisk(objects, p, s.disk, hash, idx);
      PromoteAlone(objects, p, s, hash, idx);
      assert idx in resident;
      var page := s.disk[(hash, key)];
      UpdateAlone(objects, p, s, if promote then s.mem[key := PageValue(hash, page)] else s.mem, id, hash, offset,
          length, resident, Passed(hash, offset, length, PassFrom(start, length, got, page)));
    } else if key !in s.mem {
      assert idx !in resident;
      UpdateAlone(objects, p, s, s.mem, id, hash, offset, length, resident, ReadEnded(hash, offset, length, NotFound));
    }
  }

  lemma CallFollows(v: View, p: PageSize, hash: string, offset: int, length: int, got: Bytes, o: int)
    requires Bounded(v, p) && (forall i :: i in v ==> i >= 0) && o == offset + |got|
    requires |got| < length && Tracks(v, p, offset, length, got)
    ensures NextFollows(v, p, hash, offset, length, got, PageIndex(o, p), PageStart(o, p))
  {
    if PageIndex(o, p) in v {
      PassFollows(v, p, hash, offset, length, got, PageIndex(o, p), PageStart(o, p));
    } else {
      MissFollows(v, p, hash, offset, length, got, PageIndex(o, p));
    }
  }

  lemma PassAlone(objects: Objects, p: PageSize, s: Store, id: nat, hash: string, offset: int, length: int,
                  resident: iset<int>, got: Bytes, idx: int, start: int, fromMemory: bool, promote: bool, t: Store)
    requires Alone(objects, p, s, id, hash, offset, length, resident) && |got| < length
    requires NextFollows(Only(Content(objects, hash), p, resident), p, hash, offset, length, got, idx, start)
    requires t == ReadAt(s, id, hash, offset, length, got, idx, start, fromMemory, promote)
    ensures Alone(objects, p, t, id, hash, offset, length, resident)
  {
    if fromMemory {
      MemoryPassAlone(objects, p, s, id, hash, offset, length, resident, got, idx, start, promote);
    } else {
      DiskPassAlone(objects, p, s, id, hash, offset, length, resident, got, idx, start, promote);
    }
  }

  lemma StepAlone(objects: Objects, p: PageSize, s: Store, id: nat, hash: string, offset: int, length: int,
                  resident: iset<int>, fromMemory: bool, promote: bool)
    requires Alone(objects, p, s, id, hash, offset, length, resident)
    ensures Alone(objects, p, NextRead(p, s, id, fromMemory, promote), id, hash, offset, length, resident)
  {
    var t := NextRead(p, s, id, fromMemory, promote);
    NextReadMoves(p, s, id, fromMemory, promote);
    if t != s {
      var got := s.calls[id].got;
      var o := offset + |got|;
      NextReadIs(p, s, id, hash, offset, length, got, o, fromMemory, promote);
      CallFollows(Only(Content(objects, hash), p, resident), p, hash, offset, length, got, o);
      PassAlone(objects, p, s, id, hash, offset, length, resident, got, PageIndex(o, p), PageStart(o, p), fromMemory,
          promote, t);
    }
  }

  lemma {:induction false} RunAlone(objects: Objects, p: PageSize, s: Store, id: nat, hash: string, offset: int,
                                    length: int, resident: iset<int>, steps: seq<Event>)
    requires Alone(objects, p, s, id, hash, offset, length, resident) && PassesOf(id, steps)
    ensures Alone(objects, p, Run(objects, p, s, steps), id, hash, offset, length, resident)
    decreases |steps|
  {
    if steps != [] {
      StepAlone(objects, p, s, id, hash, offset, length, resident, steps[0].fromMemory, steps[0].promote);
      RunAlone(objects, p, Next(objects, p, s, steps[0]), id, hash, offset, length, resident, steps[1..]);
    }
  }

  lemma StartAlone(objects: Objects, p: PageSize, s: Store, id: nat, hash: string, offset: int, length: int)
    requires Inv(objects, p, s) && id !in s.calls
    ensures Alone(objects, p, Next(objects, p, s, StartGet(id, hash, offset, length)), id, hash, offset, length,
                  Resident(s.mem, s.disk, hash))
  {
    StartFollows(Only(Content(objects, hash), p, Resident(s.mem, s.disk, hash)), p, hash, offset, length);
    UpdateAlone(objects, p, s, s.mem, id, hash, offset, length, Resident(s.mem, s.disk, hash),
                Passed(hash, offset, length, More([])));
  }

  lemma StartFollows(v: View, p: PageSize, hash: string, offset: int, length: int)
    ensures Follows(v, p, hash, offset, length, Passed(hash, offset, length, More([])))
  {
    PrependNothing(Read(v, p, offset, length));
  }

  /** From every reachable state, a `Get` that nothing disturbs until it ends delivers its slice exactly when its
      range is within reach and all pages of the object that it touches are resident, and is not-found otherwise. */
  lemma UndisturbedGet(objects: Objects, p: PageSize, es: seq<Event>, id: nat, hash: string, offset: nat, length: int,
                       steps: seq<Event>)
    requires id !in Run(objects, p, EMPTY, es).calls && PassesOf(id, steps)
    requires var t := Run(objects, p,
               Next(objects, p, Run(objects, p, EMPTY, es), StartGet(id, hash, offset, length)), steps);
             id in t.calls && t.calls[id].ReadEnded?
    ensures var s := Run(objects, p, EMPTY, es);
            var t := Run(objects, p, Next(objects, p, s, StartGet(id, hash, offset, length)), steps);
            var c := Content(objects, hash);
            t.calls[id].result == if Readable(Only(c, p, Resident(s.mem, s.disk, hash)), c, p, offset, length)
                                  then Ok(Slice(c, offset, length)) else NotFound
  {
    var s := Run(objects, p, EMPTY, es);
    RunKeepsInv(objects, p, EMPTY, es);
    StartAlone(objects, p, s, id, hash, offset, length);
    RunAlone(objects, p, Next(objects, p, s, StartGet(id, hash, offset, length)), id, hash, offset, length,
             Resident(s.mem, s.disk, hash), steps);
    PartialRead(Only(Content(objects, hash), p, Resident(s.mem, s.disk, hash)), Content(objects, hash), p, offset,
        length);
  }

  /** The passes that a `Get` makes, each from memory if the page is there, do end it. */
  lemma {:induction false} PassesEnd(objects: Objects, p: PageSize, s: Store, id: nat, hash: string, offset: int,
                                     length: int, resident: iset<int>) returns (steps: seq<Event>)
    requires Alone(objects, p, s, id, hash, offset, length, resident)
    ensures PassesOf(id, steps) && id in Run(objects, p, s, steps).calls
              && Run(objects, p, s, steps).calls[id].ReadEnded?
    decreases if s.calls[id].Reading? then length - |s.calls[id].got| else 0
  {
    if s.calls[id].ReadEnded? {
      return [];
    }
    var e, t := StepOn(objects, p, s, id, hash, offset, length, resident);
    var rest := PassesEnd(objects, p, t, id, hash, offset, length, resident);
    RunOne(objects, p, s, e, rest);
    steps := [e] + rest;
  }

  /** The next pass of a call that runs alone: it stays alone, and ends or has more. */
  lemma StepOn(objects: Objects, p: PageSize, s: Store, id: nat, hash: string, offset: int, length: int,
               resident: iset<int>)
    returns (e: Event, t: Store)
    requires Alone(objects, p, s, id, hash, offset, length, resident) && s.calls[id].Reading?
    ensures e.ReadPage? && e.id == id && t == Next(objects, p, s, e)
    ensures Alone(objects, p, t, id, hash, offset, length, resident)
    ensures t.calls[id].Reading? ==> |s.calls[id].got| < |t.calls[id].got| < length
  {
    var got := s.calls[id].got;
    var fromMemory := PassGoesOn(objects, p, s, id, hash, offset, length, got);
    StepAlone(objects, p, s, id, hash, offset, length, resident, fromMemory, false);
    e := ReadPage(id, fromMemory, false);
    t := NextRead(p, s, id, fromMemory, false);
    assert t == Next(objects, p, s, e);
  }

  lemma RunOne(objects: Objects, p: PageSize, s: Store, e: Event, rest: seq<Event>)
    ensures Run(objects, p, s, [e] + rest) == Run(objects, p, Next(objects, p, s, e), rest)
  {
    assert ([e] + rest)[1..] == rest;
  }

  lemma PassGoesOn(objects: Objects, p: PageSize, s: Store, id: nat, hash: string, offset: int, length: int, got: Bytes)
    returns (fromMemory: bool)
    requires GoodMemory(objects, p, s.mem) && id in s.calls && s.calls[id] == Reading(hash, offset, length, got)
               && |got| < length
    ensures var t := NextRead(p, s, id, fromMemory, false);
            id in t.calls && (t.calls[id].ReadEnded? || (t.calls[id].Reading? && got < t.calls[id].got))
  {
    var o := offset + |got|;
    fromMemory := ChunkKey(hash, PageIndex(o, p)) in s.mem;
    NextReadIs(p, s, id, hash, offset, length, got, o, fromMemory, false);
    PassGoesOnAt(objects, p, s, id, hash, offset, length, got, PageIndex(o, p), PageStart(o, p), fromMemory);
  }

  lemma PassGoesOnAt(objects: Objects, p: PageSize, s: Store, id: nat, hash: string, offset: int, length: int,
                     got: Bytes, idx: int, start: int, fromMemory: bool)
    requires GoodMemory(objects, p, s.mem) && |got| < length && fromMemory == (ChunkKey(hash, idx) in s.mem)
    ensures var t := ReadAt(s, id, hash, offset, length, got, idx, start, fromMemory, false);
            id in t.calls && (t.calls[id].ReadEnded? || (t.calls[id].Reading? && got < t.calls[id].got))
  {
    var key := ChunkKey(hash, idx);
    if key in s.mem {
      PageInMemory(objects, p, s.mem, hash, idx);
      PassGrows(start, length, got, s.mem[key].content);
    } else if (hash, key) in s.disk {
      PassGrows(start, length, got, s.disk[(hash, key)]);
    }
  }

  /** From every reachable state such a `Get` can be run to its end. */
  lemma UndisturbedGetEnds(objects: Objects, p: PageSize, es: seq<Event>, id: nat, hash: string, offset: int,
                           length: int)
    returns (steps: seq<Event>)
    requires id !in Run(objects, p, EMPTY, es).calls
    ensures var t := Run(objects, p, Next(objects, p, Run(objects, p, EMPTY, es), StartGet(id, hash, offset, length)),
              steps);
            PassesOf(id, steps) && id in t.calls && t.calls[id].ReadEnded?
  {
    var s := Run(objects, p, EMPTY, es);
    RunKeepsInv(objects, p, EMPTY, es);
    StartAlone(objects, p, s, id, hash, offset, length);
    steps := PassesEnd(objects, p, Next(objects, p, s, StartGet(id, hash, offset, length)), id, hash, offset, length,
                       Resident(s.mem, s.disk, hash));
  }

  /** `Exists`: the index is in memory, or the object's directory is on disk. */
  predicate Exists(s: Store, hash: string) {
    hash in s.mem || hash in s.dirs
  }

  /** `Exists` does not promise a readable object: for every non-empty object there is a run in which it holds
      and a `Get` of the first byte fails. */
  lemma ExistsIsNotReadable(objects: Objects, p: PageSize, hash: string)
    requires hash in objects && objects[hash] != []
    ensures var s := Run(objects, p, EMPTY,
              [StartAdd(0, hash, true), StartGet(1, hash, 0, 1), ReadPage(1, false, false)]);
            Exists(s, hash) && 1 in s.calls && s.calls[1] == ReadEnded(hash, 0, 1, NotFound)
  {
    var es := [StartAdd(0, hash, true), StartGet(1, hash, 0, 1), ReadPage(1, false, false)];
    var s1 := Next(objects, p, EMPTY, es[0]);
    var s2 := Next(objects, p, s1, es[1]);
    var s3 := Next(objects, p, s2, es[2]);
    assert es[1..] == [es[1], es[2]] && es[1..][1..] == [es[2]] && es[1..][1..][1..] == [];
    assert Run(objects, p, s2, [es[2]]) == s3;
    assert Run(objects, p, s1, es[1..]) == s3;
  }

  /** An object that is all on disk does exist. */
  lemma DurableExists(objects: Objects, p: PageSize, es: seq<Event>, hash: string)
    requires hash in objects && objects[hash] != [] && AllOnDisk(objects, p, Run(objects, p, EMPTY, es).disk, hash)
    ensures Exists(Run(objects, p, EMPTY, es), hash)
  {
    RunKeepsInv(objects, p, EMPTY, es);
    assert HasPage(objects[hash], p, 0) && (hash, ChunkKey(hash, 0)) in Run(objects, p, EMPTY, es).disk;
  }
}
