/** The content-addressed store as one process runs it: `Add`, `Get` and the eviction callback,
    over a memory cache that may drop, refuse or evict any entry. */
module Storage {
  import opened Paging
  import opened PageKeys
  import opened StoreState
  import Text

  datatype AddError = MkdirFailed | WriteFailed | SetDropped
  datatype AddResult = Added | Failed(error: AddError)
  datatype GetError = ContentNotFound | InvalidChunkBoundaries
  datatype GetResult = Got(n: nat) | Missed(error: GetError)

  class ContentAddressableStorage {
    const pageSize: PageSize
    /** Whether memory has room for everything, so that nothing is dropped or evicted. */
    const lossless: bool
    /** Whether every page file that is there can be opened and read. */
    const readable: bool
    ghost const objects: Objects

    var mem: Memory
    var disk: Disk
    var dirs: set<string>
    var diskUsageExceeded: bool

    ghost predicate Valid()
      reads this
    {
      && GoodMemory(objects, pageSize, mem)
      && GoodDisk(objects, pageSize, disk)
      && forall dir, file :: (dir, file) in disk ==> dir in dirs
    }

    constructor (pageSize: PageSize, lossless: bool, readable: bool, ghost objects: Objects)
      ensures Valid() && mem == map[] && disk == map[] && dirs == {} && !diskUsageExceeded
      ensures this.pageSize == pageSize && this.lossless == lossless && this.readable == readable
                && this.objects == objects
    {
      this.pageSize, this.lossless, this.readable, this.objects := pageSize, lossless, readable, objects;
      mem, disk, dirs, diskUsageExceeded := map[], map[], {}, false;
    }

    /** The view of one object that the two tiers give together. */
    ghost function View(hash: string): View
      reads this
    {
      Only(Content(objects, hash), pageSize, Resident(mem, disk, hash))
    }

    /** The pages of an object that no lookup can miss, whatever memory does. */
    ghost function Certain(hash: string): iset<int>
      reads this
    {
      if readable then DiskResident(disk, hash) else iset{}
    }

    ghost function CertainView(hash: string): View
      reads this
    {
      Only(Content(objects, hash), pageSize, Certain(hash))
    }

    /** What is resident stays so and can be looked up. */
    predicate Fixed() {
      lossless && readable
    }

    /** The callback on an evicted value: deletes every key its object's index lists. */
    method OnEvict(value: Value)
      requires Valid()
      requires value.PageValue? && value.hash in mem ==> mem[value.hash].IndexValue?
      modifies this`mem
      ensures Valid()
      ensures mem == old(mem) - KeySet(Cascade(old(mem), value))
    {
      var keys := [];
      match value {
        case PageValue(hash, _) =>
          if hash in mem {
            keys := Text.Split(mem[hash].keys, ',');
          }
        case IndexValue(index) =>
          keys := Text.Split(index, ',');
      }
      DeleteAll(keys);
    }

    method DeleteAll(keys: seq<string>)
      requires Valid()
      modifies this`mem
      ensures Valid()
      ensures mem == old(mem) - KeySet(keys)
    {
      for i := 0 to |keys|
        invariant Valid()
        invariant mem == old(mem) - KeySet(keys[..i])
      {
        KeySetNext(keys, i);
        mem := mem - {keys[i]};
      }
      assert keys[..|keys|] == keys;
    }

    /** An entry leaves the cache, by policy or by TTL, and the callback runs. */
    method Evict(key: string)
      requires Valid() && key in mem
      modifies this`mem
      ensures Valid() && key !in mem
      ensures mem == old(mem) - {key} - KeySet(Cascade(old(mem) - {key}, old(mem)[key]))
    {
      var value := mem[key];
      mem := mem - {key};
      CascadeExact(objects, pageSize, mem, key, value);
      OnEvict(value);
    }

    /** The cache's `Set`: unless lossless it may drop the write (then it says so), refuse it silently, and
        evict entries. */
    method CacheSet(key: string, value: Value) returns (added: bool)
      requires Valid() && GoodEntry(objects, pageSize, key, value)
      modifies this`mem
      ensures Valid()
      ensures Within(mem, old(mem)) || Within(mem, old(mem)[key := value])
      ensures lossless ==> added && mem == old(mem)[key := value]
    {
      if lossless {
        mem := mem[key := value];
        return true;
      }
      added := *;
      var admitted: bool := *;
      if added && admitted {
        mem := mem[key := value];
      }
      EvictSome();
    }

    /** Any number of evictions, of any entries. */
    method EvictSome()
      requires Valid()
      modifies this`mem
      ensures Valid()
      ensures Within(mem, old(mem))
    {
      var evictions: nat := *;
      while evictions > 0 && mem != map[]
        invariant Valid()
        invariant Within(mem, old(mem))
        decreases evictions
      {
        var victim :| victim in mem;
        Evict(victim);
        evictions := evictions - 1;
      }
    }

    /** Cuts `content` into pages, writes each through to disk unless the disk is full, and caches the pages
        and the index. That the caller's content is the one its hash stands for is collision-freedom. */
    method Add(hash: string, content: Bytes) returns (r: AddResult)
      requires Valid()
      requires hash in objects && objects[hash] == content
      modifies this
      ensures Valid() && diskUsageExceeded == old(diskUsageExceeded)
      // the disk only gains pages of this object, and none when it is full
      ensures Gained(old(disk), disk, hash)
      ensures diskUsageExceeded ==> disk == old(disk) && dirs == old(dirs)
      // a success with the disk available leaves every page there; a lossless memory holds everything too
      ensures r.Added? && !diskUsageExceeded ==> AllOnDisk(objects, pageSize, disk, hash)
      ensures r.Added? && lossless ==> hash in mem && AllInMemory(objects, pageSize, mem, hash)
      ensures lossless ==> r != Failed(SetDropped) && old(mem).Keys <= mem.Keys
    {
      if !diskUsageExceeded {
        var made: bool := *;
        if !made {
          return Failed(MkdirFailed);
        }
        dirs := dirs + {hash};
      }
      var chunkKeys;
      r, chunkKeys := AddPages(hash, content);
      if r.Failed? {
        return;
      }
      AllPages(objects, pageSize, hash);
      var index := Text.Join(chunkKeys, ',');
      var added := CacheSet(hash, IndexValue(index));
      if !added {
        return Failed(SetDropped);
      }
    }

    /** The loop of `Add`. */
    method AddPages(hash: string, content: Bytes) returns (r: AddResult, chunkKeys: seq<string>)
      requires Valid() && hash in objects && objects[hash] == content && (!diskUsageExceeded ==> hash in dirs)
      modifies this`mem, this`disk
      ensures Valid()
      ensures Gained(old(disk), disk, hash)
      ensures diskUsageExceeded ==> disk == old(disk)
      ensures r.Added? ==> chunkKeys == ChunkKeys(hash, PageCount(|content|, pageSize))
      ensures r.Added? && !diskUsageExceeded ==> PagesOnDisk(disk, hash, PageCount(|content|, pageSize))
      ensures r.Added? && lossless ==> PagesInMemory(mem, hash, PageCount(|content|, pageSize))
      ensures lossless ==> r != Failed(SetDropped) && old(mem).Keys <= mem.Keys
    {
      var size := |content|;
      chunkKeys := [];
      var offset := 0;
      ghost var k: nat := 0;
      while offset < size
        invariant Valid()
        invariant Gained(old(disk), disk, hash)
        invariant diskUsageExceeded ==> disk == old(disk)
        invariant !diskUsageExceeded ==> PagesOnDisk(disk, hash, k)
        invariant lossless ==> PagesInMemory(mem, hash, k) && old(mem).Keys <= mem.Keys
        invariant offset == k * pageSize && offset < size + pageSize
        invariant chunkKeys == ChunkKeys(hash, k)
      {
        var chunkIdx := offset / pageSize;
        PageAt(content, pageSize, k, offset);
        var end := if offset + pageSize > size then size else offset + pageSize;
        ghost var onDisk, inMemory := disk, mem;
        r := AddPage(hash, chunkIdx, content[offset..end]);
        if r.Failed? {
          return;
        }
        if !diskUsageExceeded {
          NextOnDisk(onDisk, disk, hash, k);
        }
        if lossless {
          NextInMemory(inMemory, mem, hash, k);
        }
        chunkKeys := chunkKeys + [ChunkKey(hash, chunkIdx)];
        offset := offset + pageSize;
        ChunkKeysNext(hash, k);
        k := k + 1;
      }
      CountedAll(content, pageSize, k);
      r := Added;
    }

    /** One pass of the loop in `Add`: the page goes to disk unless that is full, then to memory unless it is there. */
    method AddPage(hash: string, chunkIdx: nat, chunk: Bytes) returns (r: AddResult)
      requires Valid()
      requires hash in objects && HasPage(objects[hash], pageSize, chunkIdx)
      requires chunk == Page(objects[hash], pageSize, chunkIdx)
      requires !diskUsageExceeded ==> hash in dirs
      modifies this`mem, this`disk
      ensures Valid()
      ensures Gained(old(disk), disk, hash)
      ensures diskUsageExceeded ==> disk == old(disk)
      ensures r.Added? && !diskUsageExceeded ==> (hash, ChunkKey(hash, chunkIdx)) in disk
      ensures r.Added? && lossless ==> ChunkKey(hash, chunkIdx) in mem
      ensures lossless ==> r != Failed(SetDropped) && old(mem).Keys <= mem.Keys
    {
      var chunkKey := ChunkKey(hash, chunkIdx);
      assert IsPage(objects, pageSize, hash, chunkKey, chunk);
      if !diskUsageExceeded {
        var written: bool := *;
        if !written {
          return Failed(WriteFailed);
        }
        WritePage(hash, chunkIdx, chunk);
      }
      if chunkKey !in mem {
        var added := CacheSet(chunkKey, PageValue(hash, chunk));
        if !added {
          return Failed(SetDropped);
        }
      }
      r := Added;
    }

    /** One page file is written whole. */
    method WritePage(hash: string, chunkIdx: nat, chunk: Bytes)
      requires Valid() && hash in dirs && hash in objects
      requires HasPage(objects[hash], pageSize, chunkIdx) && chunk == Page(objects[hash], pageSize, chunkIdx)
      modifies this`disk
      ensures Valid()
      ensures disk == old(disk)[(hash, ChunkKey(hash, chunkIdx)) := chunk]
      ensures Gained(old(disk), disk, hash)
    {
      assert IsPage(objects, pageSize, hash, ChunkKey(hash, chunkIdx), chunk);
      if (hash, ChunkKey(hash, chunkIdx)) in disk {
        PageOnDisk(objects, pageSize, disk, hash, chunkIdx);
      }
      disk := disk[(hash, ChunkKey(hash, chunkIdx)) := chunk];
    }

    /** The slow path of a lookup: memory again, then disk, promoting what disk had. */
    method GetFromDiskCache(hash: string, chunkIdx: int) returns (value: Value, found: bool)
      requires Valid()
      modifies this`mem
      ensures Valid()
      ensures found ==> chunkIdx in old(Resident(mem, disk, hash))
      ensures chunkIdx in old(Resident(mem, disk, hash)) && (readable || ChunkKey(hash, chunkIdx) in old(mem)) ==> found
      ensures found ==> hash in objects && HasPage(objects[hash], pageSize, chunkIdx)
                        && value == PageValue(hash, Page(objects[hash], pageSize, chunkIdx))
      ensures Resident(mem, disk, hash) <= old(Resident(mem, disk, hash))
      ensures lossless ==> Resident(mem, disk, hash) == old(Resident(mem, disk, hash))
    {
      var chunkKey := ChunkKey(hash, chunkIdx);
      value, found := IndexValue(""), false;
      if chunkKey in mem {
        PageInMemory(objects, pageSize, mem, hash, chunkIdx);
        return mem[chunkKey], true;
      }
      var readOk: bool := *;
      if (hash, chunkKey) in disk && (readable || readOk) {
        PageOnDisk(objects, pageSize, disk, hash, chunkIdx);
        value, found := PageValue(hash, disk[(hash, chunkKey)]), true;
        var _ := CacheSet(chunkKey, value);
      }
    }

    /** One page lookup of `Get`: memory first, then the slow path. */
    method Lookup(hash: string, chunkIdx: int) returns (value: Value, found: bool)
      requires Valid()
      modifies this`mem
      ensures Valid()
      ensures found ==> chunkIdx in old(Resident(mem, disk, hash))
      ensures chunkIdx in old(Resident(mem, disk, hash)) && (readable || ChunkKey(hash, chunkIdx) in old(mem)) ==> found
      ensures found ==> hash in objects && HasPage(objects[hash], pageSize, chunkIdx)
                        && value == PageValue(hash, Page(objects[hash], pageSize, chunkIdx))
      ensures Resident(mem, disk, hash) <= old(Resident(mem, disk, hash))
      ensures lossless ==> Resident(mem, disk, hash) == old(Resident(mem, disk, hash))
    {
      var chunkKey := ChunkKey(hash, chunkIdx);
      if chunkKey in mem {
        PageInMemory(objects, pageSize, mem, hash, chunkIdx);
        return mem[chunkKey], true;
      }
      value, found := GetFromDiskCache(hash, chunkIdx);
    }

    /** One pass of the loop in `Get`: looks a page up and copies from it, after the `dstOffset` bytes copied so far. */
    method ReadPass(hash: string, chunkIdx: int, start: int, length: int, dst: array<Byte>, dstOffset: nat)
      returns (done: bool, r: GetResult)
      requires Valid() && dstOffset < length <= dst.Length
      modifies this`mem, dst
      ensures Valid()
      ensures Resident(mem, disk, hash) <= old(Resident(mem, disk, hash))
      ensures lossless ==> Resident(mem, disk, hash) == old(Resident(mem, disk, hash))
      ensures forall k :: length <= k < dst.Length ==> dst[k] == old(dst[k])
      ensures r.Got? ==> r.n <= length
      ensures chunkIdx !in old(Resident(mem, disk, hash)) ==> r == Missed(ContentNotFound)
      ensures r == Missed(ContentNotFound) ==> done
      ensures chunkIdx in old(Resident(mem, disk, hash)) && (readable || r != Missed(ContentNotFound)) ==>
                && HasPage(Content(objects, hash), pageSize, chunkIdx)
                && Matches(PassFrom(start, length, old(dst[..dstOffset]),
                  Page(Content(objects, hash), pageSize, chunkIdx)), done, r, dst[..if r.Got? then r.n else 0])
    {
      var value, found := Lookup(hash, chunkIdx);
      if !found {
        return true, Missed(ContentNotFound);
      }
      done, r := CopyPass(value.content, start, length, dst, dstOffset);
    }

    /** Copies up to `length` bytes of an object from `offset` on into `dst`. */
    method Get(hash: string, offset: int, length: int, dst: array<Byte>) returns (r: GetResult)
      requires Valid() && length <= dst.Length
      modifies this`mem, dst
      ensures Valid()
      ensures r.Got? ==> r.n <= Max(length, 0)
      ensures forall k :: Max(length, 0) <= k < dst.Length ==> dst[k] == old(dst[k])
      ensures GetOutcome(Fixed(), old(View(hash)), old(CertainView(hash)), Content(objects, hash), pageSize, offset,
                length, r, dst[..if r.Got? then r.n else 0])
      ensures lossless ==> Resident(mem, disk, hash) == old(Resident(mem, disk, hash))
    {
      var dstOffset := 0;
      ghost var c, resident, onDisk := Content(objects, hash), Resident(mem, disk, hash), Certain(hash);
      assert dst[..0] == [];
      ServeStart(View(hash), CertainView(hash), pageSize, offset, length);
      while dstOffset < length
        invariant Valid() && 0 <= dstOffset <= Max(length, 0)
        invariant onDisk <= Resident(mem, disk, hash) <= resident
        invariant lossless ==> Resident(mem, disk, hash) == resident
        invariant ServingFrom(c, pageSize, resident, onDisk, offset, length, dst[..dstOffset])
        invariant forall k :: Max(length, 0) <= k < dst.Length ==> dst[k] == old(dst[k])
      {
        var o := offset + dstOffset;
        var chunkIdx, start := PageIndex(o, pageSize), PageStart(o, pageSize);
        ghost var got, held := dst[..dstOffset], chunkIdx in Resident(mem, disk, hash);
        assert |got| == dstOffset;
        var done, pass := ReadPass(hash, chunkIdx, start, length, dst, dstOffset);
        if held && (readable || pass != Missed(ContentNotFound)) {
          ServeFound(c, pageSize, resident, onDisk, offset, length, got, o,
              PassFrom(start, length, got, Page(c, pageSize, chunkIdx)));
        } else {
          ServeNotFound(c, pageSize, resident, onDisk, offset, length, got, o);
        }
        if done {
          OutcomeOf(Fixed(), c, pageSize, resident, onDisk, offset, length, pass,
              dst[..if pass.Got? then pass.n else 0]);
          return pass;
        }
        dstOffset := pass.n;
      }
      TracksDone(Only(c, pageSize, resident), pageSize, offset, length, dst[..dstOffset]);
      OutcomeOf(Fixed(), c, pageSize, resident, onDisk, offset, length, Got(dstOffset), dst[..dstOffset]);
      r := Got(dstOffset);
    }
  }

  /** What the result of a `Get` and the `bytes` it delivered promise, where `v` was resident and `cv` could not go
      missing. Success delivers the read of what was resident. Whatever memory loses, a read that readable files alone
      can serve succeeds. On a fixed set of pages it fails exactly when the read of what was resident does, and with
      its error. */
  ghost predicate GetOutcome(fixed: bool, v: View, cv: View, c: Bytes, p: PageSize, offset: int, length: int,
                             r: GetResult, bytes: Bytes)
  {
    && (r.Got? ==> Read(v, p, offset, length) == Ok(bytes))
    && (r.Missed? ==> !Read(cv, p, offset, length).Ok?)
    && (fixed && r.Missed? ==> Read(v, p, offset, length) == if r.error.ContentNotFound? then NotFound else BadBounds)
    // in terms of the range: what must have been resident for a success, and what suffices
    && (offset >= 0 && r.Got? ==> Readable(v, c, p, offset, length))
    && (offset >= 0 && Readable(cv, c, p, offset, length) ==> r.Got?)
    && (offset >= 0 && fixed ==> (r.Got? <==> Readable(v, c, p, offset, length)))
  }

  lemma OutcomeOf(fixed: bool, c: Bytes, p: PageSize, resident: iset<int>, certain: iset<int>, offset: int, length: int,
                  r: GetResult, bytes: Bytes)
    requires var v, cv := Only(c, p, resident), Only(c, p, certain);
             && (r.Got? ==> Read(v, p, offset, length) == Ok(bytes))
             && (r.Missed? ==> !Read(cv, p, offset, length).Ok?)
             && (fixed && r.Missed? ==> Read(v, p, offset, length) == if r.error.ContentNotFound? then NotFound
               else BadBounds)
    ensures GetOutcome(fixed, Only(c, p, resident), Only(c, p, certain), c, p, offset, length, r, bytes)
  {
    ReadableViews(c, p, resident, certain, offset, length);
  }

  /** The code's outcome of a pass is the specified one; `bytes` is what has been copied by then. */
  ghost predicate Matches(pass: Pass, done: bool, r: GetResult, bytes: Bytes) {
    match pass
    case More(got) => !done && r == Got(|got|) && bytes == got
    case Stop(Ok(got)) => done && r == Got(|got|) && bytes == got
    case Stop(NotFound) => done && r == Missed(ContentNotFound)
    case Stop(BadBounds) => done && r == Missed(InvalidChunkBoundaries)
  }

  lemma MatchesMore(start: int, length: int, got: Bytes, page: Bytes, bytes: Bytes)
    requires |got| < length && 0 <= start < |page|
    requires bytes == got + page[start..start + Min(length - |got|, |page| - start)]
    ensures Matches(PassFrom(start, length, got, page), false, Got(|bytes|), bytes)
  {
  }

  /** The copying half of a pass: from `start` in the page on, after the `dstOffset` bytes copied so far. */
  method CopyPass(chunkBytes: Bytes, start: int, length: int, dst: array<Byte>, dstOffset: nat)
    returns (done: bool, r: GetResult)
    requires dstOffset < length <= dst.Length
    modifies dst
    ensures forall k :: length <= k < dst.Length ==> dst[k] == old(dst[k])
    ensures r.Got? ==> r.n <= length
    ensures r != Missed(ContentNotFound)
    ensures Matches(PassFrom(start, length, old(dst[..dstOffset]), chunkBytes), done, r,
              dst[..if r.Got? then r.n else 0])
  {
    var chunkRemaining := |chunkBytes| - start;
    if chunkRemaining <= 0 {
      return true, Got(dstOffset);
    }
    var readLength := Min(length - dstOffset, chunkRemaining);
    var end := start + readLength;
    if start < 0 || end <= start || end > |chunkBytes| {
      return true, Missed(InvalidChunkBoundaries);
    }
    CopyInto(dst, dstOffset, chunkBytes[start..end]);
    MatchesMore(start, length, old(dst[..dstOffset]), chunkBytes, dst[..dstOffset + readLength]);
    return false, Got(dstOffset + readLength);
  }

  /** Go's `copy(dst[at:at+len(src)], src)`. */
  method CopyInto(dst: array<Byte>, at: nat, src: Bytes)
    requires at + |src| <= dst.Length
    modifies dst
    ensures dst[..at + |src|] == old(dst[..at]) + src
    ensures forall k :: at + |src| <= k < dst.Length ==> dst[k] == old(dst[k])
  {
    forall k | 0 <= k < |src| {
      dst[at + k] := src[k];
    }
  }
}
