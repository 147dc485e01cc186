/** The two tiers of the content-addressed store, what may be in them, and the eviction cascade. */
module StoreState {
  import opened Paging
  import opened PageKeys
  import Text

  /** A value in the memory cache: a page, or under the bare hash the index of an object's page keys. */
  datatype Value = PageValue(hash: string, content: Bytes) | IndexValue(keys: string)

  type Memory = map<string, Value>

  /** Files of the disk cache by object directory and file name. */
  type Disk = map<(string, string), Bytes>

  /** The content that each hash stands for. That it is a map is the assumption that hashes do not collide. */
  type Objects = objects: map<string, Bytes> | forall h :: h in objects ==> WellFormed(h)

  function Content(objects: Objects, hash: string): Bytes {
    if hash in objects then objects[hash] else []
  }

  ghost predicate IsPage(objects: Objects, p: PageSize, hash: string, key: string, content: Bytes) {
    hash in objects
    && exists i :: HasPage(objects[hash], p, i) && key == ChunkKey(hash, i) && content == Page(objects[hash], p, i)
  }

  ghost predicate GoodEntry(objects: Objects, p: PageSize, key: string, value: Value) {
    match value
    case PageValue(hash, content) => IsPage(objects, p, hash, key, content)
    case IndexValue(keys) => key in objects && keys == IndexString(key, PageCount(|objects[key]|, p))
  }

  ghost predicate GoodMemory(objects: Objects, p: PageSize, mem: Memory) {
    forall k :: k in mem ==> GoodEntry(objects, p, k, mem[k])
  }

  ghost predicate GoodDisk(objects: Objects, p: PageSize, disk: Disk) {
    forall dir, file :: (dir, file) in disk ==> IsPage(objects, p, dir, file, disk[(dir, file)])
  }

  /** The page indices of `hash` that a lookup finds in either tier. */
  ghost function Resident(mem: Memory, disk: Disk, hash: string): iset<int> {
    iset i: int | ChunkKey(hash, i) in mem || (hash, ChunkKey(hash, i)) in disk
  }

  ghost function DiskResident(disk: Disk, hash: string): iset<int> {
    iset i: int | (hash, ChunkKey(hash, i)) in disk
  }

  /** The view of an object in which only the given pages are resident. */
  ghost function Only(c: Bytes, p: PageSize, resident: iset<int>): (v: View)
    ensures SubView(v, PagesOf(c, p)) && Bounded(v, p)
  {
    imap i | i in resident && HasPage(c, p, i) :: Page(c, p, i)
  }

  lemma OnlyMonotone(c: Bytes, p: PageSize, r: iset<int>, s: iset<int>)
    requires r <= s
    ensures SubView(Only(c, p, r), Only(c, p, s))
  {
  }

  /** A read of an object in progress, from the pages in `resident`, of which those in `onDisk` cannot go missing. */
  ghost predicate ServingFrom(c: Bytes, p: PageSize, resident: iset<int>, onDisk: iset<int>, offset: int, length: int,
                              got: Bytes) {
    Serving(Only(c, p, resident), Only(c, p, onDisk), p, offset, length, got)
  }

  /** In terms of the range: what a read of some pages takes and what it gives. */
  lemma ReadableViews(c: Bytes, p: PageSize, resident: iset<int>, onDisk: iset<int>, offset: int, length: int)
    ensures offset >= 0 ==> (Readable(Only(c, p, resident), c, p, offset, length)
              <==> Read(Only(c, p, resident), p, offset, length).Ok?)
    ensures offset >= 0 ==> (Readable(Only(c, p, onDisk), c, p, offset, length)
              <==> Read(Only(c, p, onDisk), p, offset, length).Ok?)
  {
    if offset >= 0 {
      PartialRead(Only(c, p, resident), c, p, offset, length);
      PartialRead(Only(c, p, onDisk), c, p, offset, length);
    }
  }

  lemma ServeFound(c: Bytes, p: PageSize, resident: iset<int>, onDisk: iset<int>, offset: int, length: int,
                   got: Bytes, o: int, pass: Pass)
    requires onDisk <= resident && ServingFrom(c, p, resident, onDisk, offset, length, got) && |got| < length
    requires o == offset + |got| && PageIndex(o, p) in resident && HasPage(c, p, PageIndex(o, p))
    requires pass == PassFrom(PageStart(o, p), length, got, Page(c, p, PageIndex(o, p)))
    ensures pass.More? ==> |got| < |pass.got| <= length && ServingFrom(c, p, resident, onDisk, offset, length, pass.got)
    ensures pass.Stop? ==> Read(Only(c, p, resident), p, offset, length) == pass.result
    ensures pass.Stop? && !pass.result.Ok? ==> !Read(Only(c, p, onDisk), p, offset, length).Ok?
  {
    OnlyMonotone(c, p, onDisk, resident);
    ServePass(Only(c, p, resident), Only(c, p, onDisk), c, p, offset, length, got, Page(c, p, PageIndex(o, p)), pass);
  }

  lemma ServeNotFound(c: Bytes, p: PageSize, resident: iset<int>, onDisk: iset<int>, offset: int, length: int,
                      got: Bytes, o: int)
    requires ServingFrom(c, p, resident, onDisk, offset, length, got) && |got| < length
    requires o == offset + |got| && PageIndex(o, p) !in onDisk
    ensures !Read(Only(c, p, onDisk), p, offset, length).Ok?
    ensures PageIndex(o, p) !in resident ==> Read(Only(c, p, resident), p, offset, length) == NotFound
  {
    ServeMissing(Only(c, p, resident), Only(c, p, onDisk), p, offset, length, got);
  }

  /** Every page of `hash` is on disk. */
  ghost predicate AllOnDisk(objects: Objects, p: PageSize, disk: Disk, hash: string) {
    forall i :: HasPage(Content(objects, hash), p, i) ==> (hash, ChunkKey(hash, i)) in disk
  }

  ghost predicate AllInMemory(objects: Objects, p: PageSize, mem: Memory, hash: string) {
    forall i :: HasPage(Content(objects, hash), p, i) ==> ChunkKey(hash, i) in mem
  }

  ghost predicate PagesOnDisk(disk: Disk, hash: string, count: nat) {
    forall i :: 0 <= i < count ==> (hash, ChunkKey(hash, i)) in disk
  }

  ghost predicate PagesInMemory(mem: Memory, hash: string, count: nat) {
    forall i :: 0 <= i < count ==> ChunkKey(hash, i) in mem
  }

  lemma AllPages(objects: Objects, p: PageSize, hash: string)
    ensures forall disk :: PagesOnDisk(disk, hash, PageCount(|Content(objects, hash)|, p)) ==>
              AllOnDisk(objects, p, disk, hash)
    ensures forall mem :: PagesInMemory(mem, hash, PageCount(|Content(objects, hash)|, p)) ==>
              AllInMemory(objects, p, mem, hash)
  {
    forall i: int ensures HasPage(Content(objects, hash), p, i) ==> 0 <= i < PageCount(|Content(objects, hash)|, p) {
      HasPageIffCounted(Content(objects, hash), p, i);
    }
  }

  /** The disk kept every file and gained only files of `hash`. */
  ghost predicate Gained(before: Disk, now: Disk, hash: string) {
    && (forall f :: f in before ==> f in now && now[f] == before[f])
    && (forall dir, file :: (dir, file) in now && (dir, file) !in before ==> dir == hash)
  }

  lemma NextOnDisk(before: Disk, now: Disk, hash: string, k: nat)
    requires Gained(before, now, hash) && PagesOnDisk(before, hash, k) && (hash, ChunkKey(hash, k)) in now
    ensures PagesOnDisk(now, hash, k + 1)
  {
  }

  lemma NextInMemory(before: Memory, now: Memory, hash: string, k: nat)
    requires before.Keys <= now.Keys && PagesInMemory(before, hash, k) && ChunkKey(hash, k) in now
    ensures PagesInMemory(now, hash, k + 1)
  {
  }

  lemma AllOnDiskView(objects: Objects, p: PageSize, disk: Disk, hash: string)
    requires AllOnDisk(objects, p, disk, hash)
    ensures Only(Content(objects, hash), p, DiskResident(disk, hash)) == PagesOf(Content(objects, hash), p)
  {
  }

  // ---- lookups -----------------------------------------------------------

  /** Under a page key memory holds only that page, for any requested hash and index; so reading the
      entry as a page cannot fail. */
  lemma PageInMemory(objects: Objects, p: PageSize, mem: Memory, hash: string, idx: int)
    requires GoodMemory(objects, p, mem) && ChunkKey(hash, idx) in mem
    ensures hash in objects && HasPage(objects[hash], p, idx)
    ensures mem[ChunkKey(hash, idx)] == PageValue(hash, Page(objects[hash], p, idx))
  {
    var key := ChunkKey(hash, idx);
    match mem[key]
    case IndexValue(_) =>
      ChunkKeyIsNotHash(hash, idx, key);
    case PageValue(h, content) =>
      var i :| HasPage(objects[h], p, i) && key == ChunkKey(h, i) && content == Page(objects[h], p, i);
      ChunkKeyInjective(h, i, hash, idx);
  }

  lemma PageOnDisk(objects: Objects, p: PageSize, disk: Disk, hash: string, idx: int)
    requires GoodDisk(objects, p, disk) && (hash, ChunkKey(hash, idx)) in disk
    ensures hash in objects && HasPage(objects[hash], p, idx)
    ensures disk[(hash, ChunkKey(hash, idx))] == Page(objects[hash], p, idx)
  {
    var key := ChunkKey(hash, idx);
    var i :| HasPage(objects[hash], p, i) && key == ChunkKey(hash, i) && disk[(hash, key)] == Page(objects[hash], p, i);
    ChunkKeyInjective(hash, i, hash, idx);
  }

  /** Under a bare hash memory holds only that object's index string. */
  lemma IndexInMemory(objects: Objects, p: PageSize, mem: Memory, hash: string)
    requires GoodMemory(objects, p, mem) && hash in mem && hash in objects
    ensures mem[hash] == IndexValue(IndexString(hash, PageCount(|objects[hash]|, p)))
  {
    forall h, i: int ensures ChunkKey(h, i) != hash {
      ChunkKeyIsNotHash(h, i, hash);
    }
  }

  // ---- the eviction cascade ------------------------------------------------

  /** The keys that `onEvict` deletes after `value` left the cache. The destructor on the index entry is
      the code's unchecked type assertion. */
  function Cascade(mem: Memory, value: Value): seq<string>
    requires value.PageValue? && value.hash in mem ==> mem[value.hash].IndexValue?
  {
    match value
    case PageValue(hash, _) => if hash in mem then Text.Split(mem[hash].keys, ',') else []
    case IndexValue(keys) => Text.Split(keys, ',')
  }

  function KeySet(keys: seq<string>): set<string> {
    set k | k in keys
  }

  lemma KeySetNext(keys: seq<string>, i: nat)
    requires i < |keys|
    ensures KeySet(keys[..i + 1]) == KeySet(keys[..i]) + {keys[i]}
  {
    assert keys[..i + 1] == keys[..i] + [keys[i]];
  }

  /** `now` holds nothing that `before` does not. */
  ghost predicate Within(now: Memory, before: Memory) {
    forall k :: k in now ==> k in before && now[k] == before[k]
  }

  /** The object that a cached value belongs to. */
  function Owner(key: string, value: Value): string {
    match value
    case PageValue(hash, _) => hash
    case IndexValue(_) => key
  }

  /** Splitting the index string gives back the page keys; that of an empty object gives one empty key. */
  lemma IndexSplit(hash: string, c: Bytes, p: PageSize)
    requires WellFormed(hash)
    ensures Text.Split(IndexString(hash, PageCount(|c|, p)), ',') == if c == [] then [""]
              else ChunkKeys(hash, PageCount(|c|, p))
  {
    if c != [] {
      RoundUpBounds(|c|, p);
      IndexRoundTrip(hash, PageCount(|c|, p));
    } else {
      CountedAll([], p, 0);
    }
  }

  /** The cascade of a non-empty object is exactly its full page-key list when the index was evicted, or a
      page was evicted while the index is present; otherwise nothing. That of an empty object is the empty key. */
  lemma CascadeExact(objects: Objects, p: PageSize, mem: Memory, key: string, value: Value)
    requires GoodMemory(objects, p, mem) && GoodEntry(objects, p, key, value)
    ensures value.PageValue? && value.hash in mem ==> mem[value.hash].IndexValue?
    ensures var hash := Owner(key, value);
            && hash in objects
            && (objects[hash] != [] ==>
                  Cascade(mem, value) == if value.IndexValue? || hash in mem
                                         then ChunkKeys(hash, PageCount(|objects[hash]|, p)) else [])
            && (objects[hash] == [] ==> Cascade(mem, value) == [""])
  {
    var hash := Owner(key, value);
    if hash in mem {
      IndexInMemory(objects, p, mem, hash);
    }
    IndexSplit(hash, objects[hash], p);
  }

  /** What memory holds after `key` left it and the callback ran. */
  function AfterEviction(mem: Memory, key: string): Memory
    requires key in mem
    requires mem[key].PageValue? && mem[key].hash in mem - {key} ==> (mem - {key})[mem[key].hash].IndexValue?
  {
    mem - {key} - KeySet(Cascade(mem - {key}, mem[key]))
  }

  /** Evicting the index of an object, or one of its pages while the index is present, removes all of the object's
      pages from memory; a page alone goes alone. The index entry stays when a page was evicted, and no entry
      of any other object is touched. */
  ghost predicate EvictedExactly(mem: Memory, after: Memory, key: string)
    requires key in mem
  {
    var hash := Owner(key, mem[key]);
    && key !in after
    && (hash in mem ==> forall i: int :: ChunkKey(hash, i) !in after)
    && (hash !in mem ==> after == mem - {key})
    && (mem[key].PageValue? && hash in mem ==> hash in after)
    && (forall k :: k in mem && Owner(k, mem[k]) != hash ==> k in after && after[k] == mem[k])
  }

  /** The listed page keys hold all of the object's entries but the index, and nothing else. */
  lemma PageKeysOwned(objects: Objects, p: PageSize, mem: Memory, hash: string)
    requires GoodMemory(objects, p, mem) && hash in objects
    ensures var keys := ChunkKeys(hash, PageCount(|objects[hash]|, p));
            && (forall i: int :: ChunkKey(hash, i) in mem ==> ChunkKey(hash, i) in keys)
            && (forall k :: k in mem && k in keys ==> Owner(k, mem[k]) == hash && k != hash)
  {
    var keys := ChunkKeys(hash, PageCount(|objects[hash]|, p));
    forall i: int | ChunkKey(hash, i) in mem ensures ChunkKey(hash, i) in keys {
      PageInMemory(objects, p, mem, hash, i);
      HasPageIffCounted(objects[hash], p, i);
      assert keys[i] == ChunkKey(hash, i);
    }
    forall k | k in mem && k in keys ensures Owner(k, mem[k]) == hash && k != hash {
      var i :| 0 <= i < |keys| && keys[i] == k;
      PageInMemory(objects, p, mem, hash, i);
      ChunkKeyIsNotHash(hash, i, hash);
    }
  }

  lemma NoEmptyKey(objects: Objects, p: PageSize, mem: Memory)
    requires GoodMemory(objects, p, mem)
    ensures "" !in mem
  {
    forall h, i: int ensures |ChunkKey(h, i)| > 0 {
    }
  }

  lemma EvictionExact(objects: Objects, p: PageSize, mem: Memory, key: string)
    requires GoodMemory(objects, p, mem) && key in mem
    ensures mem[key].PageValue? && mem[key].hash in mem - {key} ==> (mem - {key})[mem[key].hash].IndexValue?
    ensures EvictedExactly(mem, AfterEviction(mem, key), key)
  {
    var value, rest := mem[key], mem - {key};
    CascadeExact(objects, p, rest, key, value);
    PageKeysOwned(objects, p, mem, Owner(key, value));
    NoEmptyKey(objects, p, mem);
    CountedAll([], p, 0);
    forall i: int ensures ChunkKey(Owner(key, value), i) != Owner(key, value) {
      ChunkKeyIsNotHash(Owner(key, value), i, Owner(key, value));
    }
    RemovalExact(mem, key, Cascade(rest, value));
  }

  lemma RemovalExact(mem: Memory, key: string, keys: seq<string>)
    requires key in mem && (mem[key].PageValue? ==> Owner(key, mem[key]) != key)
    requires var hash := Owner(key, mem[key]);
             if hash !in mem then keys == []
             else && (forall i: int :: ChunkKey(hash, i) in mem ==> ChunkKey(hash, i) in keys)
                  && (forall k :: k in mem && k in keys ==> Owner(k, mem[k]) == hash && k != hash)
    ensures EvictedExactly(mem, mem - {key} - KeySet(keys), key)
  {
  }
}
