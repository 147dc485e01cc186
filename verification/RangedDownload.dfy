/** The parallel ranged download: the byte ranges, the tasks under their semaphore, and the reassembly. */
module RangedDownload {
  import opened Paging

  // ---- the ranges ---------------------------------------------------------------

  /** First and last byte of range `i`, both inclusive as in the Range header. */
  function RangeStart(i: int, chunkSize: PageSize): int {
    i * chunkSize
  }

  function RangeEnd(i: int, chunkSize: PageSize, size: nat): int {
    if RangeStart(i, chunkSize) + chunkSize - 1 >= size then size - 1 else RangeStart(i, chunkSize) + chunkSize - 1
  }

  /** The bytes of `object` in range `i`. */
  ghost predicate InRange(object_: Bytes, chunkSize: PageSize, i: int, bytes: Bytes) {
    && 0 <= RangeStart(i, chunkSize) <= RangeEnd(i, chunkSize, |object_|) < |object_|
    && bytes == object_[RangeStart(i, chunkSize)..RangeEnd(i, chunkSize, |object_|) + 1]
  }

  /** The ranges tile the object: each is non-empty and within it, they follow one another without gap or overlap
      from the first byte to the last, and range `i` is page `i` of the object. */
  lemma RangesTile(object_: Bytes, chunkSize: PageSize, i: int)
    requires 0 <= i < PageCount(|object_|, chunkSize)
    ensures HasPage(object_, chunkSize, i) && InRange(object_, chunkSize, i, Page(object_, chunkSize, i))
    ensures RangeStart(0, chunkSize) == 0
    ensures if i + 1 < PageCount(|object_|, chunkSize)
            then RangeEnd(i, chunkSize, |object_|) + 1 == RangeStart(i + 1, chunkSize)
            else RangeEnd(i, chunkSize, |object_|) == |object_| - 1
  {
    HasPageIffCounted(object_, chunkSize, i);
    HasPageIffCounted(object_, chunkSize, i + 1);
    MulNext(i, chunkSize);
  }

  lemma PrefixNext(c: Bytes, p: PageSize, k: nat)
    requires HasPage(c, p, k)
    ensures c[..Min((k + 1) * p, |c|)] == c[..k * p] + Page(c, p, k)
  {
    MulNext(k, p);
  }

  lemma FirstPagesNext(c: Bytes, p: PageSize, k: nat)
    requires forall i :: 0 <= i <= k ==> HasPage(c, p, i)
    ensures FirstPages(c, p, k + 1) == FirstPages(c, p, k) + [Page(c, p, k)]
    ensures Flat(FirstPages(c, p, k + 1)) == Flat(FirstPages(c, p, k)) + Page(c, p, k)
  {
    assert FirstPages(c, p, k + 1) == FirstPages(c, p, k) + [Page(c, p, k)];
    FlatNext(FirstPages(c, p, k), Page(c, p, k));
  }

  lemma {:induction false} FirstPagesFlat(c: Bytes, p: PageSize, k: nat)
    requires k <= PageCount(|c|, p)
    ensures forall i :: 0 <= i < k ==> HasPage(c, p, i)
    ensures Flat(FirstPages(c, p, k)) == c[..Min(k * p, |c|)]
  {
    if k > 0 {
      FirstPagesFlat(c, p, k - 1);
      HasPageIffCounted(c, p, k - 1);
      FirstPagesNext(c, p, k - 1);
      PrefixNext(c, p, k - 1);
    }
  }

  /** The ranges in order make up the object. */
  lemma PagesFlat(c: Bytes, p: PageSize)
    ensures forall i :: 0 <= i < PageCount(|c|, p) ==> HasPage(c, p, i)
    ensures Flat(FirstPages(c, p, PageCount(|c|, p))) == c
  {
    FirstPagesFlat(c, p, PageCount(|c|, p));
    RoundUpBounds(|c|, p);
    assert c[..|c|] == c;
  }

  // ---- the reassembly -------------------------------------------------------------

  /** What one task sends: its range's bytes, or an error and no bytes. */
  datatype ChunkResult = ChunkResult(index: nat, data: Bytes, failed: bool)

  /** The slot of range `i` after the results have been collected in order. */
  function Chunk(results: seq<ChunkResult>, i: nat): Bytes {
    if results == [] then []
    else
      var last := results[|results| - 1];
      if last.index == i then last.data else Chunk(results[..|results| - 1], i)
  }

  function Gathered(results: seq<ChunkResult>, count: nat): seq<Bytes> {
    seq(count, i requires 0 <= i < count => Chunk(results, i))
  }

  predicate AnyFailed(results: seq<ChunkResult>) {
    exists k :: 0 <= k < |results| && results[k].failed
  }

  /** One more result overwrites its slot, and fails the download if it failed. */
  lemma GatheredNext(results: seq<ChunkResult>, k: nat, count: nat)
    requires k < |results| && results[k].index < count
    ensures Gathered(results[..k + 1], count) == Gathered(results[..k], count)[results[k].index := results[k].data]
    ensures AnyFailed(results[..k + 1]) <==> AnyFailed(results[..k]) || results[k].failed
  {
    assert results[..k + 1][..k] == results[..k];
    assert results[..k + 1] == results[..k] + [results[k]];
  }

  class Buffer {
    var contents: Bytes

    constructor (contents: Bytes)
      ensures this.contents == contents
    {
      this.contents := contents;
    }
  }

  /** Collects the results of the range requests in their order of arrival and writes the chunks to the buffer. */
  method DownloadIntoBuffer(headOk: bool, size: int, chunkSize: PageSize, arrivals: seq<ChunkResult>, buffer: Buffer)
    returns (ok: bool)
    requires size > 0 ==> forall k :: 0 <= k < |arrivals| ==> arrivals[k].index < PageCount(size, chunkSize)
    modifies buffer
    ensures ok <==> headOk && size > 0 && !AnyFailed(arrivals)
    ensures !ok ==> buffer.contents == old(buffer.contents)
    ensures ok ==> buffer.contents == Flat(Gathered(arrivals, PageCount(size, chunkSize)))
  {
    if !headOk || size <= 0 {
      return false;
    }
    var numChunks := PageCount(size, chunkSize);
    var chunks := new Bytes[numChunks](_ => []);
    var errs := 0;
    for k := 0 to |arrivals|
      invariant chunks.Length == numChunks && chunks[..] == Gathered(arrivals[..k], numChunks)
      invariant errs > 0 <==> AnyFailed(arrivals[..k])
      invariant buffer.contents == old(buffer.contents)
    {
      var res := arrivals[k];
      if res.failed {
        errs := errs + 1;
      }
      chunks[res.index] := res.data;
      GatheredNext(arrivals, k, numChunks);
    }
    assert arrivals[..|arrivals|] == arrivals;
    if errs > 0 {
      return false;
    }
    buffer.contents := [];
    for i := 0 to numChunks
      invariant chunks[..] == Gathered(arrivals, numChunks)
      invariant buffer.contents == Flat(chunks[..i])
    {
      assert chunks[..i + 1] == chunks[..i] + [chunks[i]];
      FlatNext(chunks[..i], chunks[i]);
      buffer.contents := buffer.contents + chunks[i];
    }
    assert chunks[..numChunks] == chunks[..];
    ok := true;
  }

  ghost function Indices(results: seq<ChunkResult>): set<nat> {
    set k | 0 <= k < |results| :: results[k].index
  }

  ghost function UpTo(count: nat): (s: set<nat>)
    ensures |s| == count && forall i: nat :: i in s <==> i < count
  {
    if count == 0 then {} else UpTo(count - 1) + {count - 1}
  }

  ghost predicate Distinct(results: seq<ChunkResult>) {
    forall k, l :: 0 <= k < l < |results| ==> results[k].index != results[l].index
  }

  /** Every range has exactly one result among `results`. */
  ghost predicate Complete(results: seq<ChunkResult>, count: nat) {
    Distinct(results) && Indices(results) == UpTo(count)
  }

  lemma {:induction false} ChunkAt(results: seq<ChunkResult>, k: nat)
    requires Distinct(results) && k < |results|
    ensures Chunk(results, results[k].index) == results[k].data
  {
    if k < |results| - 1 {
      ChunkAt(results[..|results| - 1], k);
    }
  }

  /** The result is no longer than its range, which is all that is read of a reply. */
  ghost predicate FitsRange(object_: Bytes, chunkSize: PageSize, r: ChunkResult) {
    HasPage(object_, chunkSize, r.index) && |r.data| <= |Page(object_, chunkSize, r.index)|
  }

  /** The result is a prefix of its range, or all of it. */
  ghost predicate PrefixOfRange(object_: Bytes, chunkSize: PageSize, r: ChunkResult) {
    HasPage(object_, chunkSize, r.index) && r.data <= Page(object_, chunkSize, r.index)
  }

  ghost predicate WholeRange(object_: Bytes, chunkSize: PageSize, r: ChunkResult) {
    HasPage(object_, chunkSize, r.index) && r.data == Page(object_, chunkSize, r.index)
  }

  lemma GatheredAt(results: seq<ChunkResult>, count: nat, i: nat) returns (k: nat)
    requires Complete(results, count) && i < count
    ensures k < |results| && results[k].index == i && Gathered(results, count)[i] == results[k].data
  {
    assert i in Indices(results);
    k :| 0 <= k < |results| && results[k].index == i;
    ChunkAt(results, k);
  }

  /** Whatever the order of arrival and whatever the replies hold, the chunks make up the object if and only if every
      result is the whole of its range. */
  lemma ReassemblyExact(object_: Bytes, chunkSize: PageSize, results: seq<ChunkResult>)
    requires Complete(results, PageCount(|object_|, chunkSize))
    requires forall k :: 0 <= k < |results| ==> FitsRange(object_, chunkSize, results[k])
    ensures Flat(Gathered(results, PageCount(|object_|, chunkSize))) == object_
            <==> forall k :: 0 <= k < |results| ==> WholeRange(object_, chunkSize, results[k])
  {
    var count := PageCount(|object_|, chunkSize);
    PagesFlat(object_, chunkSize);
    var parts, pages := Gathered(results, count), FirstPages(object_, chunkSize, count);
    forall i | 0 <= i < count ensures |parts[i]| <= |pages[i]| {
      var k := GatheredAt(results, count, i);
      assert FitsRange(object_, chunkSize, results[k]);
    }
    FlatOfShort(parts, pages);
    if parts == pages {
      forall k | 0 <= k < |results| ensures WholeRange(object_, chunkSize, results[k]) {
        assert results[k].index in Indices(results);
        ChunkAt(results, k);
        assert parts[results[k].index] == results[k].data;
      }
    }
    if forall k :: 0 <= k < |results| ==> WholeRange(object_, chunkSize, results[k]) {
      forall i | 0 <= i < count ensures parts[i] == pages[i] {
        var k := GatheredAt(results, count, i);
        assert WholeRange(object_, chunkSize, results[k]);
      }
      assert parts == pages;
    }
  }

  /** When replies are at worst cut short, comparing lengths tells: the chunks make up the object if and only if they
      are as long as it is. */
  lemma ReassemblyLength(object_: Bytes, chunkSize: PageSize, results: seq<ChunkResult>)
    requires Complete(results, PageCount(|object_|, chunkSize))
    requires forall k :: 0 <= k < |results| ==> PrefixOfRange(object_, chunkSize, results[k])
    ensures Flat(Gathered(results, PageCount(|object_|, chunkSize))) == object_
            <==> |Flat(Gathered(results, PageCount(|object_|, chunkSize)))| == |object_|
  {
    var count := PageCount(|object_|, chunkSize);
    PagesFlat(object_, chunkSize);
    var parts, pages := Gathered(results, count), FirstPages(object_, chunkSize, count);
    forall i | 0 <= i < count ensures parts[i] <= pages[i] {
      var k := GatheredAt(results, count, i);
      assert PrefixOfRange(object_, chunkSize, results[k]);
    }
    FlatOfShort(parts, pages);
    if |Flat(parts)| == |object_| {
      forall i | 0 <= i < count ensures parts[i] == pages[i] {
        assert parts[i] == pages[i][..|parts[i]|] && |parts[i]| == |pages[i]|;
      }
      assert parts == pages;
    }
  }

  /** Of lists of parts that are no longer than their counterparts: the concatenation is no longer, it is as long only
      when every part is, and it is the same only when every part is. */
  lemma {:induction false} FlatOfShort(parts: seq<Bytes>, pages: seq<Bytes>)
    requires |parts| == |pages| && forall i :: 0 <= i < |parts| ==> |parts[i]| <= |pages[i]|
    ensures |Flat(parts)| <= |Flat(pages)|
    ensures |Flat(parts)| == |Flat(pages)| ==> forall i :: 0 <= i < |parts| ==> |parts[i]| == |pages[i]|
    ensures Flat(parts) == Flat(pages) ==> parts == pages
  {
    if parts != [] {
      var n := |parts| - 1;
      var a, b := Flat(parts[..n]), Flat(pages[..n]);
      FlatOfShort(parts[..n], pages[..n]);
      assert parts == parts[..n] + [parts[n]] && pages == pages[..n] + [pages[n]];
      if Flat(parts) == Flat(pages) {
        assert |a| == |b| && a == Flat(parts)[..|a|] && parts[n] == Flat(parts)[|a|..];
        assert b == Flat(pages)[..|b|] && pages[n] == Flat(pages)[|b|..];
      }
    }
  }
}
