/** The server's content calls: the unary read, the streamed read and the upload. */
module Serving {
  import opened Paging
  import opened StoreState
  import opened Storage

  datatype ContentResponse = Found(content: Bytes) | Absent | Panicked
  datatype StreamStatus = Ended | ContentMissing | SendFailed
  datatype StoreResponse = Stored(hash: string) | ReceiveFailed | StoreFailed(error: AddError)

  /** What a stream may have sent at any moment: a prefix of the requested bytes. */
  ghost predicate SentSoFar(c: Bytes, offset: nat, length: int, sent: Bytes) {
    sent == [] || (offset + |sent| <= |c| && |sent| <= length && sent == c[offset..offset + |sent|])
  }

  lemma SentMore(c: Bytes, offset: nat, length: int, sent: Bytes, first: int)
    requires SentSoFar(c, offset, length, sent) && 0 < first <= length - |sent|
    ensures SentSoFar(c, offset, length, sent + Slice(c, offset + |sent|, first))
  {
  }

  /** A step that gives less than it asked for has reached the end of what was requested. */
  lemma SentAll(c: Bytes, offset: nat, length: int, sent: Bytes, first: int)
    requires SentSoFar(c, offset, length, sent) && 0 < first <= length - |sent|
               && |Slice(c, offset + |sent|, first)| < first
    ensures sent + Slice(c, offset + |sent|, first) == Slice(c, offset, length)
  {
  }

  /** One step of the stream, for a `Get` that read the view `now`, as seen from a view `w` of which it is
      known that the step or the whole read succeeds. */
  lemma ViewStep(w: View, now: View, p: PageSize, offset: int, length: int, got: Bytes, o: int, first: int,
                 missed: bool, bytes: Bytes)
    requires o == offset + |got| && Bounded(now, p) && SubView(w, now) && (w == now || Read(w, p, offset, length).Ok?)
    requires Tracks(w, p, offset, length, got) && 0 < first <= length - |got|
    requires !missed ==> Read(now, p, o, first) == Ok(bytes) && |bytes| <= first
    requires missed ==> !Read(w, p, o, first).Ok?
    ensures missed ==> !Read(w, p, offset, length).Ok?
    ensures !missed ==> StepDone(w, p, offset, length, got + bytes, |bytes| < first)
  {
    var step := Read(w, p, o, first);
    StepTracks(w, p, offset, length, got, first, step);
    if !missed && step.Ok? {
      ReadMonotone(w, now, p, o, first);
    }
  }

  lemma ContentStep(now: View, c: Bytes, p: PageSize, offset: nat, length: int, got: Bytes, o: int, first: int,
                    bytes: Bytes)
    requires o == offset + |got| && SubView(now, PagesOf(c, p)) && SentSoFar(c, offset, length, got)
               && 0 < first <= length - |got|
    requires Read(now, p, o, first) == Ok(bytes)
    ensures SentSoFar(c, offset, length, got + bytes)
    ensures |bytes| < first ==> got + bytes == Slice(c, offset, length)
  {
    ReadSound(now, c, p, o, first);
    SentStep(c, offset, length, got, first, bytes);
  }

  lemma SentStep(c: Bytes, offset: nat, length: int, got: Bytes, first: int, bytes: Bytes)
    requires SentSoFar(c, offset, length, got) && 0 < first <= length - |got|
               && bytes == Slice(c, offset + |got|, first)
    ensures SentSoFar(c, offset, length, got + bytes)
    ensures |bytes| < first ==> got + bytes == Slice(c, offset, length)
  {
    SentMore(c, offset, length, got, first);
    if |bytes| < first {
      SentAll(c, offset, length, got, first);
    }
  }

  ghost predicate StepDone(v: View, p: PageSize, offset: int, length: int, got: Bytes, short: bool) {
    if short then Read(v, p, offset, length) == Ok(got) else Tracks(v, p, offset, length, got)
  }

  lemma BoundedBelow(v: View, c: Bytes, p: PageSize)
    requires SubView(v, PagesOf(c, p))
    ensures Bounded(v, p)
  {
  }

  /** A stream in progress that has sent `got`: `v` is what was resident at the start, `dv` what cannot go missing. */
  ghost predicate Streaming(fixed: bool, v: View, dv: View, c: Bytes, p: PageSize, offset: int, length: int,
                            got: Bytes) {
    && (offset < 0 ==> got == [])
    && (offset >= 0 ==> SentSoFar(c, offset, length, got))
    && (fixed ==> Tracks(v, p, offset, length, got))
    && (Read(dv, p, offset, length).Ok? ==> Tracks(dv, p, offset, length, got))
  }

  /** What the end of a stream that has sent `got` promises. At any end that is a prefix of the requested bytes, and
      all of them unless it failed. On a fixed set of resident pages the stream refines one read of the whole range;
      and whatever memory loses, it serves what readable files alone can serve. */
  ghost predicate StreamOutcome(fixed: bool, v: View, dv: View, c: Bytes, p: PageSize, offset: int, length: int,
                                got: Bytes, status: StreamStatus)
  {
    && (offset >= 0 ==> SentSoFar(c, offset, length, got))
    && (offset >= 0 && status.Ended? ==> got == Slice(c, offset, length))
    && (fixed && status.Ended? ==> Read(v, p, offset, length) == Ok(got))
    && (fixed && status.ContentMissing? ==> !Read(v, p, offset, length).Ok?)
    && (Read(dv, p, offset, length).Ok? ==> !status.ContentMissing?)
    && (Read(dv, p, offset, length).Ok? && status.Ended? ==> Read(dv, p, offset, length) == Ok(got))
  }

  /** One step of the stream, for a `Get` of `first` bytes at `o` that read the view `now`. */
  lemma StreamStep(fixed: bool, v: View, dv: View, now: View, c: Bytes, p: PageSize, offset: int, length: int,
                   got: Bytes, o: int, first: int, missed: bool, bytes: Bytes)
    requires Streaming(fixed, v, dv, c, p, offset, length, got) && o == offset + |got| && 0 < first <= length - |got|
    requires SubView(dv, now) && SubView(now, PagesOf(c, p)) && (fixed ==> now == v)
    requires !missed ==> Read(now, p, o, first) == Ok(bytes) && |bytes| <= first
    requires missed ==> !Read(dv, p, o, first).Ok? && (fixed ==> !Read(now, p, o, first).Ok?)
    ensures StreamOutcome(fixed, v, dv, c, p, offset, length, got, SendFailed)
    ensures missed ==> StreamOutcome(fixed, v, dv, c, p, offset, length, got, ContentMissing)
    ensures !missed && |bytes| < first ==> StreamOutcome(fixed, v, dv, c, p, offset, length, got + bytes, Ended)
    ensures !missed && |bytes| == first ==> Streaming(fixed, v, dv, c, p, offset, length, got + bytes)
  {
    BoundedBelow(now, c, p);
    if fixed {
      ViewStep(v, now, p, offset, length, got, o, first, missed, bytes);
    }
    if Read(dv, p, offset, length).Ok? {
      ViewStep(dv, now, p, offset, length, got, o, first, missed, bytes);
    }
    if offset >= 0 && !missed {
      ContentStep(now, c, p, offset, length, got, o, first, bytes);
    }
  }

  lemma StreamDone(fixed: bool, v: View, dv: View, c: Bytes, p: PageSize, offset: int, length: int, got: Bytes)
    requires Streaming(fixed, v, dv, c, p, offset, length, got) && |got| >= length
    ensures StreamOutcome(fixed, v, dv, c, p, offset, length, got, Ended)
  {
    if fixed {
      TracksDone(v, p, offset, length, got);
    }
    if Read(dv, p, offset, length).Ok? {
      TracksDone(dv, p, offset, length, got);
    }
  }

  /** A stream of the whole object that ended gave the object; it misses nothing that cannot go missing. */
  lemma WholeStream(fixed: bool, v: View, dv: View, c: Bytes, p: PageSize, got: Bytes, status: StreamStatus)
    requires StreamOutcome(fixed, v, dv, c, p, 0, |c|, got, status)
    ensures status.Ended? ==> got == c
    ensures dv == PagesOf(c, p) ==> !status.ContentMissing?
  {
    ExactRead(c, p, 0, |c|);
    RoundUpBounds(|c|, p);
    assert Slice(c, 0, |c|) == c;
  }

  /** Every message has at least one byte and at most `most`. */
  ghost predicate Messages(sent: seq<Bytes>, most: nat) {
    forall m :: m in sent ==> 0 < |m| <= most
  }

  lemma MessagesNext(sent: seq<Bytes>, m: Bytes, most: nat)
    requires Messages(sent, most) && 0 < |m| <= most
    ensures Messages(sent + [m], most) && Flat(sent + [m]) == Flat(sent) + m
  {
    FlatNext(sent, m);
  }

  class CacheService {
    const cas: ContentAddressableStorage
    const streamChunkSize: PageSize
    const hashOf: Bytes -> string

    constructor (cas: ContentAddressableStorage, streamChunkSize: PageSize, hashOf: Bytes -> string)
      ensures this.cas == cas && this.streamChunkSize == streamChunkSize && this.hashOf == hashOf
    {
      this.cas, this.streamChunkSize, this.hashOf := cas, streamChunkSize, hashOf;
    }

    /** The catalogue holds `content` under its hash. */
    ghost predicate Catalogued(content: Bytes) {
      hashOf(content) in cas.objects && cas.objects[hashOf(content)] == content
    }

    /** The unary read. The buffer for a negative length cannot be made. */
    method GetContent(hash: string, offset: int, length: int) returns (r: ContentResponse)
      requires cas.Valid()
      modifies cas`mem
      ensures cas.Valid()
      ensures r.Panicked? <==> length < 0
      ensures r.Found? && offset >= 0 ==> r.content == Slice(Content(cas.objects, hash), offset, length)
      ensures r.Found? && length > 0 ==> offset >= 0 && hash in cas.objects
      // what must have been resident for an answer with content, and what suffices
      ensures r.Found? && offset >= 0 ==>
                old(Readable(cas.View(hash), Content(cas.objects, hash), cas.pageSize, offset, length))
      ensures r.Absent? && offset >= 0 ==>
                !old(Readable(cas.CertainView(hash), Content(cas.objects, hash), cas.pageSize, offset, length))
      ensures cas.readable && AllOnDisk(cas.objects, cas.pageSize, cas.disk, hash) && offset >= 0 && length >= 0 ==>
                (r.Found? <==> !OutOfReach(|Content(cas.objects, hash)|, cas.pageSize, offset, length))
    {
      if length < 0 {
        return Panicked;
      }
      var dst := new Byte[length];
      ghost var v, dv, c, p := cas.View(hash), cas.CertainView(hash), Content(cas.objects, hash), cas.pageSize;
      var got := cas.Get(hash, offset, length, dst);
      if offset >= 0 {
        if got.Got? {
          ReadSound(v, c, p, offset, length);
        } else if cas.readable && AllOnDisk(cas.objects, p, cas.disk, hash) {
          AllOnDiskView(cas.objects, p, cas.disk, hash);
          ExactRead(c, p, offset, length);
        }
      }
      return if got.Missed? then Absent else Found(dst[..got.n]);
    }

    /** The `Get` of one stream step, and what it means for the stream. */
    method NextChunk(hash: string, o: int, first: int, dst: array<Byte>, ghost v: View, ghost offset: int,
                     ghost length: int, ghost got: Bytes) returns (r: GetResult)
      requires cas.Valid() && 0 < first <= length - |got| && first <= dst.Length && o == offset + |got|
      requires cas.Fixed() ==> cas.View(hash) == v
      requires Streaming(cas.Fixed(), v, cas.CertainView(hash), Content(cas.objects, hash), cas.pageSize, offset,
                 length, got)
      modifies cas`mem, dst
      ensures cas.Valid() && (cas.Fixed() ==> cas.View(hash) == v) && (r.Got? ==> r.n <= first)
      ensures var dv, c, p := cas.CertainView(hash), Content(cas.objects, hash), cas.pageSize;
              && StreamOutcome(cas.Fixed(), v, dv, c, p, offset, length, got, SendFailed)
              && (r.Missed? ==> StreamOutcome(cas.Fixed(), v, dv, c, p, offset, length, got, ContentMissing))
              && (r == Got(0) ==> StreamOutcome(cas.Fixed(), v, dv, c, p, offset, length, got, Ended))
              && (r.Got? && r.n < first ==>
                StreamOutcome(cas.Fixed(), v, dv, c, p, offset, length, got + dst[..r.n], Ended))
              && (r.Got? && r.n == first ==> Streaming(cas.Fixed(), v, dv, c, p, offset, length, got + dst[..r.n]))
    {
      ghost var now, dv, c, p := cas.View(hash), cas.CertainView(hash), Content(cas.objects, hash), cas.pageSize;
      OnlyMonotone(c, p, cas.Certain(hash), Resident(cas.mem, cas.disk, hash));
      r := cas.Get(hash, o, first, dst);
      StreamStep(cas.Fixed(), v, dv, now, c, p, offset, length, got, o, first, r.Missed?,
          dst[..if r.Got? then r.n else 0]);
      if r == Got(0) {
        assert got + dst[..0] == got;
      }
    }

    /** The streamed read: `Get` in steps of the stream chunk size, one message each. */
    method GetContentStream(hash: string, offset: int, length: int) returns (sent: seq<Bytes>, status: StreamStatus)
      requires cas.Valid()
      modifies cas`mem
      ensures cas.Valid()
      ensures Messages(sent, streamChunkSize)
      ensures StreamOutcome(cas.Fixed(), old(cas.View(hash)), old(cas.CertainView(hash)), Content(cas.objects, hash),
                cas.pageSize, offset, length, Flat(sent), status)
    {
      ghost var v, dv, c, p := cas.View(hash), cas.CertainView(hash), Content(cas.objects, hash), cas.pageSize;
      var o, remainingLength := offset, length;
      sent := [];
      ServeStart(v, dv, p, offset, length);
      var dst := new Byte[streamChunkSize];
      while remainingLength > 0
        invariant cas.Valid()
        invariant o == offset + |Flat(sent)| && remainingLength == length - |Flat(sent)|
        invariant Messages(sent, streamChunkSize)
        invariant cas.Fixed() ==> cas.View(hash) == v
        invariant Streaming(cas.Fixed(), v, dv, c, p, offset, length, Flat(sent))
      {
        var currentChunkSize := if remainingLength < streamChunkSize then remainingLength else streamChunkSize;
        var r := NextChunk(hash, o, currentChunkSize, dst, v, offset, length, Flat(sent));
        if r.Missed? {
          return sent, ContentMissing;
        }
        var n := r.n;
        if n == 0 {
          return sent, Ended;
        }
        var sendOk: bool := *;
        if !sendOk {
          return sent, SendFailed;
        }
        MessagesNext(sent, dst[..n], streamChunkSize);
        sent := sent + [dst[..n]];
        if n < currentChunkSize {
          return sent, Ended;
        }
        o, remainingLength := o + n, remainingLength - n;
      }
      StreamDone(cas.Fixed(), v, dv, c, p, offset, length, Flat(sent));
      status := Ended;
    }

    /** Hashes the buffer and adds it. */
    method Store(buffer: Bytes) returns (r: StoreResponse)
      requires cas.Valid() && Catalogued(buffer)
      modifies cas
      ensures cas.Valid() && cas.diskUsageExceeded == old(cas.diskUsageExceeded)
      ensures r.Stored? ==> r.hash == hashOf(buffer)
      ensures r.Stored? && !cas.diskUsageExceeded ==> AllOnDisk(cas.objects, cas.pageSize, cas.disk, r.hash)
    {
      var hash := hashOf(buffer);
      var added := cas.Add(hash, buffer);
      match added {
        case Added => r := Stored(hash);
        case Failed(error) => r := StoreFailed(error);
      }
    }

    /** The upload: collects the messages into one buffer and stores it. */
    method StoreContent(messages: seq<Bytes>) returns (r: StoreResponse)
      requires cas.Valid() && Catalogued(Flat(messages))
      modifies cas
      ensures cas.Valid() && cas.diskUsageExceeded == old(cas.diskUsageExceeded)
      ensures r.Stored? ==> r.hash == hashOf(Flat(messages))
      ensures r.Stored? && !cas.diskUsageExceeded ==> AllOnDisk(cas.objects, cas.pageSize, cas.disk, r.hash)
    {
      var buffer := [];
      for i := 0 to |messages|
        invariant buffer == Flat(messages[..i])
        invariant cas.Valid() && cas.diskUsageExceeded == old(cas.diskUsageExceeded)
      {
        var received: bool := *;
        if !received {
          return ReceiveFailed;
        }
        assert messages[..i + 1][..i] == messages[..i];
        buffer := buffer + messages[i];
      }
      assert messages[..|messages|] == messages;
      r := Store(buffer);
    }

    /** A client uploads messages and streams the object back: whatever memory lost meanwhile, a stream that ends
        gives the bytes it uploaded, however the upload was split, and with readable files none ends for missing
        content. */
    method UploadThenStream(messages: seq<Bytes>) returns (r: StoreResponse, sent: seq<Bytes>, status: StreamStatus)
      requires cas.Valid() && Catalogued(Flat(messages)) && !cas.diskUsageExceeded
      modifies cas
      ensures r.Stored? && status.Ended? ==> Flat(sent) == Flat(messages)
      ensures r.Stored? && cas.readable ==> !status.ContentMissing?
    {
      r := StoreContent(messages);
      sent, status := [], Ended;
      if r.Stored? {
        cas.EvictSome();
        ghost var c, p := Flat(messages), cas.pageSize;
        AllOnDiskView(cas.objects, p, cas.disk, r.hash);
        ghost var v, dv := cas.View(r.hash), cas.CertainView(r.hash);
        sent, status := GetContentStream(r.hash, 0, |Flat(messages)|);
        WholeStream(cas.Fixed(), v, dv, c, p, Flat(sent), status);
      }
    }
  }
}
