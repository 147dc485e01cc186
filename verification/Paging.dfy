/** Page arithmetic and the paged read: what one `Get` computes from a fixed set of resident pages. */
module Paging {

  type Byte = bv8
  type Bytes = seq<Byte>
  type PageSize = p: nat | p > 0 witness 1

  function Min(a: int, b: int): int {
    if a < b then a else b
  }

  function Max(a: int, b: int): int {
    if a < b then b else a
  }

  /** Go's `o / p`, truncating toward zero. */
  function PageIndex(o: int, p: PageSize): int {
    if o >= 0 then o / p else -((-o) / p)
  }

  /** Go's `o % p`, which takes the sign of `o`. */
  function PageStart(o: int, p: PageSize): int {
    if o >= 0 then o % p else -((-o) % p)
  }

  predicate HasPage(c: Bytes, p: PageSize, i: int) {
    0 <= i && i * p < |c|
  }

  function Page(c: Bytes, p: PageSize, i: int): (page: Bytes)
    requires HasPage(c, p, i)
    ensures 0 < |page| <= p
  {
    c[i * p..Min(i * p + p, |c|)]
  }

  /** The number of pages of `size` bytes. */
  function PageCount(size: nat, p: PageSize): nat {
    (size + p - 1) / p
  }

  function RoundUp(size: nat, p: PageSize): nat {
    PageCount(size, p) * p
  }

  /** A residency view of one object: the pages that a lookup finds, by index. */
  type View = imap<int, Bytes>

  ghost function PagesOf(c: Bytes, p: PageSize): View {
    imap i | HasPage(c, p, i) :: Page(c, p, i)
  }

  ghost predicate SubView(v: View, w: View) {
    forall i :: i in v ==> i in w && v[i] == w[i]
  }

  datatype ReadResult = Ok(bytes: Bytes) | NotFound | BadBounds
  {
    function Prepend(bs: Bytes): ReadResult {
      match this
      case Ok(rest) => Ok(bs + rest)
      case _ => this
    }
  }

  /** Page coordinates: byte `start` of page `i`. */
  datatype At = At(i: int, start: nat)
  {
    ghost predicate In(p: PageSize) {
      0 <= i && start < p
    }

    ghost function Offset(p: PageSize): int {
      i * p + start
    }

    /** `n` bytes further, at most to the end of the page. */
    function Advance(p: PageSize, n: nat): At {
      if start + n < p then At(i, start + n) else At(i + 1, 0)
    }
  }

  /** The coordinates `n` bytes after `at`, page by page. */
  function Seek(at: At, p: PageSize, n: nat): At
    decreases n, p - at.start
  {
    if at.start >= p || n < p - at.start then At(at.i, at.start + n)
    else Seek(At(at.i + 1, 0), p, n - (p - at.start))
  }

  /** Reading `rem` bytes from the given coordinates on, page after page. */
  ghost function ReadPages(v: View, p: PageSize, at: At, rem: int): ReadResult
    decreases Max(rem, 0)
  {
    if rem <= 0 then Ok([])
    else if at.i !in v then NotFound
    else if |v[at.i]| <= at.start then Ok([])
    else
      var n := Min(rem, |v[at.i]| - at.start);
      ReadPages(v, p, at.Advance(p, n), rem - n).Prepend(v[at.i][at.start..at.start + n])
  }

  /** A read of `length` bytes from `offset`, which may be negative. */
  ghost function Read(v: View, p: PageSize, offset: int, length: int): ReadResult {
    if length <= 0 then Ok([])
    else if offset >= 0 then ReadPages(v, p, At(offset / p, offset % p), length)
    else if PageIndex(offset, p) in v then BadBounds
    else NotFound
  }

  /** The part of `c` that a range request asks for, cut at the end of `c`. */
  function Slice(c: Bytes, offset: nat, length: int): (s: Bytes)
    ensures |s| == Max(0, Min(length, |c| - offset))
    ensures forall k :: 0 <= k < |s| ==> s[k] == c[offset + k]
  {
    if length <= 0 || |c| <= offset then [] else c[offset..Min(offset + length, |c|)]
  }

  /** When a read of a fully resident object fails. */
  predicate OutOfReach(size: nat, p: PageSize, offset: nat, length: int) {
    length > 0 && (offset >= RoundUp(size, p) || (size % p == 0 && offset + length > size))
  }

  /** The concatenation of a list of byte strings. */
  function Flat(messages: seq<Bytes>): Bytes {
    if messages == [] then [] else Flat(messages[..|messages| - 1]) + messages[|messages| - 1]
  }

  lemma FlatNext(messages: seq<Bytes>, m: Bytes)
    ensures Flat(messages + [m]) == Flat(messages) + m
  {
    assert (messages + [m])[..|messages|] == messages;
  }

  /** The first `count` pages of `c`. */
  ghost function FirstPages(c: Bytes, p: PageSize, count: nat): seq<Bytes>
    requires forall i :: 0 <= i < count ==> HasPage(c, p, i)
  {
    seq(count, i requires 0 <= i < count => Page(c, p, i))
  }

  // ---- arithmetic -------------------------------------------------------

  lemma IndexStart(o: nat, p: PageSize)
    ensures PageIndex(o, p) * p + PageStart(o, p) == o
    ensures 0 <= PageStart(o, p) < p && 0 <= PageIndex(o, p)
  {
  }

  lemma MulStep(i: int, j: int, p: PageSize)
    requires i < j
    ensures i * p + p <= j * p
  {
    assert j * p == i * p + (j - i) * p;
    MulAtLeast(j - i, p);
  }

  lemma MulAtLeast(k: int, p: PageSize)
    requires k >= 1
    ensures k * p >= p
  {
  }

  lemma MulNext(i: int, p: PageSize)
    ensures (i + 1) * p == i * p + p
  {
  }

  lemma MulUnique(i: int, j: int, p: PageSize, r: int, s: int)
    requires i * p + r == j * p + s && 0 <= r < p && 0 <= s < p
    ensures i == j && r == s
  {
    if i < j {
      MulStep(i, j, p);
    } else if j < i {
      MulStep(j, i, p);
    }
  }

  lemma IndexOf(i: nat, r: nat, p: PageSize)
    requires r < p
    ensures i * p + r >= 0 && PageIndex(i * p + r, p) == i && PageStart(i * p + r, p) == r
  {
    var o := i * p + r;
    IndexStart(o, p);
    MulUnique(PageIndex(o, p), i, p, PageStart(o, p), r);
  }

  lemma RoundUpBounds(size: nat, p: PageSize)
    ensures size <= RoundUp(size, p) < size + p
  {
    var k, r := (size + p - 1) / p, (size + p - 1) % p;
    assert size + p - 1 == k * p + r;
  }

  lemma RoundUpExact(size: nat, p: PageSize)
    ensures RoundUp(size, p) == size <==> size % p == 0
  {
    var k, r, q := (size + p - 1) / p, (size + p - 1) % p, size / p;
    assert size + p - 1 == k * p + r;
    if size % p == 0 {
      assert size == q * p;
      MulUnique(k, q, p, r, p - 1);
    } else if k * p == size {
      IndexOf(k, 0, p);
    }
  }

  lemma HasPageIffCounted(c: Bytes, p: PageSize, i: int)
    ensures HasPage(c, p, i) <==> 0 <= i < PageCount(|c|, p)
  {
    RoundUpBounds(|c|, p);
    var k := PageCount(|c|, p);
    if i < k {
      MulStep(i, k, p);
    } else if k < i {
      MulStep(k, i, p);
    }
  }

  /** `k` pages are all the pages of `c` when they cover it and the last one is needed. */
  lemma CountedAll(c: Bytes, p: PageSize, k: nat)
    requires |c| <= k * p < |c| + p
    ensures k == PageCount(|c|, p)
  {
    RoundUpBounds(|c|, p);
    var n := PageCount(|c|, p);
    if k < n {
      MulStep(k, n, p);
    } else if n < k {
      MulStep(n, k, p);
    }
  }

  /** Page `k` starts at `k * p`. */
  lemma PageAt(c: Bytes, p: PageSize, k: nat, o: nat)
    requires o == k * p && o < |c|
    ensures o / p == k && HasPage(c, p, k) && (k + 1) * p == o + p
    ensures Page(c, p, k) == c[o..if o + p > |c| then |c| else o + p]
  {
    IndexOf(k, 0, p);
    MulNext(k, p);
  }

  lemma ReachIff(c: Bytes, p: PageSize, o: nat)
    ensures HasPage(c, p, PageIndex(o, p)) <==> o < RoundUp(|c|, p)
  {
    var i, k := PageIndex(o, p), PageCount(|c|, p);
    IndexStart(o, p);
    HasPageIffCounted(c, p, i);
    if i < k {
      MulStep(i, k, p);
    } else if k < i {
      MulStep(k, i, p);
    }
  }

  /** A page shorter than the page size is the last one of an object that is not a page multiple. */
  lemma ShortPage(c: Bytes, p: PageSize, i: int)
    requires HasPage(c, p, i) && |Page(c, p, i)| < p
    ensures i * p + |Page(c, p, i)| == |c| && |c| % p != 0
  {
    IndexOf(i, |Page(c, p, i)|, p);
  }

  lemma Advanced(at: At, p: PageSize, n: nat)
    requires at.In(p) && at.start + n <= p
    ensures at.Advance(p, n).In(p) && at.Advance(p, n).Offset(p) == at.Offset(p) + n
  {
    MulNext(at.i, p);
  }

  lemma {:induction false} SeekOffset(at: At, p: PageSize, o: nat, n: nat)
    requires at.In(p) && o == at.Offset(p)
    ensures Seek(at, p, n) == At((o + n) / p, (o + n) % p)
    decreases n
  {
    if n < p - at.start {
      IndexOf(at.i, at.start + n, p);
    } else {
      MulNext(at.i, p);
      SeekOffset(At(at.i + 1, 0), p, o + (p - at.start), n - (p - at.start));
    }
  }

  // ---- the read ---------------------------------------------------------

  /** Consuming bytes within one page does not change what is out of reach. */
  lemma ReachStep(c: Bytes, p: PageSize, at: At, o: nat, length: int, n: int)
    requires HasPage(c, p, at.i) && o == at.Offset(p) && at.start < |Page(c, p, at.i)|
    requires length > 0 && n == Min(length, |Page(c, p, at.i)| - at.start)
    ensures OutOfReach(|c|, p, o, length) == OutOfReach(|c|, p, o + n, length - n)
  {
    RoundUpBounds(|c|, p);
    RoundUpExact(|c|, p);
  }

  /** It delivers the first part of the slice. */
  lemma SliceStep(c: Bytes, p: PageSize, at: At, o: nat, length: int, n: int)
    requires HasPage(c, p, at.i) && o == at.Offset(p) && at.start < |Page(c, p, at.i)|
    requires length > 0 && n == Min(length, |Page(c, p, at.i)| - at.start)
    ensures Slice(c, o, length) == Page(c, p, at.i)[at.start..at.start + n] + Slice(c, o + n, length - n)
  {
    SlicePart(c, Page(c, p, at.i), at.i * p, at.start, o, length, n);
  }

  lemma SlicePart(c: Bytes, page: Bytes, first: nat, start: nat, o: nat, length: int, n: nat)
    requires first + |page| <= |c| && page == c[first..first + |page|]
    requires o == first + start && start + n <= |page| && n <= length
    ensures Slice(c, o, length) == page[start..start + n] + Slice(c, o + n, length - n)
  {
    PageBytes(c, first, first + |page|, start, n);
    SliceHead(c, o, length, n);
  }

  lemma PageBytes(c: Bytes, first: nat, end: nat, start: nat, n: nat)
    requires first + start + n <= end <= |c|
    ensures c[first..end][start..start + n] == c[first + start..first + start + n]
  {
    var part, whole := c[first..end][start..start + n], c[first + start..first + start + n];
    assert |part| == |whole| && forall k :: 0 <= k < n ==> part[k] == whole[k];
  }

  lemma SliceHead(c: Bytes, o: nat, length: int, n: nat)
    requires n <= length && o + n <= |c|
    ensures Slice(c, o, length) == c[o..o + n] + Slice(c, o + n, length - n)
  {
  }

  /** Past the end of its page there is nothing left. */
  lemma SliceEnd(c: Bytes, p: PageSize, at: At, o: nat, length: int)
    requires at.In(p) && o == at.Offset(p) && HasPage(c, p, at.i) && |Page(c, p, at.i)| <= at.start
    ensures Slice(c, o, length) == []
  {
    ShortPage(c, p, at.i);
  }

  /** Past the end of its page a read is within reach only in the last page of an object that is
      not a page multiple; where there is no page it is out of reach. */
  lemma ReachEnd(c: Bytes, p: PageSize, at: At, o: nat, length: int)
    requires at.In(p) && o == at.Offset(p) && length > 0
    requires HasPage(c, p, at.i) ==> |Page(c, p, at.i)| <= at.start
    ensures OutOfReach(|c|, p, o, length) <==> !HasPage(c, p, at.i)
  {
    IndexOf(at.i, at.start, p);
    ReachIff(c, p, o);
    if HasPage(c, p, at.i) {
      ShortPage(c, p, at.i);
    }
  }

  /** One pass of the read loop. */
  lemma ReadStep(v: View, p: PageSize, at: At, rem: int, n: int)
    requires rem > 0 && at.i in v && at.start < |v[at.i]| && n == Min(rem, |v[at.i]| - at.start)
    ensures ReadPages(v, p, at, rem)
            == ReadPages(v, p, at.Advance(p, n), rem - n).Prepend(v[at.i][at.start..at.start + n])
  {
  }

  /** A successful read within a resident page goes on after some bytes, and delivers the slice when the rest does. */
  lemma SoundStep(v: View, c: Bytes, p: PageSize, at: At, o: nat, length: int, r: ReadResult)
    returns (n: nat, next: At, rest: ReadResult)
    requires SubView(v, PagesOf(c, p)) && at.In(p) && o == at.Offset(p)
    requires r == ReadPages(v, p, at, length) && r.Ok? && length > 0 && at.i in v && at.start < |v[at.i]|
    ensures 0 < n <= length && next.In(p) && o + n == next.Offset(p)
    ensures rest == ReadPages(v, p, next, length - n) && rest.Ok?
    ensures rest.bytes == Slice(c, o + n, length - n) ==> r.bytes == Slice(c, o, length)
  {
    n := Min(length, |v[at.i]| - at.start);
    next := at.Advance(p, n);
    rest := ReadPages(v, p, next, length - n);
    ReadStep(v, p, at, length, n);
    assert v[at.i] == PagesOf(c, p)[at.i] == Page(c, p, at.i);
    Advanced(at, p, n);
    SliceStep(c, p, at, o, length, n);
  }

  /** A read that is over delivers nothing, which is what is left of the slice. */
  lemma SoundEnd(v: View, c: Bytes, p: PageSize, at: At, o: nat, length: int, r: ReadResult)
    requires SubView(v, PagesOf(c, p)) && at.In(p) && o == at.Offset(p) && r == ReadPages(v, p, at, length) && r.Ok?
    requires length <= 0 || (at.i in v && |v[at.i]| <= at.start)
    ensures r.bytes == Slice(c, o, length)
  {
    if length > 0 {
      assert v[at.i] == PagesOf(c, p)[at.i] == Page(c, p, at.i);
      SliceEnd(c, p, at, o, length);
    }
  }

  lemma {:induction false} SoundReadPages(v: View, c: Bytes, p: PageSize, at: At, o: nat, length: int, r: ReadResult)
    requires SubView(v, PagesOf(c, p)) && at.In(p) && o == at.Offset(p) && r == ReadPages(v, p, at, length) && r.Ok?
    ensures r.bytes == Slice(c, o, length)
    decreases Max(length, 0)
  {
    if length <= 0 || |v[at.i]| <= at.start {
      SoundEnd(v, c, p, at, o, length, r);
    } else {
      var n, next, rest := SoundStep(v, c, p, at, o, length, r);
      SoundReadPages(v, c, p, next, o + n, length - n, rest);
    }
  }

  /** All pages of `c` from page `lo` up to byte `end` are in `v`. */
  ghost predicate Covers(v: View, c: Bytes, p: PageSize, lo: int, end: int) {
    forall i :: lo <= i && i * p < end && HasPage(c, p, i) ==> i in v
  }

  lemma CoversFrom(v: View, c: Bytes, p: PageSize, i: int, j: int, end: int)
    requires i in v && (j == i || j == i + 1)
    ensures Covers(v, c, p, i, end) <==> Covers(v, c, p, j, end)
  {
  }

  /** Where a read ends, the page it ends in was the last one it needed. */
  lemma CoversLast(v: View, c: Bytes, p: PageSize, i: int, end: int)
    requires i in v && (end <= i * p + p || |c| <= i * p + p)
    ensures Covers(v, c, p, i, end)
  {
    forall j | i < j ensures !(j * p < end && HasPage(c, p, j)) {
      MulStep(i, j, p);
    }
  }

  lemma {:induction false} PartialReadPages(v: View, c: Bytes, p: PageSize, at: At, o: nat, length: int)
    requires SubView(v, PagesOf(c, p)) && at.In(p) && o == at.Offset(p) && length > 0
    ensures ReadPages(v, p, at, length).Ok? <==> !OutOfReach(|c|, p, o, length) && Covers(v, c, p, at.i, o + length)
    ensures ReadPages(v, p, at, length) != BadBounds
    decreases length, 1
  {
    if at.i !in v {
      if HasPage(c, p, at.i) {
        assert at.i * p < o + length;
      } else {
        ReachEnd(c, p, at, o, length);
      }
    } else if |v[at.i]| <= at.start {
      ReachEnd(c, p, at, o, length);
      ShortPage(c, p, at.i);
      CoversLast(v, c, p, at.i, o + length);
    } else {
      PartialStep(v, c, p, at, o, length, Min(length, |v[at.i]| - at.start));
    }
  }

  lemma {:induction false} PartialStep(v: View, c: Bytes, p: PageSize, at: At, o: nat, length: int, n: int)
    requires SubView(v, PagesOf(c, p)) && at.In(p) && o == at.Offset(p) && length > 0
    requires at.i in v && at.start < |v[at.i]| && n == Min(length, |v[at.i]| - at.start)
    ensures ReadPages(v, p, at, length).Ok? <==> !OutOfReach(|c|, p, o, length) && Covers(v, c, p, at.i, o + length)
    ensures ReadPages(v, p, at, length) != BadBounds
    decreases length, 0
  {
    ReachStep(c, p, at, o, length, n);
    Advanced(at, p, n);
    ReadStep(v, p, at, length, n);
    var next := at.Advance(p, n);
    if n < length {
      PartialReadPages(v, c, p, next, o + n, length - n);
      CoversFrom(v, c, p, at.i, next.i, o + length);
    } else {
      CoversLast(v, c, p, at.i, o + length);
    }
  }

  lemma {:induction false} ReadPagesMonotone(v: View, w: View, p: PageSize, at: At, rem: int)
    requires SubView(v, w) && ReadPages(v, p, at, rem).Ok?
    ensures ReadPages(w, p, at, rem) == ReadPages(v, p, at, rem)
    decreases Max(rem, 0)
  {
    if rem > 0 && at.start < |v[at.i]| {
      var n := Min(rem, |v[at.i]| - at.start);
      ReadPagesMonotone(v, w, p, at.Advance(p, n), rem - n);
    }
  }

  /** A read that succeeds on some pages gives the same bytes when more pages are resident. */
  lemma ReadMonotone(v: View, w: View, p: PageSize, offset: int, length: int)
    requires SubView(v, w) && Read(v, p, offset, length).Ok?
    ensures Read(w, p, offset, length) == Read(v, p, offset, length)
  {
    if length > 0 {
      ReadPagesMonotone(v, w, p, At(offset / p, offset % p), length);
    }
  }

  /** The range is within reach, and every page of the object that it touches is in `v`. */
  ghost predicate Readable(v: View, c: Bytes, p: PageSize, offset: nat, length: int) {
    length <= 0 || (!OutOfReach(|c|, p, offset, length) && Covers(v, c, p, offset / p, offset + length))
  }

  /** With any part of an object's pages resident, a read from a non-negative offset fails exactly when it is out of
      reach or one of the object's pages it touches is missing, and then as not-found; otherwise it delivers the
      requested slice. */
  lemma PartialRead(v: View, c: Bytes, p: PageSize, offset: nat, length: int)
    requires SubView(v, PagesOf(c, p))
    ensures Read(v, p, offset, length) == if Readable(v, c, p, offset, length) then Ok(Slice(c, offset, length))
              else NotFound
  {
    if length > 0 {
      IndexStart(offset, p);
      PartialReadPages(v, c, p, At(offset / p, offset % p), offset, length);
      if Read(v, p, offset, length).Ok? {
        SoundReadPages(v, c, p, At(offset / p, offset % p), offset, length, Read(v, p, offset, length));
      }
    }
  }

  /** With every page of `c` resident, a read succeeds exactly when the range is within reach, and then returns the
      requested slice. */
  lemma ExactRead(c: Bytes, p: PageSize, offset: nat, length: int)
    ensures Read(PagesOf(c, p), p, offset, length)
            == if OutOfReach(|c|, p, offset, length) then NotFound else Ok(Slice(c, offset, length))
  {
    PartialRead(PagesOf(c, p), c, p, offset, length);
    assert Covers(PagesOf(c, p), c, p, offset / p, offset + length);
  }

  /** Whatever subset of an object's pages is resident, a successful read returns the requested slice. */
  lemma ReadSound(v: View, c: Bytes, p: PageSize, offset: nat, length: int)
    requires SubView(v, PagesOf(c, p)) && Read(v, p, offset, length).Ok?
    ensures Read(v, p, offset, length) == Ok(Slice(c, offset, length))
    ensures !OutOfReach(|c|, p, offset, length)
  {
    PartialRead(v, c, p, offset, length);
  }

  /** No page is longer than the page size. */
  ghost predicate Bounded(v: View, p: PageSize) {
    forall i :: i in v ==> |v[i]| <= p
  }

  /** The outcome of a read done in two goes: the rest counts only if the first go got all it asked for. */
  ghost function ThenRead(r: ReadResult, first: int, rest: ReadResult): ReadResult {
    if r.Ok? && |r.bytes| >= first then rest.Prepend(r.bytes) else r
  }

  /** `whole` reads `rem` bytes from `at` on, `head` the first `first` of them and `tail` the rest. */
  ghost predicate IsSplit(v: View, p: PageSize, at: At, first: int, rem: int, whole: ReadResult, head: ReadResult,
                          tail: ReadResult)
    requires 0 < first <= rem
  {
    && whole == ReadPages(v, p, at, rem) && head == ReadPages(v, p, at, first)
    && tail == ReadPages(v, p, Seek(at, p, first), rem - first)
  }

  lemma {:induction false} ReadPagesSplit(v: View, p: PageSize, at: At, first: int, rem: int, whole: ReadResult,
                                          head: ReadResult, tail: ReadResult)
    requires Bounded(v, p) && 0 < first <= rem && at.start < p && IsSplit(v, p, at, first, rem, whole, head, tail)
    ensures whole == ThenRead(head, first, tail)
    decreases first
  {
    if at.i in v && at.start < |v[at.i]| {
      var n := |v[at.i]| - at.start;
      if n < first {
        var next, more, head' := SplitNext(v, p, at, first, rem, n, whole, head, tail);
        ReadPagesSplit(v, p, next, first - n, rem - n, more, head', tail);
      } else {
        SplitWithin(v, p, at, first, rem, whole, head, tail);
      }
    } else {
      SplitEnd(v, p, at, first, rem, whole, head, tail);
    }
  }

  lemma SplitWithin(v: View, p: PageSize, at: At, first: int, rem: int, whole: ReadResult, head: ReadResult,
                    tail: ReadResult)
    requires Bounded(v, p) && 0 < first <= rem && at.start < p && IsSplit(v, p, at, first, rem, whole, head, tail)
    requires at.i in v && at.start + first <= |v[at.i]|
    ensures whole == ThenRead(head, first, tail)
  {
    SeekWithin(at, p, first);
    ReadInPage(v, p, at, first);
    ReadWithinPage(v, p, at, first, rem);
  }

  lemma SeekWithin(at: At, p: PageSize, n: nat)
    requires at.start < p && at.start + n <= p
    ensures Seek(at, p, n) == at.Advance(p, n)
  {
  }

  lemma SplitEnd(v: View, p: PageSize, at: At, first: int, rem: int, whole: ReadResult, head: ReadResult,
                 tail: ReadResult)
    requires 0 < first <= rem && IsSplit(v, p, at, first, rem, whole, head, tail)
               && (at.i in v ==> |v[at.i]| <= at.start)
    ensures whole == ThenRead(head, first, tail)
  {
    assert whole == head && (head.Ok? ==> head.bytes == []);
  }

  lemma SeekNext(at: At, p: PageSize, n: nat, first: nat)
    requires at.start < p && 0 < n < first && at.start + n <= p
    ensures Seek(at.Advance(p, n), p, first - n) == Seek(at, p, first)
  {
  }

  /** After a first step that uses up a page it is the same split from there on. */
  lemma SplitNext(v: View, p: PageSize, at: At, first: int, rem: int, n: int, whole: ReadResult, head: ReadResult,
                  tail: ReadResult) returns (next: At, more: ReadResult, head': ReadResult)
    requires Bounded(v, p) && 0 < first <= rem && at.start < p && IsSplit(v, p, at, first, rem, whole, head, tail)
    requires at.i in v && 0 < n == |v[at.i]| - at.start < first
    ensures next.start < p && IsSplit(v, p, next, first - n, rem - n, more, head', tail)
    ensures more == ThenRead(head', first - n, tail) ==> whole == ThenRead(head, first, tail)
  {
    next := at.Advance(p, n);
    more, head' := ReadPages(v, p, next, rem - n), ReadPages(v, p, next, first - n);
    SeekNext(at, p, n, first);
    ReadStep(v, p, at, rem, n);
    ReadStep(v, p, at, first, n);
    PrependThen(v[at.i][at.start..at.start + n], n, head', first - n, tail);
  }

  lemma PrependThen(chunk: Bytes, n: nat, r: ReadResult, first: int, rest: ReadResult)
    requires |chunk| == n
    ensures ThenRead(r, first, rest).Prepend(chunk) == ThenRead(r.Prepend(chunk), n + first, rest)
  {
    if r.Ok? && rest.Ok? {
      assert chunk + (r.bytes + rest.bytes) == (chunk + r.bytes) + rest.bytes;
    }
  }

  lemma ReadInPage(v: View, p: PageSize, at: At, first: int)
    requires first > 0 && at.i in v && at.start + first <= |v[at.i]|
    ensures ReadPages(v, p, at, first) == Ok(v[at.i][at.start..at.start + first])
  {
    ReadStep(v, p, at, first, first);
    assert v[at.i][at.start..at.start + first] + [] == v[at.i][at.start..at.start + first];
  }

  /** A split inside one page or at its end. */
  lemma ReadWithinPage(v: View, p: PageSize, at: At, first: int, rem: int)
    requires Bounded(v, p) && 0 < first <= rem && at.i in v && at.start + first <= |v[at.i]|
    ensures ReadPages(v, p, at, rem)
            == ReadPages(v, p, at.Advance(p, first), rem - first).Prepend(v[at.i][at.start..at.start + first])
  {
    var page, n := v[at.i], Min(rem, |v[at.i]| - at.start);
    if first == n {
      ReadStep(v, p, at, rem, n);
    } else {
      var a, b := page[at.start..at.start + first], page[at.start + first..at.start + n];
      var next, last := at.Advance(p, first), at.Advance(p, n);
      assert next.Advance(p, n - first) == last && a + b == page[at.start..at.start + n];
      calc {
        ReadPages(v, p, at, rem);
        { ReadStep(v, p, at, rem, n); }
        ReadPages(v, p, last, rem - n).Prepend(a + b);
        { PrependTwice(a, b, ReadPages(v, p, last, rem - n)); }
        ReadPages(v, p, last, rem - n).Prepend(b).Prepend(a);
        { ReadStep(v, p, next, rem - first, n - first); }
        ReadPages(v, p, next, rem - first).Prepend(a);
      }
    }
  }

  lemma PrependTwice(a: Bytes, b: Bytes, r: ReadResult)
    ensures r.Prepend(b).Prepend(a) == r.Prepend(a + b)
  {
    if r.Ok? {
      assert a + (b + r.bytes) == (a + b) + r.bytes;
    }
  }

  /** On a fixed set of resident pages, a read is the read of a first part followed by the read of the
      rest, whatever the sizes. */
  lemma ReadSplit(v: View, p: PageSize, offset: nat, first: int, length: int)
    requires Bounded(v, p) && 0 < first <= length
    ensures Read(v, p, offset, length)
            == ThenRead(Read(v, p, offset, first), first, Read(v, p, offset + first, length - first))
  {
    var at := At(offset / p, offset % p);
    SeekOffset(at, p, offset, first);
    ReadPagesSplit(v, p, at, first, length, Read(v, p, offset, length), Read(v, p, offset, first),
                   Read(v, p, offset + first, length - first));
  }

  // ---- the loop ---------------------------------------------------------

  /** A read in progress: `got` was copied so far, and `v` would deliver what remains. */
  ghost predicate Tracks(v: View, p: PageSize, offset: int, length: int, got: Bytes) {
    && |got| <= Max(length, 0)
    && (offset < 0 ==> got == [])
    && Read(v, p, offset, length) == Read(v, p, offset + |got|, length - |got|).Prepend(got)
  }

  /** What one pass of the loop in `Get` does with the page it looked up. */
  datatype Pass = More(got: Bytes) | Stop(result: ReadResult)

  /** `start` is where in the page the read continues. */
  function PassFrom(start: int, length: int, got: Bytes, page: Bytes): Pass
    requires |got| < length
  {
    if |page| - start <= 0 then Stop(Ok(got))
    else if start < 0 then Stop(BadBounds)
    else More(got + page[start..start + Min(length - |got|, |page| - start)])
  }

  function PassOver(p: PageSize, offset: int, length: int, got: Bytes, page: Bytes): Pass
    requires |got| < length
  {
    PassFrom(PageStart(offset + |got|, p), length, got, page)
  }

  lemma ReadAdvance(v: View, p: PageSize, o: nat, rem: int, n: int)
    requires Bounded(v, p) && rem > 0 && o / p in v && o % p < |v[o / p]| && n == Min(rem, |v[o / p]| - o % p)
    ensures Read(v, p, o, rem) == Read(v, p, o + n, rem - n).Prepend(v[o / p][o % p..o % p + n])
  {
    var at := At(o / p, o % p);
    ReadStep(v, p, at, rem, n);
    IndexStart(o, p);
    Advanced(at, p, n);
    var next := at.Advance(p, n);
    IndexOf(next.i, next.start, p);
  }

  lemma TracksAdvance(v: View, p: PageSize, offset: nat, length: int, got: Bytes, n: int)
    requires Bounded(v, p) && |got| < length && Tracks(v, p, offset, length, got)
    requires var o := offset + |got|; o / p in v && o % p < |v[o / p]| && n == Min(length - |got|, |v[o / p]| - o % p)
    ensures var o := offset + |got|; Tracks(v, p, offset, length, got + v[o / p][o % p..o % p + n])
  {
    var o, rem := offset + |got|, length - |got|;
    var chunk := v[o / p][o % p..o % p + n];
    var more := got + chunk;
    calc {
      Read(v, p, offset, length);
      Read(v, p, o, rem).Prepend(got);
      { ReadAdvance(v, p, o, rem, n); }
      Read(v, p, o + n, rem - n).Prepend(chunk).Prepend(got);
      { PrependTwice(got, chunk, Read(v, p, o + n, rem - n)); }
      Read(v, p, o + n, rem - n).Prepend(more);
      { assert o + n == offset + |more| && rem - n == length - |more|; }
      Read(v, p, offset + |more|, length - |more|).Prepend(more);
    }
  }

  lemma TracksShort(v: View, p: PageSize, offset: nat, length: int, got: Bytes)
    requires |got| < length && Tracks(v, p, offset, length, got)
    requires var o := offset + |got|; o / p in v && |v[o / p]| <= o % p
    ensures Read(v, p, offset, length) == Ok(got)
  {
    assert Read(v, p, offset + |got|, length - |got|) == Ok([]);
    assert got + [] == got;
  }

  /** A pass over the page that `v` holds keeps track of the read, copies at least one byte, and stops
      only with the outcome of the whole read. */
  lemma PassTracks(v: View, p: PageSize, offset: int, length: int, got: Bytes, pass: Pass)
    requires Bounded(v, p) && |got| < length && Tracks(v, p, offset, length, got)
    requires PageIndex(offset + |got|, p) in v && (forall i :: i in v ==> i >= 0)
    requires pass == PassOver(p, offset, length, got, v[PageIndex(offset + |got|, p)])
    ensures pass.More? ==> |got| < |pass.got| <= length && got <= pass.got && Tracks(v, p, offset, length, pass.got)
    ensures pass.Stop? ==> Read(v, p, offset, length) == pass.result
  {
    if offset >= 0 {
      PassTracksFrom(v, p, offset, length, got, offset + |got|, pass);
    }
  }

  lemma PassTracksFrom(v: View, p: PageSize, offset: nat, length: int, got: Bytes, o: nat, pass: Pass)
    requires Bounded(v, p) && |got| < length && Tracks(v, p, offset, length, got)
    requires o == offset + |got| && o / p in v && pass == PassFrom(o % p, length, got, v[o / p])
    ensures pass.More? ==> |got| < |pass.got| <= length && got <= pass.got && Tracks(v, p, offset, length, pass.got)
    ensures pass.Stop? ==> Read(v, p, offset, length) == pass.result
  {
    if o % p < |v[o / p]| {
      TracksAdvance(v, p, offset, length, got, Min(length - |got|, |v[o / p]| - o % p));
    } else {
      TracksShort(v, p, offset, length, got);
    }
  }

  /** A finished loop delivered the whole read. */
  lemma TracksDone(v: View, p: PageSize, offset: int, length: int, got: Bytes)
    requires Tracks(v, p, offset, length, got) && |got| >= length
    ensures Read(v, p, offset, length) == Ok(got)
  {
    assert got + [] == got;
  }

  /** A read that meets a missing page is a read that fails. */
  lemma TracksMissing(v: View, p: PageSize, offset: int, length: int, got: Bytes)
    requires Tracks(v, p, offset, length, got) && |got| < length
    requires PageIndex(offset + |got|, p) !in v
    ensures Read(v, p, offset, length) == NotFound
  {
  }

  /** A read in progress whose pages come from `v`, while those of `dv` cannot go missing. */
  ghost predicate Serving(v: View, dv: View, p: PageSize, offset: int, length: int, got: Bytes) {
    && Tracks(v, p, offset, length, got)
    && (Read(dv, p, offset, length).Ok? ==> Tracks(dv, p, offset, length, got))
  }

  lemma ServeStart(v: View, dv: View, p: PageSize, offset: int, length: int)
    ensures Serving(v, dv, p, offset, length, [])
  {
    PrependNothing(Read(v, p, offset, length));
    PrependNothing(Read(dv, p, offset, length));
  }

  lemma PrependNothing(r: ReadResult)
    ensures r.Prepend([]) == r
  {
  }

  lemma ServeMissing(v: View, dv: View, p: PageSize, offset: int, length: int, got: Bytes)
    requires Serving(v, dv, p, offset, length, got) && |got| < length
    requires PageIndex(offset + |got|, p) !in dv
    ensures !Read(dv, p, offset, length).Ok?
    ensures PageIndex(offset + |got|, p) !in v ==> Read(v, p, offset, length) == NotFound
  {
    if Read(dv, p, offset, length).Ok? {
      TracksMissing(dv, p, offset, length, got);
    }
    if PageIndex(offset + |got|, p) !in v {
      TracksMissing(v, p, offset, length, got);
    }
  }

  lemma ServePass(v: View, dv: View, c: Bytes, p: PageSize, offset: int, length: int, got: Bytes, page: Bytes,
                  pass: Pass)
    requires SubView(dv, v) && SubView(v, PagesOf(c, p)) && Serving(v, dv, p, offset, length, got) && |got| < length
    requires PageIndex(offset + |got|, p) in v && page == v[PageIndex(offset + |got|, p)]
    requires pass == PassOver(p, offset, length, got, page)
    ensures pass.More? ==> |got| < |pass.got| <= length && got <= pass.got
    ensures pass.More? ==> Serving(v, dv, p, offset, length, pass.got)
    ensures pass.Stop? ==> Read(v, p, offset, length) == pass.result
    ensures pass.Stop? && !pass.result.Ok? ==> !Read(dv, p, offset, length).Ok?
  {
    PassTracks(v, p, offset, length, got, pass);
    if Read(dv, p, offset, length).Ok? {
      ReadMonotone(dv, v, p, offset, length);
      ServeOnDisk(dv, p, offset, length, got);
      PassTracks(dv, p, offset, length, got, pass);
    }
  }

  lemma ServeOnDisk(dv: View, p: PageSize, offset: int, length: int, got: Bytes)
    requires Tracks(dv, p, offset, length, got) && Read(dv, p, offset, length).Ok? && |got| < length
    ensures PageIndex(offset + |got|, p) in dv
  {
    if PageIndex(offset + |got|, p) !in dv {
      TracksMissing(dv, p, offset, length, got);
    }
  }

  // ---- reading in steps ---------------------------------------------------

  /** One more step of `first` bytes in a read done in steps: an error is an error of the whole, a short step ends
      the whole, a full one goes on. */
  lemma StepTracks(v: View, p: PageSize, offset: int, length: int, got: Bytes, first: int, step: ReadResult)
    requires Bounded(v, p) && Tracks(v, p, offset, length, got) && 0 < first <= length - |got|
    requires step == Read(v, p, offset + |got|, first)
    ensures !step.Ok? ==> !Read(v, p, offset, length).Ok?
    ensures step.Ok? && |step.bytes| < first ==> Read(v, p, offset, length) == Ok(got + step.bytes)
    ensures step.Ok? && |step.bytes| == first ==> Tracks(v, p, offset, length, got + step.bytes)
  {
    var o, rem := offset + |got|, length - |got|;
    if offset >= 0 {
      ReadSplit(v, p, o, first, rem);
      if step.Ok? && |step.bytes| == first {
        PrependTwice(got, step.bytes, Read(v, p, o + first, rem - first));
        assert o + first == offset + |got + step.bytes|;
      }
    }
  }
}
