/** The pool of reusable buffers, in buckets of three sizes. */
module BufferPool {

  const MB: nat := 1024 * 1024

  predicate IsBucket(size: int) {
    size == MB || size == 4 * MB || size == 16 * MB
  }

  /** The smallest bucket that fits the request, if any does. */
  function SelectPoolSize(size: int): (bucket: nat)
    ensures IsBucket(bucket)
    ensures forall b :: IsBucket(b) && size <= b ==> bucket <= b
  {
    if size <= MB then MB else if size <= 4 * MB then 4 * MB else 16 * MB
  }

  /** The selected bucket fits the request exactly for sizes up to the largest one. */
  lemma BucketFitsIff(size: int)
    ensures 0 <= size <= SelectPoolSize(size) <==> 0 <= size <= 16 * MB
  {
  }

  /** A buffer of the requested length, or the panic of slicing a buffer beyond its capacity or below zero. */
  datatype Taken = Slice(buffer: array<bv8>, length: nat) | Panicked

  class BufferPool {
    var pools: map<int, set<array<bv8>>>

    /** Each bucket holds buffers of its own size. */
    ghost predicate Valid()
      reads this
    {
      && pools.Keys == {MB, 4 * MB, 16 * MB}
      && forall size :: size in pools ==> forall b :: b in pools[size] ==> b.Length == size
    }

    constructor ()
      ensures Valid() && Buffers() == {}
    {
      pools := map[MB := {}, 4 * MB := {}, 16 * MB := {}];
    }

    /** All buffers in the pool. */
    ghost function Buffers(): set<array<bv8>>
      requires Valid()
      reads this
    {
      pools[MB] + pools[4 * MB] + pools[16 * MB]
    }

    /** Takes a pooled buffer of the bucket or makes one; the pool may have dropped what it had. The promise of a
        buffer of at least the requested size holds if and only if the largest bucket fits it; then the buffer is
        nobody else's. */
    method Get(size: int) returns (r: Taken)
      requires Valid()
      modifies this
      ensures Valid()
      ensures r.Slice? <==> 0 <= size <= 16 * MB
      ensures r.Slice? ==> r.length == size <= r.buffer.Length == SelectPoolSize(size)
      ensures r.Slice? ==> (fresh(r.buffer) || r.buffer in old(Buffers())) && Buffers() == old(Buffers()) - {r.buffer}
      ensures Buffers() <= old(Buffers())
    {
      var poolSize := SelectPoolSize(size);
      var buffer: array<bv8>;
      var reuse: bool := *;
      if reuse && pools[poolSize] != {} {
        buffer :| buffer in pools[poolSize];
        pools := pools[poolSize := pools[poolSize] - {buffer}];
      } else {
        buffer := new bv8[poolSize];
      }
      BucketFitsIff(size);
      if size < 0 || size > buffer.Length {
        return Panicked;
      }
      r := Slice(buffer, size);
    }

    /** Pools the buffer exactly when its capacity is that of a bucket. */
    method Put(buffer: array<bv8>)
      requires Valid()
      modifies this
      ensures Valid()
      ensures Buffers() == old(Buffers()) + if IsBucket(buffer.Length) then {buffer} else {}
    {
      var capacity := buffer.Length;
      if capacity in pools {
        pools := pools[capacity := pools[capacity] + {buffer}];
      }
    }
  }
}
