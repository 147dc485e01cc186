/** The string keys of the store: page keys `<hash>-<idx>` and the index string that lists them. */
module PageKeys {
  import Decimal
  import Text

  /** What the hex digest of SHA-256 guarantees about an object's hash. */
  predicate WellFormed(hash: string) {
    hash != "" && '-' !in hash && ',' !in hash && '/' !in hash
  }

  function ChunkKey(hash: string, idx: int): string {
    hash + ['-'] + Decimal.PrintInt(idx)
  }

  function ChunkKeys(hash: string, count: nat): seq<string> {
    seq(count, i => ChunkKey(hash, i))
  }

  function IndexString(hash: string, count: nat): string {
    Text.Join(ChunkKeys(hash, count), ',')
  }

  lemma ChunkKeysNext(hash: string, count: nat)
    ensures ChunkKeys(hash, count + 1) == ChunkKeys(hash, count) + [ChunkKey(hash, count)]
  {
  }

  lemma ChunkKeyParts(hash: string, idx: int)
    requires WellFormed(hash)
    ensures Text.Before(ChunkKey(hash, idx), '-') == hash
    ensures ',' !in ChunkKey(hash, idx)
  {
    Text.BeforeConcat(hash, '-', Decimal.PrintInt(idx));
  }

  /** A page key of a well-formed hash is the key of no other hash, well-formed or not, and of no other index. */
  lemma ChunkKeyInjective(hash: string, idx: nat, other: string, otherIdx: int)
    requires WellFormed(hash)
    requires ChunkKey(hash, idx) == ChunkKey(other, otherIdx)
    ensures hash == other && idx == otherIdx
  {
    SameParts(hash, Decimal.PrintInt(idx), other, Decimal.PrintInt(otherIdx));
    Decimal.PrintInjective(idx, otherIdx);
  }

  lemma SameParts(a: string, digits: string, b: string, rest: string)
    requires '-' !in a && Decimal.AllDigits(digits) && a + ['-'] + digits == b + ['-'] + rest
    ensures a == b && digits == rest
  {
    SameDash(a, digits, b, rest);
    var key := a + ['-'] + digits;
    assert a == key[..|a|] == b;
    assert digits == key[|a| + 1..] == rest;
  }

  lemma SameDash(a: string, digits: string, b: string, rest: string)
    requires '-' !in a && Decimal.AllDigits(digits) && a + ['-'] + digits == b + ['-'] + rest
    ensures |a| == |b|
  {
    var key := a + ['-'] + digits;
    assert key[|b|] == '-';
    assert forall i :: 0 <= i < |a| ==> key[i] == a[i];
    assert forall i :: |a| < i < |key| ==> key[i] == digits[i - |a| - 1];
  }

  /** A page key is never a bare hash. */
  lemma ChunkKeyIsNotHash(hash: string, idx: int, other: string)
    requires WellFormed(other)
    ensures ChunkKey(hash, idx) != other
  {
    assert ChunkKey(hash, idx)[|hash|] == '-';
  }

  /** Parsing an index string, as `onEvict` does, recovers the hash and the full list of page keys. */
  lemma IndexRoundTrip(hash: string, count: nat)
    requires WellFormed(hash) && count > 0
    ensures Text.Split(IndexString(hash, count), ',') == ChunkKeys(hash, count)
    ensures Text.Before(IndexString(hash, count), '-') == hash
  {
    var keys := ChunkKeys(hash, count);
    forall i | 0 <= i < count ensures ',' !in keys[i] {
      ChunkKeyParts(hash, i);
    }
    Text.SplitJoin(keys, ',');
    var tail := if count == 1 then "" else [','] + Text.Join(keys[1..], ',');
    assert IndexString(hash, count) == hash + ['-'] + (Decimal.PrintInt(0) + tail);
    Text.BeforeConcat(hash, '-', Decimal.PrintInt(0) + tail);
  }
}
