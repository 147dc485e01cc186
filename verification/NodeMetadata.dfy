/** Node metadata in Redis: reading, and writing with a generation count. */
module NodeMetadata {
  import opened MetadataCodec

  function NodeKey(id: string): string {
    "blobcache:fs:node:" + id
  }

  function ChildrenKey(id: string): string {
    "blobcache:fs:node:" + id + ":children"
  }

  /** For ids without a colon, as hex digests are, node hashes and child sets never share a key. */
  lemma NodeKeysDiffer(id: string, other: string)
    requires ':' !in id
    ensures NodeKey(id) != ChildrenKey(other)
    ensures NodeKey(id) == NodeKey(other) <==> id == other
  {
    var prefix := "blobcache:fs:node:";
    assert NodeKey(id)[|prefix|..] == id && NodeKey(other)[|prefix|..] == other;
    assert ChildrenKey(other)[|prefix|..] == other + ":children";
    assert (other + ":children")[|other|] == ':';
  }

  class BlobCacheMetadata {
    /** The schema of the metadata struct and the position of its generation. */
    const schema: Schema
    const g: nat
    var rdb: map<string, Hash>

    constructor (schema: Schema, g: nat)
      ensures this.schema == schema && this.g == g && rdb == map[]
    {
      this.schema, this.g, rdb := schema, g, map[];
    }

    /** `HGetAll`: the empty hash when there is none. */
    function HGetAll(key: string): Hash
      reads this
    {
      if key in rdb then rdb[key] else map[]
    }

    method GetFsNode(id: string) returns (found: bool, metadata: Struct)
      requires Generational(schema, g)
      ensures found <==> HGetAll(NodeKey(id)) != map[]
      ensures found ==> metadata == Decoded(schema, g, HGetAll(NodeKey(id)))
    {
      var res := HGetAll(NodeKey(id));
      if res == map[] {
        return false, [];
      }
      var out := new Val[|schema|];
      ZeroInto(schema, out);
      ToStruct(schema, res, out);
      return true, out[..];
    }

    /** Writes metadata; over an existing node with the next generation, which the caller's struct gets too. */
    method SetFsNode(id: string, metadata: array<Val>)
      requires Generational(schema, g) && Fits(schema, metadata[..])
      modifies this, metadata
      ensures rdb == old(rdb)[NodeKey(id) := SetNode(schema, g, old(HGetAll(NodeKey(id))), old(metadata[..]))]
      ensures metadata[..] == if old(HGetAll(NodeKey(id))) == map[] then old(metadata[..])
                              else old(WithGen(schema, g, metadata[..],
                                  (Gen(schema, g, Decoded(schema, g, HGetAll(NodeKey(id)))) + 1) % Wrap(schema, g)))
    {
      var key := NodeKey(id);
      var res := HGetAll(key);
      if res != map[] {
        var existing := new Val[|schema|];
        ZeroInto(schema, existing);
        ToStruct(schema, res, existing);
        ghost var m := metadata[..];
        assert existing[..] == Decoded(schema, g, res);
        metadata[g] := UintVal((existing[g].n + 1) % schema[g].kind.limit);
        assert metadata[..] == WithGen(schema, g, m, (Gen(schema, g, existing[..]) + 1) % Wrap(schema, g));
      }
      var slice := ToSlice(schema, metadata[..]);
      rdb := rdb[key := HSet(res, slice)];
    }

    /** A new node is written any number of times and then read: it reads back as the last struct written, its
        generation that of the first one plus the number of overwrites, wrapping around. Other keys are left alone. */
    method SetAllThenGet(id: string, structs: seq<Struct>) returns (found: bool, metadata: Struct)
      requires Generational(schema, g) && structs != [] && forall k :: 0 <= k < |structs| ==> Fits(schema, structs[k])
      requires HGetAll(NodeKey(id)) == map[]
      modifies this
      ensures rdb - {NodeKey(id)} == old(rdb) - {NodeKey(id)}
      ensures found && metadata == WithGen(schema, g, structs[|structs| - 1],
                                           Moved(Gen(schema, g, structs[0]), |structs| - 1, Wrap(schema, g)))
    {
      for k := 0 to |structs|
        invariant rdb - {NodeKey(id)} == old(rdb) - {NodeKey(id)}
        invariant Written(schema, g, HGetAll(NodeKey(id)), structs, k)
      {
        ghost var was := HGetAll(NodeKey(id));
        var copy := new Val[|schema|](i requires 0 <= i < |schema| => structs[k][i]);
        assert copy[..] == structs[k];
        SetFsNode(id, copy);
        WrittenNext(schema, g, was, structs, k);
      }
      found, metadata := GetFsNode(id);
    }
  }

  /** A fresh struct with zero fields. */
  method ZeroInto(schema: Schema, out: array<Val>)
    requires out.Length == |schema|
    modifies out
    ensures out[..] == Zero(schema)
  {
    forall i | 0 <= i < out.Length {
      out[i] := ZeroOf(schema[i].kind);
    }
  }
}
