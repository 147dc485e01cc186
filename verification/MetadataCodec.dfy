/** The Redis form of node metadata: `ToSlice` and `ToStruct`, which walk the fields of a struct by reflection, and the
    generation count that `SetFsNode` keeps. */
module MetadataCodec {
  import Decimal

  /** The kinds of field: strings, unsigned and signed integers up to a limit, booleans, and kinds that `ToStruct` has
      no case for. */
  datatype Kind = StringKind | UintKind(limit: nat) | IntKind(limit: nat) | BoolKind | OtherKind
  datatype Field = Field(tag: string, kind: Kind)

  /** A value of another kind is known by its text only. */
  datatype Val = StringVal(s: string) | UintVal(n: nat) | IntVal(i: int) | BoolVal(b: bool) | OtherVal(text: string)

  /** A struct type is its list of tagged fields, a struct its list of field values. */
  type Schema = seq<Field>
  type Struct = seq<Val>
  type Hash = map<string, string>

  predicate FitsKind(kind: Kind, v: Val) {
    match kind
    case StringKind => v.StringVal?
    case UintKind(limit) => v.UintVal? && v.n < limit
    case IntKind(limit) => v.IntVal? && 0 <= v.i + limit < 2 * limit
    case BoolKind => v.BoolVal?
    case OtherKind => v.OtherVal?
  }

  predicate Fits(schema: Schema, v: Struct) {
    |v| == |schema| && forall i :: 0 <= i < |v| ==> FitsKind(schema[i].kind, v[i])
  }

  /** `fmt.Sprintf("%v", value)`. */
  function Sprint(v: Val): string {
    match v
    case StringVal(s) => s
    case UintVal(n) => Decimal.Print(n)
    case IntVal(i) => Decimal.PrintInt(i)
    case BoolVal(b) => if b then "true" else "false"
    case OtherVal(text) => text
  }

  /** `strconv.ParseBool`, with false for every error. */
  predicate ParseBoolOrFalse(s: string) {
    s == "1" || s == "t" || s == "T" || s == "TRUE" || s == "true" || s == "True"
  }

  predicate Skipped(f: Field) {
    f.tag == "" || f.tag == "-"
  }

  ghost predicate DistinctTags(schema: Schema) {
    forall i, j :: 0 <= i < j < |schema| && !Skipped(schema[i]) ==> schema[i].tag != schema[j].tag
  }

  // ---- the two walks -------------------------------------------------------------

  function SliceOf(schema: Schema, v: Struct): seq<string>
    requires |v| == |schema|
  {
    if v == [] then []
    else
      var n := |v| - 1;
      SliceOf(schema[..n], v[..n]) + if Skipped(schema[n]) then [] else [schema[n].tag, Sprint(v[n])]
  }

  /** `HSet` of a list of alternating names and values. */
  function HSet(h: Hash, slice: seq<string>): Hash {
    if |slice| < 2 then h else HSet(h, slice[..|slice| - 2])[slice[|slice| - 2] := slice[|slice| - 1]]
  }

  /** The field value that a hash gives: parsed, the zero value where it does not parse, the old one where it is
      absent. */
  function FieldFrom(h: Hash, f: Field, was: Val): Val {
    if Skipped(f) || f.tag !in h then was
    else match f.kind
      case StringKind => StringVal(h[f.tag])
      case UintKind(limit) => UintVal(Decimal.ParseUintOrZero(h[f.tag], limit))
      case IntKind(limit) => IntVal(Decimal.ParseIntOrZero(h[f.tag], limit))
      case BoolKind => BoolVal(ParseBoolOrFalse(h[f.tag]))
      case OtherKind => was
  }

  function StructFrom(schema: Schema, h: Hash, out: Struct): Struct
    requires |out| == |schema|
  {
    seq(|out|, i requires 0 <= i < |out| => FieldFrom(h, schema[i], out[i]))
  }

  method ToSlice(schema: Schema, v: Struct) returns (fieldValues: seq<string>)
    requires |v| == |schema|
    ensures fieldValues == SliceOf(schema, v)
  {
    fieldValues := [];
    for i := 0 to |v|
      invariant fieldValues == SliceOf(schema[..i], v[..i])
    {
      assert v[..i + 1][..i] == v[..i] && schema[..i + 1][..i] == schema[..i];
      if !Skipped(schema[i]) {
        fieldValues := fieldValues + [schema[i].tag, Sprint(v[i])];
      }
    }
    assert v[..|v|] == v && schema[..|v|] == schema;
  }

  method ToStruct(schema: Schema, m: Hash, out: array<Val>)
    requires out.Length == |schema|
    modifies out
    ensures out[..] == StructFrom(schema, m, old(out[..]))
  {
    for i := 0 to out.Length
      invariant forall k :: 0 <= k < i ==> out[k] == FieldFrom(m, schema[k], old(out[k]))
      invariant forall k :: i <= k < out.Length ==> out[k] == old(out[k])
    {
      var tagVal := schema[i].tag;
      if tagVal == "" || tagVal == "-" {
        continue;
      }
      if tagVal in m {
        match schema[i].kind {
          case StringKind => out[i] := StringVal(m[tagVal]);
          case UintKind(limit) => out[i] := UintVal(Decimal.ParseUintOrZero(m[tagVal], limit));
          case IntKind(limit) => out[i] := IntVal(Decimal.ParseIntOrZero(m[tagVal], limit));
          case BoolKind => out[i] := BoolVal(ParseBoolOrFalse(m[tagVal]));
          case OtherKind =>
        }
      }
    }
  }

  // ---- the round trip -------------------------------------------------------------

  lemma HSetAppend(h: Hash, slice: seq<string>, name: string, value: string)
    ensures HSet(h, slice + [name, value]) == HSet(h, slice)[name := value]
  {
    assert (slice + [name, value])[..|slice|] == slice;
  }

  /** Over any earlier hash, setting the slice of a struct leaves each of its tags with the field's text. */
  lemma {:induction false} HSetSlice(schema: Schema, h: Hash, v: Struct, i: nat)
    requires |v| == |schema| && i < |v| && DistinctTags(schema) && !Skipped(schema[i])
    ensures schema[i].tag in HSet(h, SliceOf(schema, v)) && HSet(h, SliceOf(schema, v))[schema[i].tag] == Sprint(v[i])
  {
    var n := |v| - 1;
    if !Skipped(schema[n]) {
      HSetAppend(h, SliceOf(schema[..n], v[..n]), schema[n].tag, Sprint(v[n]));
    } else {
      assert SliceOf(schema, v) == SliceOf(schema[..n], v[..n]);
    }
    if i < n {
      HSetSlice(schema[..n], h, v[..n], i);
    }
  }

  /** The field is written and read back. */
  predicate Carried(f: Field) {
    !Skipped(f) && !f.kind.OtherKind?
  }

  lemma FieldRoundTrip(schema: Schema, h: Hash, v: Struct, i: nat, was: Val)
    requires Fits(schema, v) && DistinctTags(schema) && i < |v|
    ensures FieldFrom(HSet(h, SliceOf(schema, v)), schema[i], was) == if Carried(schema[i]) then v[i] else was
  {
    if Carried(schema[i]) {
      HSetSlice(schema, h, v, i);
      match v[i]
      case UintVal(n) => Decimal.ParsePrint(n, schema[i].kind.limit);
      case IntVal(n) => Decimal.ParsePrintInt(n, schema[i].kind.limit);
      case _ =>
    }
  }

  /** For every struct of any schema with distinct tags, whatever the hash held before and whatever it is read into:
      each carried field comes back and every other one keeps what it had. So `ToStruct` undoes `ToSlice` if and only
      if it reads into a struct that agrees on the fields that are not carried. */
  lemma RoundTrip(schema: Schema, h: Hash, v: Struct, out: Struct)
    requires Fits(schema, v) && |out| == |v| && DistinctTags(schema)
    ensures forall i :: 0 <= i < |v| ==>
              StructFrom(schema, HSet(h, SliceOf(schema, v)), out)[i] == if Carried(schema[i]) then v[i] else out[i]
    ensures StructFrom(schema, HSet(h, SliceOf(schema, v)), out) == v
            <==> forall i :: 0 <= i < |v| && !Carried(schema[i]) ==> out[i] == v[i]
  {
    var r := StructFrom(schema, HSet(h, SliceOf(schema, v)), out);
    forall i | 0 <= i < |v| ensures r[i] == if Carried(schema[i]) then v[i] else out[i] {
      FieldRoundTrip(schema, h, v, i, out[i]);
    }
  }

  // ---- generations ------------------------------------------------------------------

  /** The kind has a zero value. */
  predicate HasZero(kind: Kind) {
    kind.UintKind? || kind.IntKind? ==> kind.limit > 0
  }

  /** A schema whose fields are all carried, under tags of their own, with an unsigned generation at position `g`. */
  ghost predicate Generational(schema: Schema, g: nat) {
    && DistinctTags(schema)
    && (forall i :: 0 <= i < |schema| ==> Carried(schema[i]) && HasZero(schema[i].kind))
    && g < |schema| && schema[g].kind.UintKind?
  }

  /** The number of values of the generation's type, where it wraps around. */
  ghost function Wrap(schema: Schema, g: nat): (limit: nat)
    requires Generational(schema, g)
    ensures limit > 0
  {
    schema[g].kind.limit
  }

  function Zero(schema: Schema): Struct {
    seq(|schema|, i requires 0 <= i < |schema| => ZeroOf(schema[i].kind))
  }

  function ZeroOf(kind: Kind): Val {
    match kind
    case StringKind => StringVal("")
    case UintKind(_) => UintVal(0)
    case IntKind(_) => IntVal(0)
    case BoolKind => BoolVal(false)
    case OtherKind => OtherVal("")
  }

  /** The struct that a hash stands for, read into a zero value. */
  ghost function Decoded(schema: Schema, g: nat, h: Hash): (m: Struct)
    requires Generational(schema, g)
    ensures Fits(schema, m)
  {
    StructFrom(schema, h, Zero(schema))
  }

  ghost function Gen(schema: Schema, g: nat, m: Struct): (gen: nat)
    requires Generational(schema, g) && Fits(schema, m)
    ensures gen < Wrap(schema, g)
  {
    m[g].n
  }

  ghost function WithGen(schema: Schema, g: nat, m: Struct, gen: nat): (r: Struct)
    requires Generational(schema, g) && Fits(schema, m) && gen < Wrap(schema, g)
    ensures Fits(schema, r) && Gen(schema, g, r) == gen
  {
    m[g := UintVal(gen)]
  }

  lemma DecodeEncode(schema: Schema, g: nat, h: Hash, m: Struct)
    requires Generational(schema, g) && Fits(schema, m)
    ensures HSet(h, SliceOf(schema, m)) != map[] && Decoded(schema, g, HSet(h, SliceOf(schema, m))) == m
  {
    RoundTrip(schema, h, m, Zero(schema));
    HSetSlice(schema, h, m, g);
  }

  /** `SetFsNode`: over an existing node the generation becomes the old one plus one, wrapping around at the end of
      its type. */
  ghost function SetNode(schema: Schema, g: nat, h: Hash, m: Struct): Hash
    requires Generational(schema, g) && Fits(schema, m)
  {
    if h == map[] then HSet(h, SliceOf(schema, m))
    else HSet(h, SliceOf(schema, WithGen(schema, g, m, (Gen(schema, g, Decoded(schema, g, h)) + 1) % Wrap(schema, g))))
  }

  /** What one set does to what is read back. */
  lemma SetThenGet(schema: Schema, g: nat, h: Hash, m: Struct)
    requires Generational(schema, g) && Fits(schema, m)
    ensures SetNode(schema, g, h, m) != map[]
    ensures Decoded(schema, g, SetNode(schema, g, h, m))
            == if h == map[] then m else WithGen(schema, g, m,
                (Gen(schema, g, Decoded(schema, g, h)) + 1) % Wrap(schema, g))
  {
    if h == map[] {
      DecodeEncode(schema, g, h, m);
    } else {
      DecodeEncode(schema, g, h, WithGen(schema, g, m, (Gen(schema, g, Decoded(schema, g, h)) + 1) % Wrap(schema, g)));
    }
  }

  ghost function SetNodes(schema: Schema, g: nat, h: Hash, ms: seq<Struct>): Hash
    requires Generational(schema, g) && forall k :: 0 <= k < |ms| ==> Fits(schema, ms[k])
    decreases |ms|
  {
    if ms == [] then h else SetNodes(schema, g, SetNode(schema, g, h, ms[0]), ms[1..])
  }

  lemma ModNext(a: nat, limit: nat)
    requires limit > 0
    ensures (a % limit + 1) % limit == (a + 1) % limit
  {
    DivMod(a, limit);
    ModCarry(a / limit, a % limit, limit);
  }

  lemma DivMod(a: nat, limit: nat)
    requires limit > 0
    ensures a == a / limit * limit + a % limit
  {
  }

  lemma ModCarry(q: nat, r: nat, limit: nat)
    requires r < limit
    ensures (q * limit + r + 1) % limit == (r + 1) % limit
  {
    if r + 1 < limit {
      ModUnique(q, r + 1, limit);
      ModUnique(0, r + 1, limit);
    } else {
      ModUnique(q + 1, 0, limit);
      ModUnique(1, 0, limit);
      assert (q + 1) * limit == q * limit + limit;
    }
  }

  lemma ModUnique(q: nat, r: nat, limit: nat)
    requires r < limit
    ensures q * limit + r >= 0 && (q * limit + r) % limit == r
  {
    var q', r' := (q * limit + r) / limit, (q * limit + r) % limit;
    assert q' * limit + r' == q * limit + r;
    if q' != q {
      assert (q' - q) * limit == r - r';
      FarApart(q' - q, limit);
    }
  }

  lemma FarApart(k: int, limit: nat)
    requires k != 0 && limit > 0
    ensures k * limit >= limit || k * limit + limit <= 0
  {
  }

  /** The hash reads back as `m` with generation `gen`. */
  ghost predicate ReadsBack(schema: Schema, g: nat, h: Hash, m: Struct, gen: nat) {
    && Generational(schema, g) && Fits(schema, m) && gen < Wrap(schema, g)
    && h != map[] && Decoded(schema, g, h) == WithGen(schema, g, m, gen)
  }

  lemma OverwriteReadsBack(schema: Schema, g: nat, h: Hash, previous: Struct, gen: nat, m: Struct)
    requires ReadsBack(schema, g, h, previous, gen) && Fits(schema, m)
    ensures ReadsBack(schema, g, SetNode(schema, g, h, m), m, (gen + 1) % Wrap(schema, g))
  {
    SetThenGet(schema, g, h, m);
  }

  lemma FirstReadsBack(schema: Schema, g: nat, m: Struct)
    requires Generational(schema, g) && Fits(schema, m)
    ensures ReadsBack(schema, g, SetNode(schema, g, map[], m), m, Gen(schema, g, m))
  {
    SetThenGet(schema, g, map[], m);
    assert WithGen(schema, g, m, Gen(schema, g, m)) == m;
  }

  /** The generation `n` overwrites after `gen`. */
  function Moved(gen: nat, n: nat, limit: nat): (r: nat)
    requires limit > 0
    ensures r < limit
  {
    (gen + n) % limit
  }

  /** The hash after the first `k` of a run of sets of a new node. */
  ghost predicate Written(schema: Schema, g: nat, h: Hash, structs: seq<Struct>, k: nat)
    requires Generational(schema, g) && k <= |structs| && forall j :: 0 <= j < |structs| ==> Fits(schema, structs[j])
  {
    if k == 0 then h == map[]
    else ReadsBack(schema, g, h, structs[k - 1], Moved(Gen(schema, g, structs[0]), k - 1, Wrap(schema, g)))
  }

  lemma MovedNext(gen: nat, n: nat, limit: nat)
    requires gen < limit
    ensures Moved(gen, 0, limit) == gen && Moved(gen, n + 1, limit) == (Moved(gen, n, limit) + 1) % limit
  {
    ModUnique(0, gen, limit);
    ModNext(gen + n, limit);
  }

  lemma WrittenNext(schema: Schema, g: nat, h: Hash, structs: seq<Struct>, k: nat)
    requires Generational(schema, g) && k < |structs| && forall j :: 0 <= j < |structs| ==> Fits(schema, structs[j])
    requires Written(schema, g, h, structs, k)
    ensures Written(schema, g, SetNode(schema, g, h, structs[k]), structs, k + 1)
  {
    var gen, limit := Gen(schema, g, structs[0]), Wrap(schema, g);
    if k == 0 {
      FirstReadsBack(schema, g, structs[0]);
      MovedNext(gen, 0, limit);
    } else {
      OverwriteReadsBack(schema, g, h, structs[k - 1], Moved(gen, k - 1, limit), structs[k]);
      MovedNext(gen, k - 1, limit);
    }
  }

  lemma {:induction false} SetNodesWritten(schema: Schema, g: nat, h: Hash, structs: seq<Struct>, k: nat)
    requires Generational(schema, g) && k <= |structs| && forall j :: 0 <= j < |structs| ==> Fits(schema, structs[j])
    requires Written(schema, g, h, structs, k)
    ensures Written(schema, g, SetNodes(schema, g, h, structs[k..]), structs, |structs|)
    decreases |structs| - k
  {
    if k < |structs| {
      WrittenNext(schema, g, h, structs, k);
      SetNodesWritten(schema, g, SetNode(schema, g, h, structs[k]), structs, k + 1);
      assert structs[k..][0] == structs[k] && structs[k..][1..] == structs[k + 1..];
    }
  }

  /** A new node that is set one or more times reads back as the last struct written, with the generation of the first
      one moved on once per overwrite, wrapping around at the end of its type. */
  lemma GenerationsCount(schema: Schema, g: nat, structs: seq<Struct>)
    requires Generational(schema, g) && structs != [] && forall k :: 0 <= k < |structs| ==> Fits(schema, structs[k])
    ensures ReadsBack(schema, g, SetNodes(schema, g, map[], structs), structs[|structs| - 1],
                      Moved(Gen(schema, g, structs[0]), |structs| - 1, Wrap(schema, g)))
  {
    SetNodesWritten(schema, g, map[], structs, 0);
    assert structs[0..] == structs;
  }

  // ---- node metadata ----------------------------------------------------------------

  const U32: nat := 0x1_0000_0000
  const U64: nat := 0x1_0000_0000_0000_0000

  function Str(tag: string): Field {
    Field(tag, StringKind)
  }

  function Uint32(tag: string): Field {
    Field(tag, UintKind(U32))
  }

  function Uint64(tag: string): Field {
    Field(tag, UintKind(U64))
  }

  const NAMES: Schema := [Str("pid"), Str("id"), Str("name"), Str("path"), Str("hash")]
  const COUNTS: Schema := [Uint64("ino"), Uint64("size"), Uint64("blocks"), Uint64("atime"), Uint64("mtime"),
      Uint64("ctime")]
  const NSECS: Schema := [Uint32("atimensec"), Uint32("mtimensec"), Uint32("ctimensec"), Uint32("mode"),
      Uint32("nlink")]
  const OWNERS: Schema := [Uint32("rdev"), Uint32("blksize"), Uint32("padding"), Uint32("uid"), Uint32("gid"),
      Uint64("gen")]

  /** The fields of `BlobFsMetadata`, in order. */
  const METADATA: Schema := NAMES + COUNTS + NSECS + OWNERS

  const GEN := 21

  /** The position of a metadata tag, from its length and first letters. */
  function Position(tag: string): nat {
    if |tag| < 3 then 1
    else if |tag| == 3 then
      if tag[0] == 'p' then 0 else if tag[0] == 'i' then 5 else if tag[0] == 'u' then 19 else if tag[1] == 'i' then 20
          else 21
    else if |tag| == 4 then
      if tag[0] == 'n' then 2 else if tag[0] == 'p' then 3 else if tag[0] == 'h' then 4 else if tag[0] == 's' then 6
      else if tag[0] == 'm' then 14 else 16
    else if |tag| == 5 then if tag[0] == 'a' then 8 else if tag[0] == 'm' then 9 else if tag[0] == 'c' then 10 else 15
    else if |tag| == 6 then 7
    else if |tag| == 7 then if tag[0] == 'b' then 17 else 18
    else if tag[0] == 'a' then 11 else if tag[0] == 'm' then 12 else 13
  }

  ghost predicate Placed(schema: Schema, from: nat) {
    forall i :: 0 <= i < |schema| ==> Position(schema[i].tag) == from + i && |schema[i].tag| > 1
  }

  lemma NamesPlaced()
    ensures Placed(NAMES, 0)
  {
  }

  lemma CountsPlaced()
    ensures Placed(COUNTS, 5)
  {
  }

  lemma NsecsPlaced()
    ensures Placed(NSECS, 11)
  {
  }

  lemma OwnersPlaced()
    ensures Placed(OWNERS, 16)
  {
  }

  lemma MetadataPositions()
    ensures |METADATA| == 22 && Placed(METADATA, 0)
  {
    NamesPlaced();
    CountsPlaced();
    NsecsPlaced();
    OwnersPlaced();
    assert |NAMES| == 5 && |COUNTS| == 6 && |NSECS| == 5 && |OWNERS| == 6;
    forall i | 0 <= i < 22 ensures Position(METADATA[i].tag) == i && |METADATA[i].tag| > 1 {
      assert METADATA[i] == if i < 5 then NAMES[i] else if i < 11 then COUNTS[i - 5] else if i < 16 then NSECS[i - 11]
          else OWNERS[i - 16];
    }
  }

  /** Node metadata is such a struct, with a 64-bit generation. */
  lemma MetadataIsGenerational()
    ensures |METADATA| == 22 && Generational(METADATA, GEN) && Wrap(METADATA, GEN) == U64
  {
    MetadataPositions();
    forall i, j | 0 <= i < j < |METADATA| ensures METADATA[i].tag != METADATA[j].tag {
      assert Position(METADATA[i].tag) != Position(METADATA[j].tag);
    }
  }
}
