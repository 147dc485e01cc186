/** Every interleaving of sets of one node, whose read and write are separate calls: what the generation counts then. */
module GenerationRuns {
  import opened MetadataCodec

  /** A set between its read and its write: the metadata to write and the hash it read. `depth` is how often the
      generation it read had been moved on; `stale` says that another set has written since. */
  datatype Pending = Pending(m: Struct, read: Hash, depth: nat, stale: bool)

  /** The node's hash with the struct last written, the number of overwrites, and how often its generation was moved
      on. */
  datatype Node = Node(h: Hash, last: Struct, writes: nat, depth: nat, pending: map<nat, Pending>)

  datatype Event = ReadNode(w: nat, m: Struct) | WriteNode(w: nat) | Give(w: nat)

  ghost function First(schema: Schema, g: nat, m: Struct): Node
    requires Generational(schema, g) && Fits(schema, m)
  {
    Node(SetNode(schema, g, map[], m), m, 0, 0, map[])
  }

  /** What a set writes over the hash `h`: its metadata with the generation it read plus one. */
  ghost function Overwrite(schema: Schema, g: nat, h: Hash, p: Pending): Hash
    requires Generational(schema, g) && Fits(schema, p.m)
  {
    HSet(h, SliceOf(schema, WithGen(schema, g, p.m,
        Moved(Gen(schema, g, Decoded(schema, g, p.read)), 1, Wrap(schema, g)))))
  }

  /** The effect of one event; one that is not possible changes nothing. A set may give up between its calls. */
  ghost function Next(schema: Schema, g: nat, s: Node, e: Event): Node
    requires Generational(schema, g)
  {
    match e
    case ReadNode(w, m) =>
      if w in s.pending || !Fits(schema, m) then s else s.(pending := s.pending[w := Pending(m, s.h, s.depth, false)])
    case WriteNode(w) =>
      if w !in s.pending || !Fits(schema, s.pending[w].m) then s else Written(schema, g, s, w)
    case Give(w) => s.(pending := s.pending - {w})
  }

  ghost function Written(schema: Schema, g: nat, s: Node, w: nat): Node
    requires Generational(schema, g) && w in s.pending && Fits(schema, s.pending[w].m)
  {
    var p := s.pending[w];
    Node(Overwrite(schema, g, s.h, p), p.m, s.writes + 1, p.depth + 1,
         map v | v in s.pending && v != w :: s.pending[v].(stale := true))
  }

  ghost function Run(schema: Schema, g: nat, s: Node, es: seq<Event>): Node
    requires Generational(schema, g)
    decreases |es|
  {
    if es == [] then s else Run(schema, g, Next(schema, g, s, es[0]), es[1..])
  }

  /** No set of the run writes after another one has written since its read. */
  ghost predicate Disjoint(schema: Schema, g: nat, s: Node, es: seq<Event>)
    requires Generational(schema, g)
    decreases |es|
  {
    es == [] || (!Overlaps(s, es[0]) && Disjoint(schema, g, Next(schema, g, s, es[0]), es[1..]))
  }

  predicate Overlaps(s: Node, e: Event) {
    e.WriteNode? && e.w in s.pending && s.pending[e.w].stale
  }

  // ---- the invariant ----------------------------------------------------------------------

  ghost predicate GoodPending(schema: Schema, g: nat, s: Node, gen: nat, p: Pending)
    requires Generational(schema, g)
  {
    && Fits(schema, p.m) && Gen(schema, g, Decoded(schema, g, p.read)) == Moved(gen, p.depth, Wrap(schema, g))
    && p.depth <= s.writes && (if p.stale then p.depth < s.writes else p.depth == s.depth)
  }

  /** The node reads back as the struct last written with its generation moved on `depth` times, at most once per
      overwrite. */
  ghost predicate Inv(schema: Schema, g: nat, s: Node, gen: nat)
    requires Generational(schema, g)
  {
    && ReadsBack(schema, g, s.h, s.last, Moved(gen, s.depth, Wrap(schema, g))) && s.depth <= s.writes
    && forall w :: w in s.pending ==> GoodPending(schema, g, s, gen, s.pending[w])
  }

  lemma OverwriteReads(schema: Schema, g: nat, h: Hash, p: Pending, gen: nat)
    requires Generational(schema, g) && Fits(schema, p.m) && gen < Wrap(schema, g)
    requires Gen(schema, g, Decoded(schema, g, p.read)) == Moved(gen, p.depth, Wrap(schema, g))
    ensures ReadsBack(schema, g, Overwrite(schema, g, h, p), p.m, Moved(gen, p.depth + 1, Wrap(schema, g)))
  {
    MovedOnce(gen, p.depth, Wrap(schema, g));
    WriteReadsBack(schema, g, h, p.m, Moved(Gen(schema, g, Decoded(schema, g, p.read)), 1, Wrap(schema, g)));
  }

  lemma MovedOnce(gen: nat, n: nat, limit: nat)
    requires gen < limit
    ensures Moved(Moved(gen, n, limit), 1, limit) == Moved(gen, n + 1, limit)
  {
    MovedNext(gen, n, limit);
  }

  lemma WriteReadsBack(schema: Schema, g: nat, h: Hash, m: Struct, gen: nat)
    requires Generational(schema, g) && Fits(schema, m) && gen < Wrap(schema, g)
    ensures ReadsBack(schema, g, HSet(h, SliceOf(schema, WithGen(schema, g, m, gen))), m, gen)
  {
    DecodeEncode(schema, g, h, WithGen(schema, g, m, gen));
  }

  lemma WriteKeepsInv(schema: Schema, g: nat, s: Node, gen: nat, w: nat)
    requires Generational(schema, g) && Inv(schema, g, s, gen) && gen < Wrap(schema, g) && w in s.pending
    ensures Inv(schema, g, Written(schema, g, s, w), gen)
  {
    var t := Written(schema, g, s, w);
    assert GoodPending(schema, g, s, gen, s.pending[w]);
    OverwriteReads(schema, g, s.h, s.pending[w], gen);
    forall v | v in t.pending ensures GoodPending(schema, g, t, gen, t.pending[v]) {
      assert GoodPending(schema, g, s, gen, s.pending[v]);
    }
  }

  /** A step keeps the invariant; it keeps the count exactly when it does not overlap. */
  lemma NextKeepsInv(schema: Schema, g: nat, s: Node, gen: nat, e: Event)
    requires Generational(schema, g) && Inv(schema, g, s, gen) && gen < Wrap(schema, g)
    ensures var t := Next(schema, g, s, e);
            Inv(schema, g, t, gen) && (t.depth == t.writes <==> s.depth == s.writes && !Overlaps(s, e))
  {
    match e
    case ReadNode(w, m) =>
    case WriteNode(w) =>
      if w in s.pending {
        assert GoodPending(schema, g, s, gen, s.pending[w]);
        WriteKeepsInv(schema, g, s, gen, w);
      }
    case Give(w) =>
  }

  lemma {:induction false} RunKeepsInv(schema: Schema, g: nat, s: Node, gen: nat, es: seq<Event>)
    requires Generational(schema, g) && Inv(schema, g, s, gen) && gen < Wrap(schema, g)
    ensures var t := Run(schema, g, s, es);
            Inv(schema, g, t, gen) && (t.depth == t.writes <==> s.depth == s.writes && Disjoint(schema, g, s, es))
    decreases |es|
  {
    if es != [] {
      NextKeepsInv(schema, g, s, gen, es[0]);
      RunKeepsInv(schema, g, Next(schema, g, s, es[0]), gen, es[1..]);
    }
  }

  /** In every interleaving of sets of a node it reads back as the struct last written; its generation is the first
      one moved on at most once per overwrite, and exactly once per overwrite if and only if no two sets overlap. */
  lemma GenerationsUnderOverlap(schema: Schema, g: nat, m: Struct, es: seq<Event>)
    requires Generational(schema, g) && Fits(schema, m)
    ensures var s := Run(schema, g, First(schema, g, m), es);
            && ReadsBack(schema, g, s.h, s.last, Moved(Gen(schema, g, m), s.depth, Wrap(schema, g)))
            && s.depth <= s.writes && (s.depth == s.writes <==> Disjoint(schema, g, First(schema, g, m), es))
  {
    var gen := Gen(schema, g, m);
    FirstReadsBack(schema, g, m);
    MovedNext(gen, 0, Wrap(schema, g));
    RunKeepsInv(schema, g, First(schema, g, m), gen, es);
  }

  /** Two sets that both read before either writes: two overwrites, and the generation moved on once. */
  lemma OverlapLosesGeneration(schema: Schema, g: nat, m: Struct)
    requires Generational(schema, g) && Fits(schema, m)
    ensures var s := Run(schema, g, First(schema, g, m), [ReadNode(0, m), ReadNode(1, m), WriteNode(0), WriteNode(1)]);
            s.writes == 2 && s.depth == 1
  {
    var es := [ReadNode(0, m), ReadNode(1, m), WriteNode(0), WriteNode(1)];
    var s0 := First(schema, g, m);
    var s1 := Next(schema, g, s0, es[0]);
    var s2 := Next(schema, g, s1, es[1]);
    var s3 := Next(schema, g, s2, es[2]);
    assert s2.pending == map[0 := Pending(m, s0.h, 0, false), 1 := Pending(m, s0.h, 0, false)];
    assert s3.writes == 1 && s3.pending == map[1 := Pending(m, s0.h, 0, true)];
    assert es[0..] == es && es[4..] == [];
    RunAt(schema, g, s0, es, 0);
    RunAt(schema, g, s1, es, 1);
    RunAt(schema, g, s2, es, 2);
    RunAt(schema, g, s3, es, 3);
  }

  lemma RunAt(schema: Schema, g: nat, s: Node, es: seq<Event>, i: nat)
    requires Generational(schema, g) && i < |es|
    ensures Run(schema, g, s, es[i..]) == Run(schema, g, Next(schema, g, s, es[i]), es[i + 1..])
  {
    assert es[i..][1..] == es[i + 1..];
  }
}
