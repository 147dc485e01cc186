/** Every interleaving of stores, creations and removals, whose coordinator calls are separate steps and which may
    stop at any of them. The coordinator refuses nothing, so neither do the steps. */
module TreeRuns {
  import opened Paths
  import opened BlobFsTree
  import opened PartialTree
  import opened BlobFsOps

  datatype Kind = Storing(hash: string, size: nat, stat: Stat) | Creating(mode: Mode)

  /** An operation in progress: `done` prefixes of its path are linked or were there; `isSet` says that the next node is
      written but not yet linked. */
  datatype Op = Op(parts: seq<string>, kind: Kind, done: nat, isSet: bool)

  /** A removal between its two calls. */
  datatype Removal = Removal(parent: seq<string>, name: string)
  {
    predicate Named() {
      AllNames(parent) && IsName(name)
    }

    function Parent(): FsId {
      IdOf(parent)
    }

    function Id(): FsId {
      IdOf(parent + [name])
    }
  }

  /** `listings` are the removals of directories that have listed no children and not yet made their first call. */
  datatype Forest = Forest(t: Tree, ops: map<nat, Op>, listings: map<nat, Removal>, removals: map<nat, Removal>)

  const START := Forest(EMPTY, map[], map[], map[])

  datatype Event =
    | StartStore(op: nat, path: string, hash: string, size: nat, stat: Stat)
    | StartCreate(op: nat, parent: string, name: string, mode: Mode)
    | SetPrefix(op: nat)
    | LinkPrefix(op: nat)
    | Stop(op: nat)
    | ListChildren(r: nat, parent: string, name: string)
    | RemoveListed(r: nat)
    | RemoveNode(r: nat, parent: string, name: string)
    | RemoveLink(r: nat)
    | StopRemoval(r: nat)

  /** The effect of one event; one that is not possible changes nothing. A store goes through every prefix of its
      path, a creation starts at the directory it is called on. Names are plain; stores of the root path are left out.
      */
  function Next(s: Forest, e: Event): Forest {
    match e
    case StartStore(op, path, hash, size, stat) =>
      if op in s.ops || Parts(path) == [] then s
      else s.(ops := s.ops[op := Op(Parts(path), Storing(hash, size, stat), 0, false)])
    case StartCreate(op, parent, name, mode) =>
      if op in s.ops || !IsName(name) then s
      else s.(ops := s.ops[op := Op(Parts(parent) + [name], Creating(mode), |Parts(parent)|, false)])
    case SetPrefix(op) => NextSet(s, op)
    case LinkPrefix(op) => NextLink(s, op)
    case Stop(op) => s.(ops := s.ops - {op})
    case ListChildren(r, parent, name) =>
      if r in s.listings || !IsName(name) || !ListsNone(s.t, IdOf(Parts(parent) + [name])) then s
      else s.(listings := s.listings[r := Removal(Parts(parent), name)])
    case RemoveListed(r) =>
      if r !in s.listings || r in s.removals then s
      else NextRemoveNode(s.(listings := s.listings - {r}), r, s.listings[r])
    case RemoveNode(r, parent, name) =>
      if r in s.removals || !IsName(name) then s else NextRemoveNode(s, r, Removal(Parts(parent), name))
    case RemoveLink(r) =>
      if r !in s.removals then s else NextRemoveLink(s, r)
    case StopRemoval(r) => s.(removals := s.removals - {r})
  }

  /** The listing of a node's children, which gives only those that are there, is empty. */
  predicate ListsNone(t: Tree, id: FsId) {
    forall l :: l in t.links && l.0 == id ==> l.1 !in t.nodes
  }

  function NextRemoveNode(s: Forest, r: nat, removal: Removal): Forest {
    s.(t := s.t.RemoveNode(removal.Id()), removals := s.removals[r := removal])
  }

  function NextRemoveLink(s: Forest, r: nat): Forest
    requires r in s.removals
  {
    s.(t := s.t.RemoveChild(s.removals[r].Parent(), s.removals[r].Id()), removals := s.removals - {r})
  }

  /** The operation has a node left to write, and may. */
  predicate GoesOn(o: Op) {
    o.done < |o.parts| && (o.kind.Storing? && o.done + 1 == |o.parts| ==> o.kind.stat.Found?)
  }

  /** The metadata of the node an operation writes next. */
  function NextMeta(o: Op): Meta
    requires GoesOn(o)
  {
    match o.kind
    case Storing(hash, size, stat) => PrefixMeta(o.parts, o.done + 1, hash, size, stat)
    case Creating(mode) =>
      Meta(IdOf(o.parts[..o.done]), IdOf(o.parts[..o.done + 1]), o.parts[o.done], Render(o.parts[..o.done + 1]), mode,
          NoHash, 0)
  }

  function NextSet(s: Forest, op: nat): Forest {
    if op !in s.ops || s.ops[op].isSet || !GoesOn(s.ops[op]) then s
    else
      var m := NextMeta(s.ops[op]);
      s.(t := s.t.SetNode(m.id, m), ops := s.ops[op := s.ops[op].(isSet := true)])
  }

  function NextLink(s: Forest, op: nat): Forest {
    if op !in s.ops || !s.ops[op].isSet || s.ops[op].done >= |s.ops[op].parts| then s
    else
      var o := s.ops[op];
      s.(t := s.t.AddChild(IdOf(o.parts[..o.done]), IdOf(o.parts[..o.done + 1])),
         ops := s.ops[op := o.(done := o.done + 1, isSet := false)])
  }

  function Run(s: Forest, es: seq<Event>): Forest
    decreases |es|
  {
    if es == [] then s else Run(Next(s, es[0]), es[1..])
  }

  // ---- the invariant -----------------------------------------------------------------

  /** An unfinished operation continues below an attached node, and a node it has written is there. */
  ghost predicate GoodOp(t: Tree, o: Op) {
    && AllNames(o.parts) && o.done <= |o.parts| && (o.isSet ==> o.done < |o.parts|)
    && (o.done < |o.parts| ==> Attached(t, IdOf(o.parts[..o.done])))
    && (o.isSet ==> IdOf(o.parts[..o.done + 1]) in t.nodes)
  }

  /** The nodes whose removal is between its two calls. */
  ghost function Gone(removals: map<nat, Removal>): set<FsId> {
    set r | r in removals :: removals[r].Id()
  }

  /** Links may lead to a missing node only while its removal is under way. */
  ghost predicate ForestInv(s: Forest) {
    && InvExcept(s.t, Gone(s.removals))
    && (forall op :: op in s.ops ==> GoodOp(s.t, s.ops[op]))
    && (forall r :: r in s.removals ==> s.removals[r].Named())
    && (forall r :: r in s.listings ==> s.listings[r].Named())
  }

  /** The operation continues below the node. */
  predicate Below(o: Op, id: FsId) {
    o.done < |o.parts| && id == IdOf(o.parts[..o.done])
  }

  /** It continues below the node, or has written it but not yet linked it. */
  predicate Needs(o: Op, id: FsId) {
    Below(o, id) || (o.done < |o.parts| && o.isSet && id == IdOf(o.parts[..o.done + 1]))
  }

  /** The node has no children, and no operation needs it. */
  ghost predicate Removable(s: Forest, id: FsId) {
    Childless(s.t, id) && forall op :: op in s.ops ==> !Needs(s.ops[op], id)
  }

  /** A creation is called on an attached directory. A removal takes away a node with no children that no operation
      needs; by the time of its second call the node, if it is back, has no children again and no operation continues
      below it; and it stops before that call only if it leaves no link to a missing node. */
  ghost predicate Safe(s: Forest, e: Event) {
    match e
    case StartCreate(op, parent, name, _) => op in s.ops || !IsName(name) || Attached(s.t, IdOf(Parts(parent)))
    case RemoveNode(r, parent, name) =>
      var id := IdOf(Parts(parent) + [name]);
      r in s.removals || !IsName(name) || Removable(s, id)
    case RemoveListed(r) => r !in s.listings || r in s.removals || Removable(s, s.listings[r].Id())
    case RemoveLink(r) =>
      r !in s.removals || (Childless(s.t, s.removals[r].Id()) && forall op :: op in s.ops ==>
          !Below(s.ops[op], s.removals[r].Id()))
    case StopRemoval(r) => r !in s.removals || Settles(s, r)
    case _ => true
  }

  /** Without removal `r` no link to a missing node is left behind. */
  ghost predicate Settles(s: Forest, r: nat)
    requires r in s.removals
  {
    var removal := s.removals[r];
    || removal.Id() in s.t.nodes || (removal.Parent(), removal.Id()) !in s.t.links
    || removal.Id() in Gone(s.removals - {r})
  }

  // ---- stores and creations ----------------------------------------------------------------

  lemma GoodOpKept(t: Tree, u: Tree, o: Op)
    requires GoodOp(t, o) && t.nodes.Keys <= u.nodes.Keys && forall x :: Attached(t, x) ==> Attached(u, x)
    ensures GoodOp(u, o)
  {
  }

  lemma NextMetaGood(o: Op)
    requires AllNames(o.parts) && GoesOn(o)
    ensures NextMeta(o).id == IdOf(o.parts[..o.done + 1]) && GoodNode(NextMeta(o).id, NextMeta(o))
  {
    PrefixMetaGood(o.parts, o.done + 1, "", 0, Found(DIR_MODE, true));
    if o.kind.Storing? {
      PrefixMetaGood(o.parts, o.done + 1, o.kind.hash, o.kind.size, o.kind.stat);
    }
  }

  lemma SetKeepsInv(s: Forest, op: nat)
    requires ForestInv(s)
    ensures ForestInv(NextSet(s, op))
  {
    var u := NextSet(s, op);
    if u != s {
      assert GoodOp(s.t, s.ops[op]);
      NextMetaGood(s.ops[op]);
      SetNodeKeeps(s.t, Gone(s.removals), NextMeta(s.ops[op]).id, NextMeta(s.ops[op]));
      forall other | other in s.ops ensures GoodOp(u.t, u.ops[other]) {
        GoodOpKept(s.t, u.t, s.ops[other]);
      }
    }
  }

  /** The link step of an operation keeps the tree, attaches the node and moves the operation on. */
  lemma LinkStep(t: Tree, gone: set<FsId>, o: Op)
    requires InvExcept(t, gone) && GoodOp(t, o) && o.isSet
    ensures var u := t.AddChild(IdOf(o.parts[..o.done]), IdOf(o.parts[..o.done + 1]));
            && InvExcept(u, gone) && Attached(u, IdOf(o.parts[..o.done + 1]))
            && GoodOp(u, o.(done := o.done + 1, isSet := false))
            && forall x :: Attached(t, x) ==> Attached(u, x)
  {
    ChildOfPrefix(o.parts, o.done);
    AddChildKeeps(t, gone, IdOf(o.parts[..o.done]), IdOf(o.parts[..o.done + 1]));
  }

  lemma LinkKeepsInv(s: Forest, op: nat)
    requires ForestInv(s)
    ensures ForestInv(NextLink(s, op))
  {
    var u := NextLink(s, op);
    if u != s {
      LinkStep(s.t, Gone(s.removals), s.ops[op]);
      forall other | other in s.ops && other != op ensures GoodOp(u.t, s.ops[other]) {
        GoodOpKept(s.t, u.t, s.ops[other]);
      }
    }
  }

  lemma CreateSafeIff(s: Forest, op: nat, parent: string, name: string, mode: Mode)
    requires ForestInv(s)
    ensures ForestInv(Next(s, StartCreate(op, parent, name, mode))) <==> Safe(s, StartCreate(op, parent, name, mode))
  {
    if op !in s.ops && IsName(name) {
      assert (Parts(parent) + [name])[..|Parts(parent)|] == Parts(parent);
      NewOpIff(s, op, Op(Parts(parent) + [name], Creating(mode), |Parts(parent)|, false));
    }
  }

  lemma NewOpIff(s: Forest, op: nat, o: Op)
    requires ForestInv(s) && op !in s.ops
    ensures ForestInv(s.(ops := s.ops[op := o])) <==> GoodOp(s.t, o)
  {
    var u := s.(ops := s.ops[op := o]);
    assert u.ops[op] == o && forall other :: other in s.ops ==> u.ops[other] == s.ops[other];
  }

  // ---- removals -----------------------------------------------------------------------------

  lemma NotRoot(parent: seq<string>, name: string)
    requires AllNames(parent) && IsName(name)
    ensures IdOf(parent + [name]) != ROOT
  {
    RootParts();
    PartsRender(parent + [name]);
  }

  lemma GoneWith(removals: map<nat, Removal>, r: nat, removal: Removal)
    requires r !in removals
    ensures Gone(removals[r := removal]) == Gone(removals) + {removal.Id()}
  {
    var more := removals[r := removal];
    forall id | id in Gone(removals) + {removal.Id()} ensures id in Gone(more) {
      if id in Gone(removals) {
        var q :| q in removals && removals[q].Id() == id;
        assert q in more && more[q].Id() == id;
      } else {
        assert r in more && more[r].Id() == id;
      }
    }
  }

  lemma GoneWithout(removals: map<nat, Removal>, r: nat)
    requires r in removals
    ensures Gone(removals) - {removals[r].Id()} <= Gone(removals - {r}) <= Gone(removals)
  {
    var left := removals - {r};
    forall id | id in Gone(removals) - {removals[r].Id()} ensures id in Gone(left) {
      var q :| q in removals && removals[q].Id() == id;
      assert q in left && left[q].Id() == id;
    }
  }

  lemma GoodOpsIff(s: Forest, u: Tree, id: FsId)
    requires (forall op :: op in s.ops ==> GoodOp(s.t, s.ops[op])) && id != ROOT
    requires forall x :: Attached(u, x) <==> x != id && Attached(s.t, x)
    ensures u.nodes == s.t.nodes - {id} ==>
              ((forall op :: op in s.ops ==> GoodOp(u, s.ops[op]))
                  <==> forall op :: op in s.ops ==> !Needs(s.ops[op], id))
    ensures u.nodes == s.t.nodes ==>
              ((forall op :: op in s.ops ==> GoodOp(u, s.ops[op]))
                  <==> forall op :: op in s.ops ==> !Below(s.ops[op], id))
  {
    forall op | op in s.ops
      ensures u.nodes == s.t.nodes - {id} ==> (GoodOp(u, s.ops[op]) <==> !Needs(s.ops[op], id))
      ensures u.nodes == s.t.nodes ==> (GoodOp(u, s.ops[op]) <==> !Below(s.ops[op], id))
    {
      assert GoodOp(s.t, s.ops[op]);
    }
  }

  lemma RemoveNodeSafeIff(s: Forest, r: nat, removal: Removal)
    requires ForestInv(s) && r !in s.removals && removal.Named()
    ensures ForestInv(NextRemoveNode(s, r, removal)) <==> Removable(s, removal.Id())
  {
    NotRoot(removal.parent, removal.name);
    GoneWith(s.removals, r, removal);
    RemoveNodeIff(s.t, Gone(s.removals), removal.Id());
    GoodOpsIff(s, s.t.RemoveNode(removal.Id()), removal.Id());
  }

  lemma RemoveLinkSafeIff(s: Forest, r: nat)
    requires ForestInv(s) && r in s.removals
    ensures ForestInv(NextRemoveLink(s, r))
            <==> Childless(s.t, s.removals[r].Id()) && forall op :: op in s.ops ==>
                !Below(s.ops[op], s.removals[r].Id())
  {
    var removal := s.removals[r];
    NotRoot(removal.parent, removal.name);
    ChildOfParts(removal.parent, removal.name);
    GoneWithout(s.removals, r);
    RemoveLinkIff(s.t, Gone(s.removals), removal.Parent(), removal.Id(), Gone(s.removals - {r}));
    GoodOpsIff(s, s.t.RemoveChild(removal.Parent(), removal.Id()), removal.Id());
  }

  lemma StopRemovalSafeIff(s: Forest, r: nat)
    requires ForestInv(s) && r in s.removals
    ensures ForestInv(s.(removals := s.removals - {r})) <==> Settles(s, r)
  {
    var removal, left := s.removals[r], Gone(s.removals - {r});
    GoneWithout(s.removals, r);
    if Settles(s, r) {
      forall p, c | (p, c) in s.t.links ensures c in s.t.nodes || c in left {
        if c == removal.Id() {
          ChildOfParts(removal.parent, removal.name);
          OneParentId(p, removal.Parent(), c);
        }
      }
    }
  }

  /** A step keeps the invariant exactly when it is safe. */
  lemma StepSafeIff(s: Forest, e: Event)
    requires ForestInv(s)
    ensures ForestInv(Next(s, e)) <==> Safe(s, e)
  {
    match e
    case StartStore(op, path, hash, size, stat) =>
      RootParts();
      assert Parts(path)[..0] == [];
    case StartCreate(op, parent, name, mode) => CreateSafeIff(s, op, parent, name, mode);
    case SetPrefix(op) => SetKeepsInv(s, op);
    case LinkPrefix(op) => LinkKeepsInv(s, op);
    case Stop(op) =>
    case ListChildren(r, parent, name) =>
    case RemoveListed(r) =>
      if r in s.listings && r !in s.removals {
        RemoveNodeSafeIff(s.(listings := s.listings - {r}), r, s.listings[r]);
      }
    case RemoveNode(r, parent, name) =>
      if r !in s.removals && IsName(name) {
        RemoveNodeSafeIff(s, r, Removal(Parts(parent), name));
      }
    case RemoveLink(r) =>
      if r in s.removals {
        RemoveLinkSafeIff(s, r);
      }
    case StopRemoval(r) =>
      if r in s.removals {
        StopRemovalSafeIff(s, r);
      } else {
        assert s.removals - {r} == s.removals;
      }
  }

  // ---- the damage that unsafe removals do -------------------------------------------------------

  /** What is left to do of an operation up to its next link. */
  function ToNextLink(o: Op, op: nat): seq<Event> {
    if o.isSet then [LinkPrefix(op)] else [SetPrefix(op), LinkPrefix(op)]
  }

  lemma RunToNextLink(s: Forest, op: nat)
    requires op in s.ops
    ensures Run(s, ToNextLink(s.ops[op], op)) == NextLink(if s.ops[op].isSet then s else NextSet(s, op), op)
  {
    var t := if s.ops[op].isSet then s else NextSet(s, op);
    assert [SetPrefix(op), LinkPrefix(op)][1..] == [LinkPrefix(op)];
    assert Run(t, [LinkPrefix(op)]) == Run(NextLink(t, op), []);
  }

  /** An operation that is left below a detached node, or with a written node that is gone, breaks the tree at its next
      link. */
  lemma NextBreaks(s: Forest, op: nat, id: FsId)
    requires op in s.ops && AllNames(s.ops[op].parts) && (s.ops[op].isSet || GoesOn(s.ops[op])) && id != ROOT
    requires (Below(s.ops[op], id) && !Attached(s.t, id)) || (Needs(s.ops[op], id) && id !in s.t.nodes)
    ensures !Inv(NextLink(if s.ops[op].isSet then s else NextSet(s, op), op).t)
  {
    var o := s.ops[op];
    PrefixIdsDiffer(o.parts, o.done, o.done + 1);
    if o.isSet {
      NextLinkBreaks(s, op, id);
    } else {
      NextMetaGood(o);
      NextLinkBreaks(NextSet(s, op), op, id);
    }
  }

  lemma NextLinkBreaks(s: Forest, op: nat, id: FsId)
    requires op in s.ops && s.ops[op].isSet && id != ROOT && Needs(s.ops[op], id)
    requires IdOf(s.ops[op].parts[..s.ops[op].done]) != IdOf(s.ops[op].parts[..s.ops[op].done + 1])
    requires (Below(s.ops[op], id) && !Attached(s.t, id)) || id !in s.t.nodes
    ensures !Inv(NextLink(s, op).t)
  {
    var o := s.ops[op];
    assert (IdOf(o.parts[..o.done]), IdOf(o.parts[..o.done + 1])) in NextLink(s, op).t.links;
  }

  /** Removing a node that an operation needs does damage: once the removal is through and that operation reaches its
      next link, the tree holds a link from a node that is not attached or to one that is not there. */
  lemma NeededRemovalBreaks(s: Forest, r: nat, removal: Removal, op: nat)
    requires removal.Named()
    requires op in s.ops && AllNames(s.ops[op].parts) && (s.ops[op].isSet || GoesOn(s.ops[op]))
    requires Needs(s.ops[op], removal.Id())
    ensures !Inv(Run(NextRemoveLink(NextRemoveNode(s, r, removal), r), ToNextLink(s.ops[op], op)).t)
  {
    var u := NextRemoveLink(NextRemoveNode(s, r, removal), r);
    NotRoot(removal.parent, removal.name);
    NextBreaks(u, op, removal.Id());
    RunToNextLink(u, op);
  }

  /** So does the second call of a removal whose node is back with an operation continuing below it. */
  lemma LateUnlinkBreaks(s: Forest, r: nat, op: nat)
    requires ForestInv(s) && r in s.removals && op in s.ops && (s.ops[op].isSet || GoesOn(s.ops[op]))
    requires Below(s.ops[op], s.removals[r].Id())
    ensures !Inv(Run(NextRemoveLink(s, r), ToNextLink(s.ops[op], op)).t)
  {
    var removal, u := s.removals[r], NextRemoveLink(s, r);
    assert GoodOp(s.t, s.ops[op]);
    NotRoot(removal.parent, removal.name);
    ChildOfParts(removal.parent, removal.name);
    UnlinkAttached(s.t, removal.Parent(), removal.Id(), removal.Id());
    NextBreaks(u, op, removal.Id());
    RunToNextLink(u, op);
  }

  // ---- what a listing is worth ------------------------------------------------------------------

  /** The event links `c` below `p` in state `s`. */
  predicate Links(s: Forest, e: Event, p: FsId, c: FsId) {
    (p, c) !in s.t.links && (p, c) in Next(s, e).t.links
  }

  /** Only the link step of a store or a creation makes a link. */
  lemma LinksOnlyByLink(s: Forest, e: Event, p: FsId, c: FsId)
    requires Links(s, e, p, c)
    ensures e.LinkPrefix? && e.op in s.ops && Below(s.ops[e.op], p)
  {
  }

  /** A link that is there after a run was there before it, or some step of the run made it. */
  lemma {:induction false} LinkedSince(s: Forest, es: seq<Event>, p: FsId, c: FsId) returns (k: nat)
    requires (p, c) !in s.t.links && (p, c) in Run(s, es).t.links
    ensures k < |es| && Links(Run(s, es[..k]), es[k], p, c) && es[k].LinkPrefix?
    decreases |es|
  {
    var t := Next(s, es[0]);
    if (p, c) in t.t.links {
      k := 0;
      assert es[..0] == [];
      LinksOnlyByLink(s, es[0], p, c);
    } else {
      var j := LinkedSince(t, es[1..], p, c);
      k := j + 1;
      assert es[..k][0] == es[0] && es[..k][1..] == es[1..][..j];
    }
  }

  /** Some step of the run links `c` below `p`. */
  ghost predicate LinkedIn(s: Forest, es: seq<Event>, p: FsId, c: FsId) {
    exists k :: 0 <= k < |es| && es[k].LinkPrefix? && Links(Run(s, es[..k]), es[k], p, c)
  }

  /** A child that a listing of nothing does not know of was linked since, or its own removal was under way then. */
  lemma ListingMissed(listed: Forest, es: seq<Event>, id: FsId, c: FsId)
    requires ForestInv(listed) && ListsNone(listed.t, id) && (id, c) in Run(listed, es).t.links
    ensures LinkedIn(listed, es, id, c) || ((id, c) in listed.t.links && c in Gone(listed.removals))
  {
    if (id, c) !in listed.t.links {
      var k := LinkedSince(listed, es, id, c);
    } else {
      assert c !in listed.t.nodes;
    }
  }

  /** When the removal of a directory that listed no children is unsafe: after any safe run from the listing, its
      first call breaks the invariant exactly when an operation needs the directory or a child is linked below it; and
      each such child was linked since the listing, or its own removal was under way then, so that the listing missed
      it. */
  lemma StaleListing(listed: Forest, es: seq<Event>, r: nat, id: FsId)
    requires ForestInv(listed) && ListsNone(listed.t, id) && SafeRun(listed, es)
    requires var t := Run(listed, es); r in t.listings && r !in t.removals && t.listings[r].Id() == id
    ensures ForestInv(Next(Run(listed, es), RemoveListed(r))) <==> Removable(Run(listed, es), id)
    ensures forall c :: (id, c) in Run(listed, es).t.links ==>
              LinkedIn(listed, es, id, c) || ((id, c) in listed.t.links && c in Gone(listed.removals))
  {
    RunKeepsInv(listed, es);
    StepSafeIff(Run(listed, es), RemoveListed(r));
    forall c | (id, c) in Run(listed, es).t.links
      ensures LinkedIn(listed, es, id, c) || ((id, c) in listed.t.links && c in Gone(listed.removals))
    {
      ListingMissed(listed, es, id, c);
    }
  }

  // ---- what every safe run keeps ------------------------------------------------------------

  ghost predicate SafeRun(s: Forest, es: seq<Event>)
    decreases |es|
  {
    es == [] || (Safe(s, es[0]) && SafeRun(Next(s, es[0]), es[1..]))
  }

  lemma {:induction false} RunKeepsInv(s: Forest, es: seq<Event>)
    requires ForestInv(s) && SafeRun(s, es)
    ensures ForestInv(Run(s, es))
    decreases |es|
  {
    if es != [] {
      StepSafeIff(s, es[0]);
      RunKeepsInv(Next(s, es[0]), es[1..]);
    }
  }

  /** Whenever no removal is between its calls, the nodes and links are a tree. */
  lemma SettledRunIsTree(es: seq<Event>)
    requires SafeRun(START, es) && Run(START, es).removals == map[]
    ensures Inv(Run(START, es).t)
  {
    RunKeepsInv(START, es);
    NothingGone(Run(START, es).t);
  }

  /** The link goes from a parent to its own child, whose path is the parent's path joined with its name; the child is
      there, with that parent id, or its removal is between its calls; and `ids` leads to it from the root by links. */
  ghost predicate SoundLink(s: Forest, p: FsId, c: FsId, ids: seq<FsId>) {
    && ChildId(p, c) && p.FsId? && |p.path| < |c.path| && c.path == Join(p.path, Parts(c.path)[|Parts(c.path)| - 1])
    && (c in s.t.nodes || c in Gone(s.removals)) && (c in s.t.nodes ==> s.t.nodes[c].pid == p)
    && IsPath(s.t, ids) && |ids| > 1 && ids[0] == ROOT && ids[|ids| - 1] == c
  }

  lemma LinkIsSound(s: Forest, p: FsId, c: FsId) returns (ids: seq<FsId>)
    requires ForestInv(s) && (p, c) in s.t.links
    ensures SoundLink(s, p, c, ids)
  {
    NotItsOwnChild(p, c);
    if c in s.t.nodes {
      ParentOf(s.t, p, c);
    }
    var up := PathTo(s, p);
    PathGrows(s.t, up, c);
    ids := up + [c];
  }

  lemma PathTo(s: Forest, id: FsId) returns (ids: seq<FsId>)
    requires ForestInv(s) && Attached(s.t, id)
    ensures IsPath(s.t, ids) && ids != [] && ids[0] == ROOT && ids[|ids| - 1] == id
  {
    SettledIsTree(s.t, Gone(s.removals));
    ids := ReachableFromRoot(Settled(s.t), id);
  }

  /** At any moment of a safe run every link is sound. */
  lemma EveryLinkIsSound(es: seq<Event>, p: FsId, c: FsId) returns (ids: seq<FsId>)
    requires SafeRun(START, es) && (p, c) in Run(START, es).t.links
    ensures SoundLink(Run(START, es), p, c, ids)
  {
    RunKeepsInv(START, es);
    ids := LinkIsSound(Run(START, es), p, c);
  }

  /** At no moment is there a cycle of links. */
  lemma {:induction false} NoCycleExcept(t: Tree, gone: set<FsId>, ids: seq<FsId>)
    requires InvExcept(t, gone) && IsPath(t, ids) && |ids| > 1
    ensures ids[0].FsId? && ids[|ids| - 1].FsId? && |ids[0].path| < |ids[|ids| - 1].path|
  {
    var n := |ids| - 2;
    assert (ids[n], ids[n + 1]) in t.links;
    NotItsOwnChild(ids[n], ids[n + 1]);
    if n > 0 {
      NoCycleExcept(t, gone, ids[..n + 1]);
    }
  }

  lemma NoRunHasCycle(es: seq<Event>, ids: seq<FsId>)
    requires SafeRun(START, es) && IsPath(Run(START, es).t, ids) && |ids| > 1
    ensures ids[0] != ids[|ids| - 1]
  {
    RunKeepsInv(START, es);
    NoCycleExcept(Run(START, es).t, Gone(Run(START, es).removals), ids);
  }

  /** The step that links the last prefix of an operation's path leaves that path attached. */
  lemma LastLinkAttaches(s: Forest, op: nat)
    requires ForestInv(s) && op in s.ops && s.ops[op].isSet && s.ops[op].done + 1 == |s.ops[op].parts|
    ensures Attached(NextLink(s, op).t, IdOf(s.ops[op].parts))
  {
    var o := s.ops[op];
    assert GoodOp(s.t, o);
    LinkStep(s.t, Gone(s.removals), o);
    assert o.parts[..o.done + 1] == o.parts;
  }

  /** In every safe run the last link of a store leaves the stored path attached, whatever other operations did. */
  lemma FinishedStoreIsAttached(es: seq<Event>, op: nat)
    requires SafeRun(START, es) && op in Run(START, es).ops
    requires var o := Run(START, es).ops[op]; o.isSet && o.done + 1 == |o.parts|
    ensures Attached(NextLink(Run(START, es), op).t, IdOf(Run(START, es).ops[op].parts))
  {
    RunKeepsInv(START, es);
    LastLinkAttaches(Run(START, es), op);
  }

  /** However the steps of stores interleave, and wherever they stop, a run of stores alone is safe. */
  lemma {:induction false} StoresAreSafe(s: Forest, es: seq<Event>)
    requires s.removals == map[]
    requires forall k :: 0 <= k < |es| ==> es[k].StartStore? || es[k].SetPrefix? || es[k].LinkPrefix? || es[k].Stop?
    ensures SafeRun(s, es)
    decreases |es|
  {
    if es != [] {
      StoresAreSafe(Next(s, es[0]), es[1..]);
    }
  }
}
