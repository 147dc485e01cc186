/** The tree while removals are between their two calls: the node is gone and the link to it may still be there. */
module PartialTree {
  import opened Paths
  import opened BlobFsTree

  /** `p` is the id of the parent that the path of `c` gives. */
  ghost predicate ChildId(p: FsId, c: FsId) {
    c.FsId? && var parts := Parts(c.path); c.path == Render(parts) && parts != [] && p == IdOf(parts[..|parts| - 1])
  }

  /** Every link goes from an attached node to its own child, which is there or among the `gone` ones. */
  ghost predicate InvExcept(t: Tree, gone: set<FsId>) {
    && (forall id :: id in t.nodes ==> GoodNode(id, t.nodes[id]))
    && (forall p, c :: (p, c) in t.links ==> ChildId(p, c) && Attached(t, p) && (c in t.nodes || c in gone))
  }

  lemma ChildIsNotRoot(p: FsId, c: FsId)
    requires ChildId(p, c)
    ensures c != ROOT
  {
    RootParts();
  }

  /** A good node below the root is the child of its parent id. */
  lemma GoodChild(id: FsId, m: Meta)
    requires GoodNode(id, m) && id != ROOT
    ensures ChildId(m.pid, id)
  {
    RootParts();
  }

  lemma OneParentId(p: FsId, q: FsId, c: FsId)
    requires ChildId(p, c) && ChildId(q, c)
    ensures p == q
  {
  }

  lemma NotItsOwnChild(p: FsId, c: FsId)
    requires ChildId(p, c)
    ensures p != c && p.FsId? && |p.path| < |c.path| && |Parts(c.path)| == |Parts(p.path)| + 1
    ensures c.path == Join(p.path, Parts(c.path)[|Parts(c.path)| - 1])
  {
    var parts := Parts(c.path);
    var up, name := parts[..|parts| - 1], parts[|parts| - 1];
    assert parts == up + [name];
    JoinRender(up, name);
    RenderGrows(up, name);
    PartsRender(up);
  }

  lemma ChildOfParts(parent: seq<string>, name: string)
    requires AllNames(parent) && IsName(name)
    ensures ChildId(IdOf(parent), IdOf(parent + [name]))
  {
    PartsRender(parent + [name]);
    assert (parent + [name])[..|parent|] == parent;
  }

  lemma ChildOfPrefix(parts: seq<string>, k: nat)
    requires AllNames(parts) && k < |parts|
    ensures ChildId(IdOf(parts[..k]), IdOf(parts[..k + 1]))
  {
    assert parts[..k + 1] == parts[..k] + [parts[k]];
    ChildOfParts(parts[..k], parts[k]);
  }

  /** With nothing gone this is the tree. */
  lemma NothingGone(t: Tree)
    requires InvExcept(t, {})
    ensures Inv(t)
  {
    forall p, c | (p, c) in t.links ensures c in t.nodes && c != ROOT && t.nodes[c].pid == p && Attached(t, p) {
      ParentOf(t, p, c);
    }
  }

  lemma ParentOf(t: Tree, p: FsId, c: FsId)
    requires ChildId(p, c) && c in t.nodes && GoodNode(c, t.nodes[c])
    ensures c != ROOT && t.nodes[c].pid == p
  {
    ChildIsNotRoot(p, c);
    GoodChild(c, t.nodes[c]);
    OneParentId(p, t.nodes[c].pid, c);
  }

  /** The tree without the links to nodes that are not there. */
  function Settled(t: Tree): Tree {
    t.(links := set l | l in t.links && l.1 in t.nodes)
  }

  /** It is a tree whatever is gone, with the same attached nodes. */
  lemma SettledIsTree(t: Tree, gone: set<FsId>)
    requires InvExcept(t, gone)
    ensures Inv(Settled(t)) && forall x :: Attached(t, x) ==> Attached(Settled(t), x)
  {
    var u := Settled(t);
    assert InvExcept(u, {}) by {
      forall p, c | (p, c) in u.links ensures ChildId(p, c) && Attached(u, p) && c in u.nodes {
        assert (p, c) in t.links;
      }
    }
    NothingGone(u);
  }

  // ---- what each call keeps -----------------------------------------------------------

  lemma SetNodeAttached(t: Tree, id: FsId, m: Meta, x: FsId)
    requires (id in t.nodes ==> GoodNode(id, t.nodes[id])) && GoodNode(id, m) && Attached(t, x)
    ensures Attached(t.SetNode(id, m), x)
  {
    if x == id && id != ROOT {
      SameParent(id, t.nodes[id], m);
    }
  }

  lemma SetNodeKeeps(t: Tree, gone: set<FsId>, id: FsId, m: Meta)
    requires InvExcept(t, gone) && GoodNode(id, m)
    ensures InvExcept(t.SetNode(id, m), gone)
    ensures forall x :: Attached(t, x) ==> Attached(t.SetNode(id, m), x)
  {
    forall x | Attached(t, x) ensures Attached(t.SetNode(id, m), x) {
      SetNodeAttached(t, id, m, x);
    }
  }

  lemma AddChildKeeps(t: Tree, gone: set<FsId>, p: FsId, c: FsId)
    requires InvExcept(t, gone) && ChildId(p, c) && Attached(t, p) && c in t.nodes
    ensures InvExcept(t.AddChild(p, c), gone) && Attached(t.AddChild(p, c), c)
    ensures forall x :: Attached(t, x) ==> Attached(t.AddChild(p, c), x)
  {
    ParentOf(t, p, c);
  }

  lemma RemovedAttached(t: Tree, c: FsId, x: FsId)
    requires c != ROOT
    ensures Attached(t.RemoveNode(c), x) <==> x != c && Attached(t, x)
  {
  }

  /** The first call of a removal keeps the tree exactly when nothing is linked below the node. */
  lemma RemoveNodeIff(t: Tree, gone: set<FsId>, c: FsId)
    requires InvExcept(t, gone) && c != ROOT
    ensures InvExcept(t.RemoveNode(c), gone + {c}) <==> Childless(t, c)
    ensures forall x :: Attached(t.RemoveNode(c), x) <==> x != c && Attached(t, x)
  {
    var u := t.RemoveNode(c);
    forall x ensures Attached(u, x) <==> x != c && Attached(t, x) {
      RemovedAttached(t, c, x);
    }
    if Childless(t, c) {
      forall x, y | (x, y) in u.links ensures ChildId(x, y) && Attached(u, x) && (y in u.nodes || y in gone + {c}) {
        assert (x, y) in t.links;
      }
    } else {
      var d :| (c, d) in t.links;
      assert (c, d) in u.links && !Attached(u, c);
    }
  }

  lemma UnlinkAttached(t: Tree, p: FsId, c: FsId, x: FsId)
    requires ChildId(p, c) && (c in t.nodes ==> GoodNode(c, t.nodes[c]))
    ensures Attached(t.RemoveChild(p, c), x) <==> x != c && Attached(t, x)
  {
    ChildIsNotRoot(p, c);
    if c in t.nodes {
      ParentOf(t, p, c);
    }
  }

  /** The second call keeps it exactly when nothing is linked below the node by then, and settles its removal. */
  lemma RemoveLinkIff(t: Tree, gone: set<FsId>, p: FsId, c: FsId, left: set<FsId>)
    requires InvExcept(t, gone) && ChildId(p, c) && gone - {c} <= left <= gone
    ensures InvExcept(t.RemoveChild(p, c), left) <==> Childless(t, c)
    ensures forall x :: Attached(t.RemoveChild(p, c), x) <==> x != c && Attached(t, x)
  {
    var u := t.RemoveChild(p, c);
    forall x ensures Attached(u, x) <==> x != c && Attached(t, x) {
      UnlinkAttached(t, p, c, x);
    }
    if Childless(t, c) {
      forall x, y | (x, y) in u.links ensures ChildId(x, y) && Attached(u, x) && (y in u.nodes || y in left) {
        assert (x, y) in t.links;
        if y == c {
          OneParentId(p, x, c);
        }
      }
    } else {
      var d :| (c, d) in t.links;
      NotItsOwnChild(c, d);
      assert (c, d) in u.links;
    }
  }
}
