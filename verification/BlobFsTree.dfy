/** The blobfs tree: node metadata by id and child links, two flat collections that together encode a tree. */
module BlobFsTree {
  import opened Paths

  /** `GenerateFsID(path)`; that it is a constructor is the assumption that ids do not collide. The root has no
      parent. */
  datatype FsId = NoId | FsId(path: string)

  /** The directory bit of a mode word, and the other bits. */
  datatype Mode = Mode(isDir: bool, bits: nat)

  datatype FileHash = NoHash | ContentHash(hash: string) | DirHash(id: FsId)

  /** The metadata fields that the tree depends on. */
  datatype Meta = Meta(pid: FsId, id: FsId, name: string, path: string, mode: Mode, hash: FileHash, size: nat)

  datatype Tree = Tree(nodes: map<FsId, Meta>, links: set<(FsId, FsId)>)
  {
    function SetNode(id: FsId, meta: Meta): Tree {
      this.(nodes := nodes[id := meta])
    }

    function AddChild(parent: FsId, child: FsId): Tree {
      this.(links := links + {(parent, child)})
    }

    function RemoveNode(id: FsId): Tree {
      this.(nodes := nodes - {id})
    }

    function RemoveChild(parent: FsId, child: FsId): Tree {
      this.(links := links - {(parent, child)})
    }
  }

  const ROOT := FsId("/")

  function IdOf(parts: seq<string>): FsId {
    FsId(Render(parts))
  }

  /** Metadata under its own id, with a clean path and, below the root, the name and parent id that the path gives. */
  ghost predicate GoodNode(id: FsId, m: Meta) {
    var parts := Parts(m.path);
    && id == m.id == FsId(m.path) && m.path == Render(parts)
    && (parts != [] ==> m.name == parts[|parts| - 1] && m.pid == IdOf(parts[..|parts| - 1]))
  }

  /** `id` is the root, or a node that its parent links to. */
  ghost predicate Attached(t: Tree, id: FsId) {
    id == ROOT || (id in t.nodes && (t.nodes[id].pid, id) in t.links)
  }

  /** Every link goes from an attached node to an existing node below the root whose parent id is that node. */
  ghost predicate LinksSound(t: Tree) {
    forall p, c :: (p, c) in t.links ==> c in t.nodes && c != ROOT && t.nodes[c].pid == p && Attached(t, p)
  }

  /** The tree: its links are sound, and every node is stored under its own id with the name and parent of its path. */
  ghost predicate Inv(t: Tree) {
    (forall id :: id in t.nodes ==> GoodNode(id, t.nodes[id])) && LinksSound(t)
  }

  const EMPTY := Tree(map[], {})

  // ---- what the invariant means -----------------------------------------------------

  lemma RootParts()
    ensures Parts("/") == [] && Render([]) == "/"
  {
    PartsRender([]);
    assert Render([]) == "/";
  }

  /** A linked node's path is its parent's path joined with its name, one component and at least one byte longer. */
  lemma LinkExtends(t: Tree, p: FsId, c: FsId)
    requires Inv(t) && (p, c) in t.links
    ensures p.FsId? && c.FsId? && c in t.nodes
    ensures t.nodes[c].pid == p && t.nodes[c].path == c.path == Join(p.path, t.nodes[c].name)
    ensures |Parts(c.path)| == |Parts(p.path)| + 1 && |p.path| < |c.path|
    ensures p == ROOT || p in t.nodes
  {
    RootParts();
    GoodPath(c, t.nodes[c]);
  }

  /** The path of a good node below the root extends that of its parent id. */
  lemma GoodPath(id: FsId, m: Meta)
    requires GoodNode(id, m) && Parts(m.path) != []
    ensures m.pid.FsId? && m.path == Join(m.pid.path, m.name)
    ensures |Parts(m.path)| == |Parts(m.pid.path)| + 1 && |m.pid.path| < |m.path|
  {
    var parts := Parts(m.path);
    var up, name := parts[..|parts| - 1], parts[|parts| - 1];
    assert parts == up + [name];
    JoinRender(up, name);
    RenderGrows(up, name);
    PartsRender(up);
  }

  /** Consecutive ids are linked. */
  ghost predicate IsPath(t: Tree, ids: seq<FsId>) {
    forall i :: 0 <= i < |ids| - 1 ==> (ids[i], ids[i + 1]) in t.links
  }

  /** Every attached node is reached from the root by links, one for each component of its path. */
  lemma {:induction false} ReachableFromRoot(t: Tree, id: FsId) returns (ids: seq<FsId>)
    requires Inv(t) && Attached(t, id)
    ensures IsPath(t, ids) && ids != [] && ids[0] == ROOT && ids[|ids| - 1] == id
    ensures id.FsId? && |ids| == |Parts(id.path)| + 1
    decreases if id.FsId? then |Parts(id.path)| else 0
  {
    RootParts();
    if id == ROOT {
      return [ROOT];
    }
    var p := t.nodes[id].pid;
    LinkExtends(t, p, id);
    var up := ReachableFromRoot(t, p);
    ids := up + [id];
    PathGrows(t, up, id);
  }

  lemma PathGrows(t: Tree, ids: seq<FsId>, id: FsId)
    requires IsPath(t, ids) && ids != [] && (ids[|ids| - 1], id) in t.links
    ensures IsPath(t, ids + [id])
  {
  }

  /** Links never lead back: along any path of links the paths get longer. */
  lemma {:induction false} NoCycle(t: Tree, ids: seq<FsId>)
    requires Inv(t) && IsPath(t, ids) && |ids| > 1
    ensures ids[0].FsId? && ids[|ids| - 1].FsId? && |ids[0].path| < |ids[|ids| - 1].path|
    ensures ids[0] != ids[|ids| - 1]
  {
    var n := |ids| - 2;
    LinkExtends(t, ids[n], ids[n + 1]);
    if n > 0 {
      NoCycle(t, ids[..n + 1]);
    }
  }

  /** Each node has at most one parent. */
  lemma OneParent(t: Tree, p: FsId, q: FsId, c: FsId)
    requires Inv(t) && (p, c) in t.links && (q, c) in t.links
    ensures p == q
  {
  }

  // ---- what each coordinator call keeps ------------------------------------------------

  /** Writing the metadata of a node that has its id's own parent keeps the tree, linked or not. */
  lemma SetNodeKeepsInv(t: Tree, id: FsId, m: Meta)
    requires Inv(t) && GoodNode(id, m)
    ensures Inv(t.SetNode(id, m))
    ensures forall x :: Attached(t, x) ==> Attached(t.SetNode(id, m), x)
  {
    if id in t.nodes {
      SameParent(id, t.nodes[id], m);
    }
    SetLinks(t, id, m);
  }

  lemma SetLinks(t: Tree, id: FsId, m: Meta)
    requires LinksSound(t) && (id in t.nodes && id != ROOT ==> t.nodes[id].pid == m.pid)
    ensures LinksSound(t.SetNode(id, m))
    ensures forall x :: Attached(t, x) ==> Attached(t.SetNode(id, m), x)
  {
    var u := t.SetNode(id, m);
    forall p, c | (p, c) in u.links ensures c in u.nodes && c != ROOT && u.nodes[c].pid == p && Attached(u, p) {
      assert (p, c) in t.links;
    }
  }

  lemma SameParent(id: FsId, m: Meta, m': Meta)
    requires GoodNode(id, m) && GoodNode(id, m')
    ensures id != ROOT ==> m.pid == m'.pid
  {
    RootParts();
  }

  /** Linking an existing node under its attached parent keeps the tree. */
  lemma AddChildKeepsInv(t: Tree, p: FsId, c: FsId)
    requires Inv(t) && c in t.nodes && c != ROOT && t.nodes[c].pid == p && Attached(t, p)
    ensures Inv(t.AddChild(p, c)) && Attached(t.AddChild(p, c), c)
    ensures forall x :: Attached(t, x) ==> Attached(t.AddChild(p, c), x)
  {
  }

  ghost predicate Childless(t: Tree, id: FsId) {
    forall c :: (id, c) !in t.links
  }

  lemma StaysAttached(t: Tree, p: FsId, c: FsId, x: FsId)
    requires x != c && Attached(t, x)
    ensures Attached(t.RemoveNode(c).RemoveChild(p, c), x) && Attached(t.RemoveNode(c), x)
  {
  }

  lemma RemoveChildless(t: Tree, p: FsId, c: FsId)
    requires Inv(t) && c != ROOT && (c in t.nodes ==> t.nodes[c].pid == p) && Childless(t, c)
    ensures Inv(t.RemoveNode(c).RemoveChild(p, c))
    ensures forall x :: x != c && Attached(t, x) ==> Attached(t.RemoveNode(c).RemoveChild(p, c), x)
  {
    forall x | x != c && Attached(t, x) ensures Attached(t.RemoveNode(c).RemoveChild(p, c), x) {
      StaysAttached(t, p, c, x);
    }
    RemovedLinks(t, p, c);
  }

  lemma RemovedLinks(t: Tree, p: FsId, c: FsId)
    requires LinksSound(t) && (c in t.nodes ==> t.nodes[c].pid == p) && Childless(t, c)
    ensures LinksSound(t.RemoveNode(c).RemoveChild(p, c))
  {
    var u := t.RemoveNode(c).RemoveChild(p, c);
    forall x, y | (x, y) in u.links ensures y in u.nodes && y != ROOT && u.nodes[y].pid == x && Attached(u, x) {
      assert (x, y) in t.links;
      StaysAttached(t, p, c, x);
    }
  }

  /** Removing a node and the link to it keeps the tree exactly when nothing is linked below it. */
  lemma RemoveKeepsInvIff(t: Tree, p: FsId, c: FsId)
    requires Inv(t) && c != ROOT && (c in t.nodes ==> t.nodes[c].pid == p)
    ensures Inv(t.RemoveNode(c).RemoveChild(p, c)) <==> Childless(t, c)
  {
    if Childless(t, c) {
      RemoveChildless(t, p, c);
    } else {
      var d :| (c, d) in t.links;
      LinkExtends(t, c, d);
      assert (c, d) in t.RemoveNode(c).RemoveChild(p, c).links;
    }
  }

  /** Removing only the node, as when the call for its link fails, keeps the tree exactly when no link touches it. */
  lemma RemoveNodeKeepsInvIff(t: Tree, c: FsId)
    requires Inv(t) && c != ROOT
    ensures Inv(t.RemoveNode(c)) <==> Childless(t, c) && forall p :: (p, c) !in t.links
  {
    var u := t.RemoveNode(c);
    if Childless(t, c) && forall p :: (p, c) !in t.links {
      UntouchedLinks(t, c);
    } else if !Childless(t, c) {
      var d :| (c, d) in t.links;
      assert (c, d) in u.links && !Attached(u, c);
    } else {
      var p :| (p, c) in t.links;
      assert (p, c) in u.links;
    }
  }

  lemma UntouchedLinks(t: Tree, c: FsId)
    requires LinksSound(t) && Childless(t, c) && forall p :: (p, c) !in t.links
    ensures LinksSound(t.RemoveNode(c))
  {
    var u := t.RemoveNode(c);
    forall x, y | (x, y) in u.links ensures y in u.nodes && y != ROOT && u.nodes[y].pid == x && Attached(u, x) {
      assert (x, y) in t.links;
      StaysAttached(t, ROOT, c, x);
    }
  }
}
