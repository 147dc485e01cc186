/** The operations on the blobfs tree, as sequences of coordinator calls any of which may fail on the way there or on
    the way back. */
module BlobFsOps {
  import opened Paths
  import opened BlobFsTree
  import opened MockCoordinator
  import Text

  /** `fuse.S_IFDIR | 0755`. */
  const DIR_MODE := Mode(true, 0x1ed)

  datatype Stat = NotThere | Found(mode: Mode, isDir: bool)

  /** The metadata that the store gives the node of the first `k` components: the file's own for the last one, those
      of a directory for every proper prefix. */
  function PrefixMeta(parts: seq<string>, k: nat, hash: string, size: nat, stat: Stat): Meta
    requires 0 < k <= |parts| && (k == |parts| ==> stat.Found?)
  {
    var id := IdOf(parts[..k]);
    var dir := Meta(IdOf(parts[..k - 1]), id, parts[k - 1], Render(parts[..k]), DIR_MODE, NoHash, 0);
    if k < |parts| then dir
    else if stat.isDir then dir.(mode := stat.mode, hash := DirHash(id), size := 0)
    else dir.(mode := stat.mode, hash := ContentHash(hash), size := size)
  }

  /** Prefix `j` is in the tree with its metadata and linked under the one before. */
  ghost predicate PrefixStored(t: Tree, parts: seq<string>, j: nat, hash: string, size: nat, stat: Stat)
    requires 0 < j <= |parts| && (j == |parts| ==> stat.Found?)
  {
    && IdOf(parts[..j]) in t.nodes && t.nodes[IdOf(parts[..j])] == PrefixMeta(parts, j, hash, size, stat)
    && (IdOf(parts[..j - 1]), IdOf(parts[..j])) in t.links
  }

  /** The first `k` prefixes are stored. */
  ghost predicate PrefixesStored(t: Tree, parts: seq<string>, k: nat, hash: string, size: nat, stat: Stat)
    requires k <= |parts| && (k > 0 && k == |parts| ==> stat.Found?)
  {
    forall j :: 0 < j <= k ==> PrefixStored(t, parts, j, hash, size, stat)
  }

  lemma PrefixMetaGood(parts: seq<string>, k: nat, hash: string, size: nat, stat: Stat)
    requires AllNames(parts) && 0 < k <= |parts| && (k == |parts| ==> stat.Found?)
    ensures GoodNode(IdOf(parts[..k]), PrefixMeta(parts, k, hash, size, stat)) && IdOf(parts[..k]) != ROOT
  {
    PartsRender(parts[..k]);
    RootParts();
    assert parts[..k][..k - 1] == parts[..k - 1];
  }

  lemma PrefixIdsDiffer(parts: seq<string>, j: nat, k: nat)
    requires AllNames(parts) && j < k <= |parts|
    ensures IdOf(parts[..j]) != IdOf(parts[..k])
  {
    if IdOf(parts[..j]) == IdOf(parts[..k]) {
      RenderInjective(parts[..j], parts[..k]);
    }
  }

  /** The two coordinator calls for prefix `k` of a store keep the tree and attach the prefix. */
  lemma StorePrefix(t: Tree, parts: seq<string>, k: nat, hash: string, size: nat, stat: Stat)
    requires Inv(t) && AllNames(parts) && 0 < k <= |parts| && (k == |parts| ==> stat.Found?)
    requires Attached(t, IdOf(parts[..k - 1]))
    ensures var u := t.SetNode(IdOf(parts[..k]), PrefixMeta(parts, k, hash, size, stat));
            var v := u.AddChild(IdOf(parts[..k - 1]), IdOf(parts[..k]));
            Inv(u) && Inv(v) && Attached(v, IdOf(parts[..k]))
  {
    var id, m := IdOf(parts[..k]), PrefixMeta(parts, k, hash, size, stat);
    PrefixMetaGood(parts, k, hash, size, stat);
    SetNodeKeepsInv(t, id, m);
    AddChildKeepsInv(t.SetNode(id, m), m.pid, id);
  }

  /** And they leave the earlier prefixes in place. */
  lemma StorePrefixAdds(t: Tree, parts: seq<string>, k: nat, hash: string, size: nat, stat: Stat)
    requires AllNames(parts) && 0 < k <= |parts| && (k == |parts| ==> stat.Found?)
    requires PrefixesStored(t, parts, k - 1, hash, size, stat)
    ensures var u := t.SetNode(IdOf(parts[..k]), PrefixMeta(parts, k, hash, size, stat));
            PrefixesStored(u.AddChild(IdOf(parts[..k - 1]), IdOf(parts[..k])), parts, k, hash, size, stat)
  {
    var u := t.SetNode(IdOf(parts[..k]), PrefixMeta(parts, k, hash, size, stat));
    var v := u.AddChild(IdOf(parts[..k - 1]), IdOf(parts[..k]));
    forall j | 0 < j <= k ensures PrefixStored(v, parts, j, hash, size, stat) {
      if j < k {
        PrefixIdsDiffer(parts, j, k);
        assert PrefixStored(t, parts, j, hash, size, stat);
      }
    }
  }

  /** Storing under the root itself links the root to itself, which is no tree. It takes a direct call: the server's own
      caller first reads the path as a file, and that fails for the root. */
  lemma StoreRootBreaks(t: Tree, m: Meta)
    ensures !Inv(t.SetNode(ROOT, m).AddChild(ROOT, ROOT))
  {
    assert (ROOT, ROOT) in t.SetNode(ROOT, m).AddChild(ROOT, ROOT).links;
  }

  /** Sets a node and links it under its parent; either call may fail, whether or not it took effect. */
  method SetAndLink(c: MockCoordinator, pid: FsId, id: FsId, metadata: Meta) returns (ok: bool)
    requires c.Valid()
    modifies c
    ensures c.Valid()
    ensures ok ==> c.T() == old(c.T()).SetNode(id, metadata).AddChild(pid, id)
    ensures || c.T() == old(c.T()) || c.T() == old(c.T()).SetNode(id, metadata)
            || c.T() == old(c.T()).SetNode(id, metadata).AddChild(pid, id)
  {
    var sent: bool, answered: bool := *, *;
    if sent {
      c.SetFsNode(id, metadata);
    }
    if !answered || !sent {
      return false;
    }
    sent, answered := *, *;
    if sent {
      c.AddFsNodeChild(pid, id);
    }
    return answered && sent;
  }

  /** A store of the path `names` before component `i` of the split path; component 0 is the empty one of the root. */
  ghost predicate Progress(t: Tree, names: seq<string>, i: nat, currentPath: string, parent: FsId, hash: string,
                           size: nat, stat: Stat) {
    if i == 0 || (i == 1 && names == []) then
      Inv(t) && currentPath == "/" && parent == ROOT
    else if names == [] then
      !Inv(t) && stat.Found?
    else
      && i - 1 <= |names| && (i - 1 == |names| ==> stat.Found?)
      && currentPath == Render(names[..i - 1]) && parent == IdOf(names[..i - 1])
      && Inv(t) && Attached(t, parent) && PrefixesStored(t, names, i - 1, hash, size, stat)
  }

  lemma ProgressStart(t: Tree, names: seq<string>, hash: string, size: nat, stat: Stat)
    requires AllNames(names) && Inv(t)
    ensures Progress(t, names, 0, "/", ROOT, hash, size, stat) && Progress(t, names, 1, "/", ROOT, hash, size, stat)
  {
    RootParts();
    assert names[..0] == [];
  }

  lemma ProgressSkip(t: Tree, names: seq<string>, currentPath: string, parent: FsId, hash: string, size: nat,
                     stat: Stat)
    requires AllNames(names) && Progress(t, names, 0, currentPath, parent, hash, size, stat)
    ensures Progress(t, names, 1, currentPath, parent, hash, size, stat)
  {
    ProgressStart(t, names, hash, size, stat);
  }

  /** What a store that went through all components has done. */
  lemma ProgressEnd(t: Tree, names: seq<string>, i: nat, currentPath: string, parent: FsId, hash: string, size: nat,
                    stat: Stat)
    requires Progress(t, names, i, currentPath, parent, hash, size, stat) && i == if names == [] then 2 else |names| + 1
    ensures stat.Found? && (names == [] ==> !Inv(t))
    ensures names != [] ==> Inv(t) && PrefixesStored(t, names, |names|, hash, size, stat)
  {
  }

  /** The components of a split path: the empty one of the root, then the names; another empty one for the root
      itself. */
  ghost predicate SplitOf(parts: seq<string>, names: seq<string>) {
    && |parts| == (if names == [] then 2 else |names| + 1) && parts[0] == ""
    && forall i :: 0 < i < |parts| ==> parts[i] == if names == [] then "" else names[i - 1]
  }

  /** The path and parent of prefix `i`. */
  lemma PathAt(names: seq<string>, i: nat, currentPath: string)
    requires AllNames(names) && 1 <= i <= |names| && currentPath == Render(names[..i - 1])
    ensures Join(currentPath, names[i - 1]) == Render(names[..i])
    ensures Join(currentPath, names[i - 1]) == Render(names) <==> i == |names|
  {
    JoinRender(names[..i - 1], names[i - 1]);
    assert names[..i] == names[..i - 1] + [names[i - 1]];
    LastPrefixOnly(names, i);
  }

  /** The step of a store below the root. */
  lemma ProgressNext(t: Tree, names: seq<string>, i: nat, currentPath: string, parent: FsId, hash: string, size: nat,
                     stat: Stat)
    requires AllNames(names) && 1 <= i <= |names| && (i == |names| ==> stat.Found?)
    requires Progress(t, names, i, currentPath, parent, hash, size, stat)
    ensures var m := PrefixMeta(names, i, hash, size, stat);
            && parent == m.pid && Inv(t.SetNode(m.id, m)) && Inv(t.SetNode(m.id, m).AddChild(parent, m.id))
            && Progress(t.SetNode(m.id, m).AddChild(parent, m.id), names, i + 1, m.path, m.id, hash, size, stat)
  {
    StorePrefix(t, names, i, hash, size, stat);
    StorePrefixAdds(t, names, i, hash, size, stat);
  }

  /** The metadata of one component: those of the stored file or directory at the whole path, else of a directory. */
  function PartMeta(parent: FsId, part: string, path: string, whole: bool, hash: string, size: nat, stat: Stat): Meta
    requires whole ==> stat.Found?
  {
    var dir := Meta(parent, FsId(path), part, path, DIR_MODE, NoHash, 0);
    if !whole then dir
    else if stat.isDir then dir.(mode := stat.mode, hash := DirHash(FsId(path)), size := 0)
    else dir.(mode := stat.mode, hash := ContentHash(hash), size := size)
  }

  /** One component of a store: below the root either call keeps the tree, and both make progress. */
  lemma ProgressStep(t: Tree, names: seq<string>, i: nat, before: string, part: string, parent: FsId, hash: string,
                     size: nat, stat: Stat)
    requires AllNames(names) && Progress(t, names, i, before, parent, hash, size, stat)
    requires if names == [] then i == 1 && part == "" else 1 <= i <= |names| && part == names[i - 1]
    requires Join(before, part) == Render(names) ==> stat.Found?
    ensures var path := Join(before, part);
            var m := PartMeta(parent, part, path, path == Render(names), hash, size, stat);
            && (names != [] ==> Inv(t.SetNode(m.id, m)) && Inv(t.SetNode(m.id, m).AddChild(parent, m.id)))
            && Progress(t.SetNode(m.id, m).AddChild(parent, m.id), names, i + 1, path, m.id, hash, size, stat)
  {
    if names == [] {
      JoinRoot();
      StoreRootBreaks(t, PartMeta(ROOT, "", "/", true, hash, size, stat));
    } else {
      PathAt(names, i, before);
      ProgressNext(t, names, i, before, parent, hash, size, stat);
    }
  }

  /** One pass over a component of the path. */
  method StorePart(c: MockCoordinator, clean: string, ghost names: seq<string>, ghost i: nat, path: string,
                   part: string, parent: FsId, hash: string, size: nat, stat: Stat)
    returns (ok: bool, currentPath: string, currentNodeId: FsId)
    requires c.Valid() && AllNames(names) && clean == Render(names)
    requires if names == [] then i == 1 && part == "" else 1 <= i <= |names| && part == names[i - 1]
    requires Progress(c.T(), names, i, path, parent, hash, size, stat)
    modifies c
    ensures c.Valid() && (names != [] ==> Inv(c.T()))
    ensures ok ==> Progress(c.T(), names, i + 1, currentPath, currentNodeId, hash, size, stat)
  {
    currentPath := Join(path, part);
    currentNodeId := FsId(currentPath);
    if currentPath == clean && stat.NotThere? {
      return false, currentPath, currentNodeId;
    }
    var metadata := PartMeta(parent, part, currentPath, currentPath == clean, hash, size, stat);
    ProgressStep(c.T(), names, i, path, part, parent, hash, size, stat);
    ok := SetAndLink(c, parent, currentNodeId, metadata);
  }

  /** Builds the path hierarchy of a stored file: for each prefix of the cleaned path sets the node and links it under
      the previous one. It may stop at any call, whether or not that call took effect. */
  method StoreContentInBlobFs(c: MockCoordinator, path: string, hash: string, size: nat, stat: Stat) returns (ok: bool)
    requires c.Valid() && Inv(c.T())
    modifies c
    ensures c.Valid()
    // below the root the tree is kept however far the store got; at the root it is not once the store is through
    ensures Parts(path) != [] ==> Inv(c.T())
    ensures Parts(path) == [] && ok ==> !Inv(c.T())
    ensures ok ==> stat.Found?
    ensures ok && Parts(path) != [] ==> PrefixesStored(c.T(), Parts(path), |Parts(path)|, hash, size, stat)
  {
    var clean := Clean(path);
    var parts := Text.Split(clean, '/');
    SplitRender(Parts(path));
    assert SplitOf(parts, Parts(path));
    ok := StoreParts(c, clean, parts, Parts(path), hash, size, stat);
  }

  /** The loop over the components. */
  method StoreParts(c: MockCoordinator, clean: string, parts: seq<string>, ghost names: seq<string>, hash: string,
                    size: nat, stat: Stat) returns (ok: bool)
    requires c.Valid() && Inv(c.T()) && AllNames(names) && clean == Render(names)
    requires SplitOf(parts, names)
    modifies c
    ensures c.Valid() && (names != [] ==> Inv(c.T()))
    ensures ok ==> stat.Found? && (names == [] ==> !Inv(c.T()))
    ensures ok && names != [] ==> PrefixesStored(c.T(), names, |names|, hash, size, stat)
  {
    var currentPath, previousParentId := "/", ROOT;
    ghost var t := c.T();
    ProgressStart(t, names, hash, size, stat);
    for i := 0 to |parts|
      invariant c.Valid() && c.T() == t
      invariant Progress(t, names, i, currentPath, previousParentId, hash, size, stat)
    {
      if i == 0 && parts[i] == "" {
        ProgressSkip(t, names, currentPath, previousParentId, hash, size, stat);
        continue;
      }
      ok, currentPath, previousParentId :=
        StorePart(c, clean, names, i, currentPath, parts[i], previousParentId, hash, size, stat);
      if !ok {
        return;
      }
      t := c.T();
    }
    ProgressEnd(t, names, |parts|, currentPath, previousParentId, hash, size, stat);
    ok := true;
  }

  /** The rebuilt prefix is the whole path at the last component and nowhere before. */
  lemma LastPrefixOnly(parts: seq<string>, k: nat)
    requires AllNames(parts) && k <= |parts|
    ensures Render(parts[..k]) == Render(parts) <==> k == |parts|
  {
    assert parts[..|parts|] == parts;
    if k < |parts| {
      PrefixIdsDiffer(parts, k, |parts|);
    }
  }

  lemma JoinRoot()
    ensures Join("/", "") == "/"
  {
    assert "/" + "/" + "" == "" + ['/'] + ("" + ['/'] + "");
    Text.SplitCons("", '/', "" + ['/'] + "");
    Text.SplitCons("", '/', "");
    assert Text.Split("//", '/') == ["", "", ""];
    assert ["", "", ""][1..][1..][1..] == [];
    RootParts();
  }

  // ---- operations of the mounted filesystem -----------------------------------------------

  /** An inode of the mounted filesystem. */
  datatype BlobFsNode = BlobFsNode(path: string, id: FsId)

  datatype Errno = OK | EIO | ENOTEMPTY | ENOENT

  /** The inode stands for an attached node of the tree. */
  ghost predicate Live(t: Tree, n: BlobFsNode) {
    n.id == FsId(n.path) && n.path == Clean(n.path) && Attached(t, n.id)
  }

  /** The id of the child `name` of `n`, and what it is to be a good node under it. */
  lemma ChildOf(n: BlobFsNode, name: string, m: Meta)
    requires n.id == FsId(n.path) && n.path == Clean(n.path) && IsName(name)
    requires m.pid == n.id && m.name == name && m.path == Join(n.path, name) && m.id == FsId(m.path)
    ensures GoodNode(m.id, m) && m.id != ROOT
  {
    var up := Parts(n.path);
    JoinRender(up, name);
    RootParts();
    assert (up + [name])[..|up|] == up;
  }

  lemma ChildPid(t: Tree, n: BlobFsNode, name: string)
    requires Inv(t) && n.id == FsId(n.path) && n.path == Clean(n.path) && IsName(name)
    ensures var id := FsId(Join(n.path, name)); id != ROOT && (id in t.nodes ==> t.nodes[id].pid == n.id)
  {
    var up := Parts(n.path);
    JoinRender(up, name);
    RootParts();
    assert (up + [name])[..|up|] == up;
    var id := FsId(Join(n.path, name));
    if id in t.nodes {
      assert GoodNode(id, t.nodes[id]);
    }
  }

  /** The tree with the new node set and linked below `n`. */
  function Created(t: Tree, n: BlobFsNode, name: string, mode: Mode): Tree {
    var path := Join(n.path, name);
    t.SetNode(FsId(path), Meta(n.id, FsId(path), name, path, mode, NoHash, 0)).AddChild(n.id, FsId(path))
  }

  /** Creates a file (or, with the directory bit, a directory) below a live inode. */
  method CreateNode(c: MockCoordinator, n: BlobFsNode, name: string, mode: Mode) returns (errno: Errno)
    requires c.Valid() && Inv(c.T()) && Live(c.T(), n) && IsName(name)
    modifies c
    ensures c.Valid() && Inv(c.T()) && Live(c.T(), n)
    ensures errno.OK? ==> Attached(c.T(), FsId(Join(n.path, name)))
    ensures errno.OK? ==> c.T() == Created(old(c.T()), n, name, mode)
    ensures errno.OK? || errno.EIO?
  {
    var fullPath := Join(n.path, name);
    var newFsId := FsId(fullPath);
    var metadata := Meta(n.id, newFsId, name, fullPath, mode, NoHash, 0);
    ChildOf(n, name, metadata);
    SetNodeKeepsInv(c.T(), newFsId, metadata);
    AddChildKeepsInv(c.T().SetNode(newFsId, metadata), n.id, newFsId);
    var ok := SetAndLink(c, n.id, newFsId, metadata);
    return if ok then OK else EIO;
  }

  method Create(c: MockCoordinator, n: BlobFsNode, name: string, mode: Mode) returns (errno: Errno)
    requires c.Valid() && Inv(c.T()) && Live(c.T(), n) && IsName(name)
    modifies c
    ensures c.Valid() && Inv(c.T()) && Live(c.T(), n)
    ensures errno.OK? ==> Attached(c.T(), FsId(Join(n.path, name))) && c.T() == Created(old(c.T()), n, name, mode)
    ensures errno.OK? || errno.EIO?
  {
    errno := CreateNode(c, n, name, mode);
  }

  method Mkdir(c: MockCoordinator, n: BlobFsNode, name: string, mode: Mode) returns (errno: Errno)
    requires c.Valid() && Inv(c.T()) && Live(c.T(), n) && IsName(name)
    modifies c
    ensures c.Valid() && Inv(c.T()) && Live(c.T(), n)
    ensures errno.OK? ==> Attached(c.T(), FsId(Join(n.path, name)))
    ensures errno.OK? ==> c.T() == Created(old(c.T()), n, name, mode.(isDir := true))
    ensures errno.OK? || errno.EIO?
  {
    errno := CreateNode(c, n, name, mode.(isDir := true));
  }

  /** Removes a node and then the link to it; either call may fail, whether or not it took effect. */
  method RemoveAndUnlink(c: MockCoordinator, pid: FsId, id: FsId) returns (ok: bool)
    requires c.Valid()
    modifies c
    ensures c.Valid()
    ensures ok ==> c.T() == old(c.T()).RemoveNode(id).RemoveChild(pid, id)
    ensures || c.T() == old(c.T()) || c.T() == old(c.T()).RemoveNode(id)
            || c.T() == old(c.T()).RemoveNode(id).RemoveChild(pid, id)
  {
    var sent: bool, answered: bool := *, *;
    if sent {
      c.RemoveFsNode(id);
    }
    if !answered || !sent {
      return false;
    }
    sent, answered := *, *;
    if sent {
      c.RemoveFsNodeChild(pid, id);
    }
    return answered && sent;
  }

  /** The tree without the child of `n` and the link to it. */
  function Unlinked(t: Tree, n: BlobFsNode, name: string): Tree {
    t.RemoveNode(FsId(Join(n.path, name))).RemoveChild(n.id, FsId(Join(n.path, name)))
  }

  /** Removes an empty directory. Any call may fail; only a removal that lost the link's half leaves the tree broken. */
  method Rmdir(c: MockCoordinator, n: BlobFsNode, name: string) returns (errno: Errno)
    requires c.Valid() && Inv(c.T()) && Live(c.T(), n) && IsName(name)
    modifies c
    ensures c.Valid()
    ensures errno.OK? ==> Inv(c.T()) && Live(c.T(), n) && FsId(Join(n.path, name)) !in c.T().nodes
    ensures !Childless(old(c.T()), FsId(Join(n.path, name))) ==> !errno.OK? && c.T() == old(c.T())
    ensures errno.ENOTEMPTY? ==> !Childless(old(c.T()), FsId(Join(n.path, name)))
    ensures errno.EIO? ==> Inv(c.T()) || c.T() == old(c.T()).RemoveNode(FsId(Join(n.path, name)))
    ensures errno.OK? ==> c.T() == Unlinked(old(c.T()), n, name)
  {
    var fsId := FsId(Join(n.path, name));
    ChildPid(c.T(), n, name);
    var listed: bool := *;
    if !listed {
      return EIO;
    }
    var children := c.GetFsNodeChildren(fsId);
    ghost var t := c.T();
    assert children == [] <==> Childless(t, fsId) by {
      if children != [] {
        assert children[0] in children;
      }
      forall x | (fsId, x) in t.links ensures t.nodes[x] in children {
      }
    }
    if |children| > 0 {
      return ENOTEMPTY;
    }
    RemoveChildless(t, n.id, fsId);
    NotOwnChild(n, name);
    var ok := RemoveAndUnlink(c, n.id, fsId);
    return if ok then OK else EIO;
  }

  lemma NotOwnChild(n: BlobFsNode, name: string)
    requires n.id == FsId(n.path) && n.path == Clean(n.path) && IsName(name)
    ensures FsId(Join(n.path, name)) != n.id
  {
    JoinRender(Parts(n.path), name);
    RenderGrows(Parts(n.path), name);
  }

  /** Removes a file without looking for children: the tree survives exactly when there were none. */
  method UnlinkFile(c: MockCoordinator, n: BlobFsNode, name: string) returns (errno: Errno)
    requires c.Valid() && Inv(c.T()) && Live(c.T(), n) && IsName(name)
    modifies c
    ensures c.Valid()
    ensures errno.OK? ==> (Inv(c.T()) <==> Childless(old(c.T()), FsId(Join(n.path, name))))
    ensures errno.EIO? ==> || c.T() == old(c.T()) || c.T() == old(c.T()).RemoveNode(FsId(Join(n.path, name)))
                           || (Inv(c.T()) <==> Childless(old(c.T()), FsId(Join(n.path, name))))
    ensures errno.OK? ==> c.T() == Unlinked(old(c.T()), n, name)
    ensures errno.OK? || errno.EIO?
  {
    var fsId := FsId(Join(n.path, name));
    ChildPid(c.T(), n, name);
    RemoveKeepsInvIff(c.T(), n.id, fsId);
    var ok := RemoveAndUnlink(c, n.id, fsId);
    return if ok then OK else EIO;
  }

  /** The node's metadata with new name and path; its id stays the old one. */
  function NewMeta(t: Tree, n: BlobFsNode, oldName: string, newName: string): Meta
    requires FsId(Join(n.path, oldName)) in t.nodes
  {
    t.nodes[FsId(Join(n.path, oldName))].(name := newName, path := Join(n.path, newName))
  }

  /** The tree after the first `calls` coordinator calls of a rename that succeeded in reading the node. A coordinator
      that hands out the stored record itself, as the in-memory one does, has the old node changed in place at once.
      */
  function RenameStage(t: Tree, n: BlobFsNode, oldName: string, newName: string, shared: bool, calls: nat): Tree
    requires FsId(Join(n.path, oldName)) in t.nodes && calls <= 3
  {
    var oldId, newId, m := FsId(Join(n.path, oldName)), FsId(Join(n.path, newName)), NewMeta(t, n, oldName, newName);
    var read := if shared then t.SetNode(oldId, m) else t;
    if calls == 0 then read
    else if calls == 1 then read.SetNode(newId, m)
    else if calls == 2 then read.SetNode(newId, m).RemoveChild(n.id, oldId)
    else read.SetNode(newId, m).RemoveChild(n.id, oldId).AddChild(n.id, newId)
  }

  /** What a rename leaves. */
  function Renamed(t: Tree, n: BlobFsNode, oldName: string, newName: string, shared: bool): Tree
    requires FsId(Join(n.path, oldName)) in t.nodes
  {
    RenameStage(t, n, oldName, newName, shared, 3)
  }

  /** The renamed metadata keeps the old id, so the tree survives exactly a rename to the same name. */
  lemma RenamedIff(t: Tree, n: BlobFsNode, oldName: string, newName: string, shared: bool)
    requires Inv(t) && Live(t, n) && IsName(oldName) && IsName(newName) && FsId(Join(n.path, oldName)) in t.nodes
    ensures Inv(Renamed(t, n, oldName, newName, shared)) <==> oldName == newName
  {
    if oldName == newName {
      RenamedSame(t, n, oldName, shared);
    } else {
      if Join(n.path, oldName) == Join(n.path, newName) {
        SameChild(n.path, oldName, newName);
      }
      assert GoodNode(FsId(Join(n.path, oldName)), t.nodes[FsId(Join(n.path, oldName))]);
      var newId := FsId(Join(n.path, newName));
      assert !GoodNode(newId, Renamed(t, n, oldName, newName, shared).nodes[newId]);
    }
  }

  lemma RenamedSame(t: Tree, n: BlobFsNode, name: string, shared: bool)
    requires Inv(t) && Live(t, n) && IsName(name) && FsId(Join(n.path, name)) in t.nodes
    ensures Inv(Renamed(t, n, name, name, shared))
  {
    var id := FsId(Join(n.path, name));
    ChildPid(t, n, name);
    JoinRender(Parts(n.path), name);
    assert GoodNode(id, t.nodes[id]);
    AddChildKeepsInv(t, n.id, id);
    assert NewMeta(t, n, name, name) == t.nodes[id];
    assert t.SetNode(id, t.nodes[id]) == t;
    assert t.RemoveChild(n.id, id).AddChild(n.id, id) == t.AddChild(n.id, id);
  }

  /** Its links alone stay sound exactly when the name does not change or nothing is linked below the old node. */
  lemma RenamedLinksIff(t: Tree, n: BlobFsNode, oldName: string, newName: string, shared: bool)
    requires Inv(t) && Live(t, n) && IsName(oldName) && IsName(newName) && FsId(Join(n.path, oldName)) in t.nodes
    ensures LinksSound(Renamed(t, n, oldName, newName, shared))
            <==> oldName == newName || Childless(t, FsId(Join(n.path, oldName)))
  {
    if oldName == newName {
      RenamedSame(t, n, oldName, shared);
    } else {
      var oldId, newId := FsId(Join(n.path, oldName)), FsId(Join(n.path, newName));
      NotOwnChild(n, oldName);
      RenameIds(t, n, oldName, newName);
      RenamedMoves(t, n, oldName, newName, shared, oldId, newId);
      MovedLinksIff(t, n, oldId, newId, Renamed(t, n, oldName, newName, shared));
    }
  }

  lemma RenameIds(t: Tree, n: BlobFsNode, oldName: string, newName: string)
    requires Inv(t) && Live(t, n) && IsName(oldName) && IsName(newName) && oldName != newName
    ensures var oldId, newId := FsId(Join(n.path, oldName)), FsId(Join(n.path, newName));
            && oldId != newId && oldId != ROOT && newId != ROOT
            && (oldId in t.nodes ==> t.nodes[oldId].pid == n.id) && (newId in t.nodes ==> t.nodes[newId].pid == n.id)
  {
    if Join(n.path, oldName) == Join(n.path, newName) {
      SameChild(n.path, oldName, newName);
    }
    ChildPid(t, n, oldName);
    ChildPid(t, n, newName);
  }

  lemma RenamedMoves(t: Tree, n: BlobFsNode, oldName: string, newName: string, shared: bool, oldId: FsId, newId: FsId)
    requires oldId == FsId(Join(n.path, oldName)) && newId == FsId(Join(n.path, newName))
    requires oldId != newId && oldId != ROOT && newId != ROOT && oldId in t.nodes && t.nodes[oldId].pid == n.id
    requires newId in t.nodes ==> t.nodes[newId].pid == n.id
    ensures MovedLink(t, n, oldId, newId, Renamed(t, n, oldName, newName, shared))
  {
    MovedFrom(t, n, oldId, newId, NewMeta(t, n, oldName, newName), shared);
  }

  lemma MovedFrom(t: Tree, n: BlobFsNode, oldId: FsId, newId: FsId, m: Meta, shared: bool)
    requires oldId != newId && oldId != ROOT && newId != ROOT && oldId in t.nodes && t.nodes[oldId].pid == n.id == m.pid
    requires newId in t.nodes ==> t.nodes[newId].pid == n.id
    ensures var read := if shared then t.SetNode(oldId, m) else t;
            MovedLink(t, n, oldId, newId, read.SetNode(newId, m).RemoveChild(n.id, oldId).AddChild(n.id, newId))
  {
  }

  lemma MovedLinksIff(t: Tree, n: BlobFsNode, oldId: FsId, newId: FsId, u: Tree)
    requires LinksSound(t) && Attached(t, n.id) && n.id != oldId && MovedLink(t, n, oldId, newId, u)
    ensures LinksSound(u) <==> Childless(t, oldId)
  {
    RenamedAttached(t, n, oldId, newId, u);
    if Childless(t, oldId) {
      RenamedLinks(t, n, oldId, newId, u);
    } else {
      var d :| (oldId, d) in t.links;
      assert (oldId, d) in u.links;
    }
  }

  /** `u` is `t` with the node of `newId` written, the one of `oldId` perhaps changed, and the link moved. */
  ghost predicate MovedLink(t: Tree, n: BlobFsNode, oldId: FsId, newId: FsId, u: Tree) {
    && oldId != newId && oldId != ROOT && newId != ROOT && oldId in t.nodes && t.nodes[oldId].pid == n.id
    && u.nodes.Keys == t.nodes.Keys + {newId} && (forall x :: x in t.nodes ==> u.nodes[x].pid == t.nodes[x].pid)
    && u.nodes[newId].pid == n.id && u.links == t.links - {(n.id, oldId)} + {(n.id, newId)}
  }

  lemma RenamedAttached(t: Tree, n: BlobFsNode, oldId: FsId, newId: FsId, u: Tree)
    requires MovedLink(t, n, oldId, newId, u)
    ensures !Attached(u, oldId) && Attached(u, newId) && forall x :: x != oldId && Attached(t, x) ==> Attached(u, x)
  {
  }

  lemma RenamedLinks(t: Tree, n: BlobFsNode, oldId: FsId, newId: FsId, u: Tree)
    requires LinksSound(t) && Attached(t, n.id) && n.id != oldId && Childless(t, oldId)
               && MovedLink(t, n, oldId, newId, u)
    ensures LinksSound(u)
  {
    RenamedAttached(t, n, oldId, newId, u);
    forall p, c | (p, c) in u.links ensures c in u.nodes && c != ROOT && u.nodes[c].pid == p && Attached(u, p) {
      assert (p, c) == (n.id, newId) || (p, c) in t.links;
    }
  }

  lemma SameChild(path: string, a: string, b: string)
    requires path == Clean(path) && IsName(a) && IsName(b) && Join(path, a) == Join(path, b)
    ensures a == b
  {
    var up := Parts(path);
    JoinRender(up, a);
    JoinRender(up, b);
    assert (up + [a])[|up|] == (up + [b])[|up|];
  }

  /** Renames within the directory; the new parent that the kernel names is ignored. Any call may fail, whether or not
      it took effect. */
  method Rename(c: MockCoordinator, n: BlobFsNode, oldName: string, newName: string, shared: bool)
      returns (errno: Errno)
    requires c.Valid() && Inv(c.T()) && Live(c.T(), n) && IsName(oldName) && IsName(newName)
    modifies c
    ensures c.Valid()
    ensures FsId(Join(n.path, oldName)) !in old(c.T()).nodes ==> errno.ENOENT?
    ensures errno.ENOENT? ==> c.T() == old(c.T())
    ensures errno.OK? ==> (Inv(c.T()) <==> oldName == newName)
    ensures errno.OK? ==> (LinksSound(c.T())
              <==> oldName == newName || Childless(old(c.T()), FsId(Join(n.path, oldName))))
    ensures !errno.ENOENT? ==>
              exists calls :: 0 <= calls <= 3 && c.T() == RenameStage(old(c.T()), n, oldName, newName, shared, calls)
                              && (errno.OK? ==> calls == 3)
  {
    var oldFsId, newFsId := FsId(Join(n.path, oldName)), FsId(Join(n.path, newName));
    var found, metadata := c.GetFsNode(oldFsId);
    var sent: bool, answered: bool := *, *;
    if !found || !answered {
      return ENOENT;
    }
    ghost var t := c.T();
    RenamedIff(t, n, oldName, newName, shared);
    RenamedLinksIff(t, n, oldName, newName, shared);
    metadata := metadata.(name := newName, path := Join(n.path, newName));
    if shared {
      c.SetFsNode(oldFsId, metadata);
    }
    assert c.T() == RenameStage(t, n, oldName, newName, shared, 0);
    sent, answered := *, *;
    if sent {
      c.SetFsNode(newFsId, metadata);
      assert c.T() == RenameStage(t, n, oldName, newName, shared, 1);
    }
    if !answered || !sent {
      return EIO;
    }
    sent, answered := *, *;
    if sent {
      c.RemoveFsNodeChild(n.id, oldFsId);
      assert c.T() == RenameStage(t, n, oldName, newName, shared, 2);
    }
    if !answered || !sent {
      return EIO;
    }
    sent, answered := *, *;
    if sent {
      c.AddFsNodeChild(n.id, newFsId);
      assert c.T() == RenameStage(t, n, oldName, newName, shared, 3);
    }
    return if answered && sent then OK else EIO;
  }
}
