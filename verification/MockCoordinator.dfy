/** The in-memory coordinator: a node map and one child list per parent, scanned and rebuilt by loops. */
module MockCoordinator {
  import opened BlobFsTree

  predicate NoDuplicates(ids: seq<FsId>) {
    forall i, j :: 0 <= i < j < |ids| ==> ids[i] != ids[j]
  }

  function Without(ids: seq<FsId>, id: FsId): seq<FsId> {
    if ids == [] then []
    else
      var init, last := ids[..|ids| - 1], ids[|ids| - 1];
      if last == id then Without(init, id) else Without(init, id) + [last]
  }

  lemma {:induction false} WithoutExact(ids: seq<FsId>, id: FsId)
    ensures forall x :: x in Without(ids, id) <==> x in ids && x != id
    ensures NoDuplicates(ids) ==> NoDuplicates(Without(ids, id))
  {
    if ids != [] {
      var init, last := ids[..|ids| - 1], ids[|ids| - 1];
      WithoutExact(init, id);
      assert ids == init + [last];
      if NoDuplicates(ids) {
        assert NoDuplicates(init) && last !in init;
      }
    }
  }

  /** The metadata of the listed nodes that exist, in list order. */
  function Present(nodes: map<FsId, Meta>, ids: seq<FsId>): seq<Meta> {
    if ids == [] then []
    else
      var init, last := ids[..|ids| - 1], ids[|ids| - 1];
      if last in nodes then Present(nodes, init) + [nodes[last]] else Present(nodes, init)
  }

  lemma {:induction false} PresentExact(nodes: map<FsId, Meta>, ids: seq<FsId>)
    ensures forall m :: m in Present(nodes, ids) <==> exists id :: id in ids && id in nodes && nodes[id] == m
  {
    if ids != [] {
      PresentExact(nodes, ids[..|ids| - 1]);
      assert ids == ids[..|ids| - 1] + [ids[|ids| - 1]];
    }
  }

  /** The links that the child lists encode. */
  ghost function LinksOf(children: map<FsId, seq<FsId>>): set<(FsId, FsId)> {
    set p, c | p in children && c in children[p] :: (p, c)
  }

  lemma LinksEmpty(children: map<FsId, seq<FsId>>, pid: FsId)
    ensures pid !in children ==> LinksOf(children[pid := []]) == LinksOf(children)
  {
  }

  lemma LinksAppend(children: map<FsId, seq<FsId>>, pid: FsId, id: FsId)
    requires pid in children
    ensures LinksOf(children[pid := children[pid] + [id]]) == LinksOf(children) + {(pid, id)}
  {
  }

  class MockCoordinator {
    var fsNodes: map<FsId, Meta>
    var fsChildren: map<FsId, seq<FsId>>

    constructor ()
      ensures Valid() && T() == EMPTY
    {
      fsNodes, fsChildren := map[], map[];
    }

    ghost predicate Valid()
      reads this
    {
      forall p :: p in fsChildren ==> NoDuplicates(fsChildren[p])
    }

    /** The tree that the two maps encode. */
    ghost function T(): Tree
      reads this
    {
      Tree(fsNodes, LinksOf(fsChildren))
    }

    method SetFsNode(id: FsId, meta: Meta)
      requires Valid()
      modifies this
      ensures Valid() && T() == old(T()).SetNode(id, meta)
    {
      fsNodes := fsNodes[id := meta];
    }

    method GetFsNode(id: FsId) returns (found: bool, meta: Meta)
      ensures found <==> id in T().nodes
      ensures found ==> meta == T().nodes[id]
    {
      found := id in fsNodes;
      meta := if found then fsNodes[id] else Meta(NoId, NoId, "", "", Mode(false, 0), NoHash, 0);
    }

    method RemoveFsNode(id: FsId)
      requires Valid()
      modifies this
      ensures Valid() && T() == old(T()).RemoveNode(id)
    {
      fsNodes := fsNodes - {id};
    }

    method RemoveFsNodeChild(pid: FsId, id: FsId)
      requires Valid()
      modifies this
      ensures Valid() && T() == old(T()).RemoveChild(pid, id)
    {
      if pid in fsChildren {
        var children := fsChildren[pid];
        var newChildren := [];
        for i := 0 to |children|
          invariant newChildren == Without(children[..i], id)
        {
          assert children[..i + 1][..i] == children[..i];
          if children[i] != id {
            newChildren := newChildren + [children[i]];
          }
        }
        assert children[..|children|] == children;
        WithoutExact(children, id);
        fsChildren := fsChildren[pid := newChildren];
      }
    }

    method GetFsNodeChildren(id: FsId) returns (children: seq<Meta>)
      ensures forall m :: m in children <==> exists c :: (id, c) in T().links && c in T().nodes && T().nodes[c] == m
    {
      children := [];
      if id !in fsChildren {
        return;
      }
      var childIds := fsChildren[id];
      for i := 0 to |childIds|
        invariant children == Present(fsNodes, childIds[..i])
      {
        assert childIds[..i + 1][..i] == childIds[..i];
        if childIds[i] in fsNodes {
          children := children + [fsNodes[childIds[i]]];
        }
      }
      assert childIds[..|childIds|] == childIds;
      PresentExact(fsNodes, childIds);
      assert forall c :: (id, c) in T().links <==> c in childIds;
    }

    method AddFsNodeChild(pid: FsId, id: FsId)
      requires Valid()
      modifies this
      ensures Valid() && T() == old(T()).AddChild(pid, id)
    {
      LinksEmpty(fsChildren, pid);
      if pid !in fsChildren {
        fsChildren := fsChildren[pid := []];
      }
      var children := fsChildren[pid];
      for i := 0 to |children|
        invariant id !in children[..i]
      {
        if children[i] == id {
          assert (pid, id) in LinksOf(fsChildren);
          return;
        }
      }
      assert children[..|children|] == children;
      LinksAppend(fsChildren, pid, id);
      fsChildren := fsChildren[pid := children + [id]];
    }
  }
}
