/**
 * The handlers, step by step on the mutable table, proved against `RefusalOn` and `ApplyOn`. What a
 * handler reads before its transaction it reads from `atPath` and `atNode`, the table at those moments.
 */
module TreeTable {
  import opened Prelude
  import opened TreePaths
  import opened DirectoryTree
  import Text

  lemma WriteBackOne(roomy: Table, snapshot: Table, done: set<nat>, x: nat, id: nat, oldPrefix: string,
                     parent: int, newPath: string, order: int)
    requires roomy.Keys == snapshot.Keys && x in roomy && x !in done
    ensures WrittenBack(roomy, snapshot, done + {x}, id, oldPrefix, parent, newPath, order) ==
            WrittenBack(roomy, snapshot, done, id, oldPrefix, parent, newPath, order)
              [x := Relocated(roomy[x], snapshot[x], x, id, oldPrefix, parent, newPath, order)]
  {
  }

  class Tree {
    var rows: Table

    constructor ()
      ensures rows == map[]
    {
      rows := map[];
    }

    method CreateFolderNode(tenant: int, project: int, projectOk: bool, name: string, parent: int, id: nat,
                            atPath: Table, atNode: Table)
      returns (e: Option<Error>)
      modifies this
      ensures var q := CreateFolder(tenant, project, projectOk, name, parent, id);
              e == RefusalOn(atPath, atNode, q) && rows == ApplyOn(old(rows), atPath, atNode, q)
    {
      if project == 0 || Text.TrimSpace(name) == "" {
        return Some(InvalidParam);
      }
      if !projectOk {
        return Some(ProjectNotFound);
      }
      var path := NodePath(atPath, tenant, parent);
      if path.Failure? {
        return Some(path.error);
      }
      var order := |Children(atNode, tenant, parent)|;
      rows := rows[id := Node(tenant, project, parent, FOLDER, 0, Text.TrimSpace(name), order, path.value + Segment(id))];
      return None;
    }

    method MountNode(tenant: int, project: int, projectOk: bool, apiId: int, refType: int, refId: int,
                     entity: Option<string>, parent: int, index: Option<int>, id: nat,
                     atPath: Table, atNode: Table)
      returns (e: Option<Error>)
      modifies this
      ensures var q := Mount(tenant, project, projectOk, apiId, refType, refId, entity, parent, index, id);
              e == RefusalOn(atPath, atNode, q) && rows == ApplyOn(old(rows), atPath, atNode, q)
    {
      if project == 0 {
        return Some(InvalidParam);
      }
      if !projectOk {
        return Some(ProjectNotFound);
      }
      var kind, ref := refType, refId;
      if ref == 0 {
        ref := apiId;
      }
      if kind == 0 {
        kind := HTTP_API;
      }
      if ref == 0 || (kind != HTTP_API && kind != TEST_CASE && kind != SUITE && kind != DATA_MODEL) {
        return Some(InvalidParam);
      }
      if entity.None? {
        return Some(EntityNotFound);
      }
      var path := NodePath(atPath, tenant, parent);
      if path.Failure? {
        return Some(path.error);
      }
      if |MountedAlready(atNode, tenant, kind, ref)| > 0 {
        return Some(AlreadyMounted);
      }
      InsertAt(id, Node(tenant, project, parent, kind, ref, entity.value, 0, ""), index, path.value);
      return None;
    }

    /** The transaction of a mount: count the siblings, make room, create the row. */
    method InsertAt(id: nat, n: Node, index: Option<int>, path: string)
      modifies this
      ensures rows == Inserted(old(rows), id, n, index, path)
    {
      var count := |Children(rows, n.tenant, n.parent)|;
      var order := ClampIndex(index, count);
      if index.Some? && order < count {
        rows := Shifted(rows, n.tenant, n.parent, order, 0);
      }
      rows := rows[id := n.(order := order, path := path + Segment(id))];
    }

    method MoveNode(tenant: int, node: int, parent: int, index: Option<int>, atPath: Table, atNode: Table)
      returns (e: Option<Error>)
      modifies this
      ensures e == RefusalOn(atPath, atNode, Move(tenant, node, parent, index))
      ensures rows == ApplyOn(old(rows), atPath, atNode, Move(tenant, node, parent, index))
    {
      var newPath := NodePath(atPath, tenant, parent);
      if newPath.Failure? {
        return Some(newPath.error);
      }
      if node !in atNode || atNode[node].tenant != tenant {
        return Some(NodeNotFound);
      }
      if parent == atNode[node].parent {
        return None;
      }
      if newPath.value != "" && (newPath.value == atNode[node].path || atNode[node].path <= newPath.value) {
        return Some(OwnSubtree);
      }
      Relocate(tenant, node, atNode[node].path, parent, newPath.value, index);
      return None;
    }

    /** The transaction of a move: read the subtree, make room, write the subtree back row by row. */
    method Relocate(tenant: int, node: nat, oldPrefix: string, parent: int, newPath: string, index: Option<int>)
      modifies this
      ensures rows == Committed(old(rows), tenant, node, oldPrefix, parent, newPath, index)
    {
      var snapshot := rows;
      var subs := UnderPath(rows, tenant, oldPrefix);
      var count := |Children(rows, tenant, parent)|;
      var order := ClampIndex(index, count);
      if index.Some? && order < count {
        rows := Shifted(rows, tenant, parent, order, node);
      }
      WriteBack(snapshot, subs, node, oldPrefix, parent, newPath, order);
    }

    method WriteBack(snapshot: Table, subs: set<nat>, node: nat, oldPrefix: string, parent: int, newPath: string,
                     order: int)
      requires rows.Keys == snapshot.Keys && subs <= snapshot.Keys
      modifies this
      ensures rows == WrittenBack(old(rows), snapshot, subs, node, oldPrefix, parent, newPath, order)
    {
      var todo := subs;
      while todo != {}
        invariant todo <= subs
        invariant rows == WrittenBack(old(rows), snapshot, subs - todo, node, oldPrefix, parent, newPath, order)
        decreases |todo|
      {
        var x :| x in todo;
        WriteBackOne(old(rows), snapshot, subs - todo, x, node, oldPrefix, parent, newPath, order);
        var sub := snapshot[x];
        var suffix := TrimPrefix(sub.path, oldPrefix);
        var newParent, newOrder := sub.parent, sub.order;
        if x == node {
          newParent, newOrder := parent, order;
        }
        rows := rows[x := rows[x].(parent := newParent, path := newPath + Segment(node) + suffix, order := newOrder)];
        assert subs - (todo - {x}) == (subs - todo) + {x};
        todo := todo - {x};
      }
      assert subs - todo == subs;
    }

    method DeleteFolderNode(tenant: int, node: int, atNode: Table) returns (e: Option<Error>)
      modifies this
      ensures e == RefusalOn(atNode, atNode, DeleteFolder(tenant, node))
      ensures rows == ApplyOn(old(rows), atNode, atNode, DeleteFolder(tenant, node))
    {
      if node !in atNode || atNode[node].tenant != tenant || atNode[node].kind != FOLDER {
        return Some(NodeNotFound);
      }
      rows := rows - UnderPath(rows, tenant, atNode[node].path);
      return None;
    }

    method UnmountNode(tenant: int, node: int) returns (e: Option<Error>)
      modifies this
      ensures e == Refusal(old(rows), Unmount(tenant, node)) && rows == Apply(old(rows), Unmount(tenant, node))
    {
      var hit := set id: nat | id in rows && id == node && rows[id].tenant == tenant
                               && rows[id].kind in {HTTP_API, TEST_CASE, SUITE, DATA_MODEL};
      if hit == {} {
        assert node in rows ==> node !in hit;
        return Some(NodeNotFound);
      }
      assert hit == {node};
      rows := rows - hit;
      return None;
    }

    method ReorderTree(tenant: int, ids: seq<int>) returns (e: Option<Error>)
      modifies this
      ensures e == Refusal(old(rows), Reorder(tenant, ids)) && rows == Apply(old(rows), Reorder(tenant, ids))
    {
      if |ids| == 0 {
        return Some(InvalidParam);
      }
      for i := 0 to |ids|
        invariant rows == Reordered(old(rows), tenant, ids, i)
      {
        rows := WithOrder(rows, tenant, ids[i], i);
      }
      return None;
    }

    method CopilotMountRef(tenant: int, project: int, kind: int, refId: int, entity: Option<string>, parent: int,
                           id: nat, atPath: Table, atNode: Table)
      returns (e: Option<Error>)
      modifies this
      ensures var q := CopilotMount(tenant, project, kind, refId, entity, parent, id);
              e == RefusalOn(atPath, atNode, q) && rows == ApplyOn(old(rows), atPath, atNode, q)
    {
      if kind != HTTP_API && kind != GRPC_API && kind != TEST_CASE && kind != SUITE {
        return Some(InvalidParam);
      }
      if entity.None? {
        return Some(EntityNotFound);
      }
      var path := NodePath(atPath, tenant, parent);
      if path.Failure? {
        return Some(path.error);
      }
      var count := |Children(atNode, tenant, parent)|;
      rows := rows[id := Node(tenant, project, parent, kind, refId, entity.value, count, path.value + Segment(id))];
      return None;
    }

    method CopilotMoveNode(tenant: int, node: int, parent: int, atPath: Table, atNode: Table)
      returns (e: Option<Error>)
      modifies this
      ensures e == RefusalOn(atPath, atNode, CopilotMove(tenant, node, parent))
      ensures rows == ApplyOn(old(rows), atPath, atNode, CopilotMove(tenant, node, parent))
    {
      if node !in atNode || atNode[node].tenant != tenant {
        return Some(NodeNotFound);
      }
      var newPath := NodePath(atPath, tenant, parent);
      if newPath.Failure? {
        return Some(newPath.error);
      }
      if parent == atNode[node].parent {
        return None;
      }
      if newPath.value != "" && (newPath.value == atNode[node].path || atNode[node].path <= newPath.value) {
        return Some(OwnSubtree);
      }
      Relocate(tenant, node, atNode[node].path, parent, newPath.value, None);
      return None;
    }
  }
}
