/**
 * Which requests are refused and what an accepted one writes, on the rows themselves: node types are
 * 1 folder, 2 HTTP interface, 3 gRPC interface, 4 test case, 5 suite, 7 data model.
 */
module TreeRequests {
  import opened Prelude
  import opened TreePaths
  import opened DirectoryTree
  import opened TreeTheorems
  import Text

  /** The root, or a folder of the tenant. */
  predicate MayHold(rows: Table, tenant: int, parent: int) {
    parent == 0 || (parent in rows && rows[parent].tenant == tenant && rows[parent].kind == 1)
  }

  predicate Holds(n: Node, e: Entity) {
    n.tenant == e.tenant && n.kind == e.kind && n.refId == e.refId
  }

  ghost predicate IsMounted(rows: Table, e: Entity) {
    exists x :: x in rows && Holds(rows[x], e)
  }

  datatype Entity = Entity(tenant: int, kind: int, refId: int)

  /** What a request mounts; over HTTP an interface unless said otherwise, and by its older field if need be. */
  function Mounts(q: Request): Option<Entity> {
    match q
    case Mount(tenant, _, _, apiId, refType, refId, _, _, _, _) =>
      Some(Entity(tenant, if refType == 0 then 2 else refType, if refId == 0 then apiId else refId))
    case CopilotMount(tenant, _, refType, refId, _, _, _) => Some(Entity(tenant, refType, refId))
    case _ => None
  }

  /** The siblings a new or moved node is counted against. */
  ghost function Siblings(rows: Table, tenant: int, parent: int): set<nat> {
    set x: nat | x in rows && rows[x].tenant == tenant && rows[x].parent == parent
  }

  // ---- Refusals ----

  lemma ParentRefusedExactly(rows: Table, tenant: int, parent: int)
    ensures NodePath(rows, tenant, parent).Success? <==> MayHold(rows, tenant, parent)
    ensures PathRefusal(rows, tenant, parent) ==
            if MayHold(rows, tenant, parent) then None
            else Some(if parent in rows && rows[parent].tenant == tenant then ParentNotFolder else ParentNotFound)
    ensures MayHold(rows, tenant, parent) && parent != 0 ==> PathOf(rows, parent) == rows[parent].path
    ensures PathOf(rows, 0) == ""
  {
  }

  /**
   * A mount is refused as a repetition exactly when all else is in order and some row of the tenant has
   * the same type and the same reference.
   */
  lemma MountRefusedExactly(atPath: Table, atNode: Table, q: Request)
    requires q.Mount?
    ensures var r, e := RefusalOn(atPath, atNode, q), Mounts(q).value;
            var inOrder := q.project != 0 && q.projectOk && e.refId != 0 && e.kind in {2, 4, 5, 7} && q.entity.Some?
                           && MayHold(atPath, q.tenant, q.parent);
            && (r == Some(AlreadyMounted) <==> inOrder && IsMounted(atNode, e))
            && (r.None? <==> inOrder && !IsMounted(atNode, e))
  {
    var e := Mounts(q).value;
    ParentRefusedExactly(atPath, q.tenant, q.parent);
    var already := MountedAlready(atNode, q.tenant, e.kind, e.refId);
    if x: nat :| x in atNode && Holds(atNode[x], e) {
      assert x in already;
    } else {
      assert forall x :: x in already ==> Holds(atNode[x], e);
      assert already == {};
    }
  }

  /** The gRPC mount takes gRPC interfaces too, but no data model, and never looks for an earlier mount. */
  lemma CopilotMountRefusedExactly(atPath: Table, atNode: Table, tenant: int, project: int, refType: int, refId: int,
                                   entity: Option<string>, parent: int, id: nat)
    ensures RefusalOn(atPath, atNode, CopilotMount(tenant, project, refType, refId, entity, parent, id)).None? <==>
            refType in {2, 3, 4, 5} && entity.Some? && MayHold(atPath, tenant, parent)
  {
    ParentRefusedExactly(atPath, tenant, parent);
  }

  lemma CreateRefusedExactly(atPath: Table, atNode: Table, tenant: int, project: int, projectOk: bool, name: string,
                             parent: int, id: nat)
    ensures RefusalOn(atPath, atNode, CreateFolder(tenant, project, projectOk, name, parent, id)).None? <==>
            project != 0 && projectOk && MayHold(atPath, tenant, parent) && exists c :: c in name && !Text.IsSpace(c)
  {
    ParentRefusedExactly(atPath, tenant, parent);
    Text.TrimmedAway(name);
  }

  lemma RemovalRefusedExactly(rows: Table, tenant: int, node: int)
    ensures Refusal(rows, DeleteFolder(tenant, node)).None? <==>
            node in rows && rows[node].tenant == tenant && rows[node].kind == 1
    ensures Refusal(rows, Unmount(tenant, node)).None? <==>
            node in rows && rows[node].tenant == tenant && rows[node].kind in {2, 4, 5, 7}
  {
  }

  /** A move goes through iff node and target are the tenant's, the target is a folder, and it is not below the node. */
  lemma MoveAcceptedExactly(rows: Table, tenant: int, node: int, parent: int, index: Option<int>)
    requires WellFormed(rows)
    ensures var accepted := MayHold(rows, tenant, parent) && node in rows && rows[node].tenant == tenant
                            && (parent == rows[node].parent || parent == 0 || !Below(rows, parent, node));
            && (Refusal(rows, Move(tenant, node, parent, index)).None? <==> accepted)
            && (Refusal(rows, CopilotMove(tenant, node, parent)).None? <==> accepted)
  {
    ParentRefusedExactly(rows, tenant, parent);
    if MayHold(rows, tenant, parent) && node in rows && rows[node].tenant == tenant && parent != rows[node].parent {
      MoveRefusedExactly(rows, node, parent);
    }
  }

  // ---- What is written ----

  /** The new row carries what was asked for; other rows change in nothing but their order. */
  ghost predicate Adds(rows: Table, after: Table, id: nat, n: Node) {
    && after.Keys == rows.Keys + {id} && after[id] == n
    && forall x :: x in rows && x != id ==> after[x] == rows[x].(order := after[x].order)
  }

  lemma CreatedRow(rows: Table, atPath: Table, atNode: Table, tenant: int, project: int, name: string, parent: int, id: nat)
    requires RefusalOn(atPath, atNode, CreateFolder(tenant, project, true, name, parent, id)).None?
    ensures var after := ApplyOn(rows, atPath, atNode, CreateFolder(tenant, project, true, name, parent, id));
            var path := if parent == 0 then "" else atPath[parent].path;
            && (parent != 0 ==> parent in atPath)
            && Adds(rows, after, id, Node(tenant, project, parent, 1, 0, Text.TrimSpace(name),
                                          |Siblings(atNode, tenant, parent)|, path + Segment(id)))
            && forall x :: x in rows && x != id ==> after[x] == rows[x]
  {
    ParentRefusedExactly(atPath, tenant, parent);
    assert Siblings(atNode, tenant, parent) == Children(atNode, tenant, parent);
  }

  lemma MountedRow(rows: Table, atPath: Table, atNode: Table, q: Request)
    requires q.Mount? && RefusalOn(atPath, atNode, q).None?
    ensures var path := if q.parent == 0 then "" else atPath[q.parent].path;
            && (q.parent != 0 ==> q.parent in atPath)
            && Adds(rows, ApplyOn(rows, atPath, atNode, q), q.id,
                    Node(q.tenant, q.project, q.parent, Mounts(q).value.kind, Mounts(q).value.refId, q.entity.value,
                         ClampIndex(q.index, |Siblings(rows, q.tenant, q.parent)|), path + Segment(q.id)))
  {
    ParentRefusedExactly(atPath, q.tenant, q.parent);
    assert Siblings(rows, q.tenant, q.parent) == Children(rows, q.tenant, q.parent);
  }

  lemma CopilotMountedRow(rows: Table, atPath: Table, atNode: Table, tenant: int, project: int, refType: int, refId: int,
                          name: string, parent: int, id: nat)
    requires RefusalOn(atPath, atNode, CopilotMount(tenant, project, refType, refId, Some(name), parent, id)).None?
    ensures var after := ApplyOn(rows, atPath, atNode, CopilotMount(tenant, project, refType, refId, Some(name), parent, id));
            var path := if parent == 0 then "" else atPath[parent].path;
            && (parent != 0 ==> parent in atPath)
            && Adds(rows, after, id, Node(tenant, project, parent, refType, refId, name,
                                          |Siblings(atNode, tenant, parent)|, path + Segment(id)))
            && forall x :: x in rows && x != id ==> after[x] == rows[x]
  {
    ParentRefusedExactly(atPath, tenant, parent);
    assert Siblings(atNode, tenant, parent) == Children(atNode, tenant, parent);
  }

  // ---- One mount per entity ----

  function EntityOf(n: Node): Entity {
    Entity(n.tenant, n.kind, n.refId)
  }

  /** No two leaves of a tenant stand for the same entity. */
  ghost predicate MountedOnce(rows: Table) {
    forall x, y :: x in rows && y in rows && x != y && rows[x].kind != 1 ==>
      !Holds(rows[y], EntityOf(rows[x]))
  }

  /** Rows keep tenant, type and reference; only a mount or a created folder adds one. */
  lemma RowsKeepEntity(rows: Table, atPath: Table, atNode: Table, q: Request)
    requires RefusalOn(atPath, atNode, q).None? && FreshId(rows, q)
    ensures var after := ApplyOn(rows, atPath, atNode, q);
            && (forall x :: x in after && x in rows ==>
                  EntityOf(after[x]) == EntityOf(rows[x]))
            && (forall x :: x in after && x !in rows ==> (q.CreateFolder? || Mounts(q).Some?) && x == q.id)
            && (q.CreateFolder? ==> q.id in after && after[q.id].kind == 1)
            && (Mounts(q).Some? ==>
                  (after.Keys == rows.Keys + {q.id} && after[q.id].kind != 1 && EntityOf(after[q.id]) == Mounts(q).value))
  {
    if q.Reorder? {
      ReorderedShape(rows, q.tenant, q.ids, |q.ids|);
    } else if q.Mount? {
      MountRefusedExactly(atPath, atNode, q);
      MountedRow(rows, atPath, atNode, q);
    }
  }

  /**
   * An accepted request - with reads however old - leaves some entity mounted twice exactly when it
   * mounts one that the table it commits to already holds.
   */
  lemma MountedOnceExactly(rows: Table, atPath: Table, atNode: Table, q: Request)
    requires MountedOnce(rows) && FreshId(rows, q) && RefusalOn(atPath, atNode, q).None?
    ensures MountedOnce(ApplyOn(rows, atPath, atNode, q)) <==>
            !(Mounts(q).Some? && IsMounted(rows, Mounts(q).value))
  {
    RowsKeepEntity(rows, atPath, atNode, q);
    var after := ApplyOn(rows, atPath, atNode, q);
    hide ApplyOn, RefusalOn;
    if Mounts(q).Some? && IsMounted(rows, Mounts(q).value) {
      var x :| x in rows && Holds(rows[x], Mounts(q).value);
      assert x in after && x != q.id && Holds(after[x], EntityOf(after[q.id]));
    } else {
      forall x, y | x in after && y in after && x != y && after[x].kind != 1
        ensures !Holds(after[y], EntityOf(after[x]))
      {
        assert x in rows || y in rows;
      }
    }
  }

  /** So, taken one at a time, mounts over HTTP never mount anything twice, and the second one is refused. */
  lemma SecondMountRefused(rows: Table, q: Request, p: Request)
    requires q.Mount? && Refusal(rows, q).None? && FreshId(rows, q)
    requires p.Mount? && Mounts(p) == Mounts(q)
    ensures Refusal(Apply(rows, q), p).Some?
    ensures MountedOnce(rows) ==> MountedOnce(Apply(rows, q))
  {
    RowsKeepEntity(rows, rows, rows, q);
    MountRefusedExactly(rows, rows, q);
    if MountedOnce(rows) {
      MountedOnceExactly(rows, rows, rows, q);
    }
    assert Holds(Apply(rows, q)[q.id], Mounts(p).value);
    MountRefusedExactly(Apply(rows, q), Apply(rows, q), p);
  }
}
