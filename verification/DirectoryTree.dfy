/**
 * The directory tree (`tree_nodes`): rows carry a parent id and a materialised path, and
 * every subtree operation is a `path LIKE p%` query. `Table` is the SQL table. A handler reads
 * the parent's path and the node before its transaction, so the table it commits to may not be
 * the one it read.
 */
module DirectoryTree {
  import opened Prelude
  import opened TreePaths
  import Text

  const FOLDER := 1
  const HTTP_API := 2
  const GRPC_API := 3
  const TEST_CASE := 4
  const SUITE := 5
  const DATA_MODEL := 7

  datatype Node = Node(tenant: int, project: int, parent: int, kind: int, refId: int, name: string,
                       order: int, path: string)

  type Table = map<nat, Node>

  datatype Error = InvalidParam | ProjectNotFound | EntityNotFound | ParentNotFound | ParentNotFolder
                 | NodeNotFound | AlreadyMounted | OwnSubtree

  // ---- What a well-formed table is, and what its parent ids mean ----

  ghost predicate NodeOk(rows: Table, id: int)
    requires id in rows
  {
    var n := rows[id];
    && id > 0
    && (n.parent != 0 ==> n.parent in rows && rows[n.parent].kind == FOLDER && rows[n.parent].tenant == n.tenant)
    && n.path == PathOf(rows, n.parent) + Segment(id)
  }

  function PathOf(rows: Table, id: int): string {
    if id != 0 && id in rows then rows[id].path else ""
  }

  /** The index agrees with the parent ids, and only folders have children. */
  ghost predicate WellFormed(rows: Table) {
    0 !in rows && forall id {:trigger NodeOk(rows, id)} :: id in rows ==> NodeOk(rows, id)
  }

  /** `d` lies in the subtree of `a`, by parent ids alone. */
  ghost predicate Below(rows: Table, d: int, a: int)
    requires WellFormed(rows) && d in rows
    decreases |rows[d].path|
  {
    assert NodeOk(rows, d);
    d == a || (rows[d].parent != 0 && Below(rows, rows[d].parent, a))
  }

  /** The k-th parent of `id`; 0 once the chain has left the table. */
  function Chain(rows: Table, id: int, k: nat): int
    decreases k
  {
    if k == 0 then id else if id in rows then Chain(rows, rows[id].parent, k - 1) else 0
  }

  ghost predicate OnCycle(rows: Table, id: int) {
    exists k: nat :: k > 0 && Chain(rows, id, k) == id
  }

  /** Identifiers from the root down to `id`. */
  ghost function Trail(rows: Table, id: int): (t: seq<nat>)
    requires WellFormed(rows) && id in rows
    ensures |t| > 0 && t[|t| - 1] == id
    decreases |rows[id].path|
  {
    assert NodeOk(rows, id);
    (if rows[id].parent == 0 then [] else Trail(rows, rows[id].parent)) + [id]
  }

  lemma {:induction false} PathIsTrail(rows: Table, id: int)
    requires WellFormed(rows) && id in rows
    ensures rows[id].path == Render(Trail(rows, id))
    decreases |rows[id].path|
  {
    assert NodeOk(rows, id);
    if rows[id].parent == 0 {
      RenderAppend([], id);
    } else {
      PathIsTrail(rows, rows[id].parent);
      RenderAppend(Trail(rows, rows[id].parent), id);
    }
  }

  lemma {:induction false} BelowIsTrailPrefix(rows: Table, d: int, a: int)
    requires WellFormed(rows) && d in rows && a in rows
    ensures Below(rows, d, a) <==> Trail(rows, a) <= Trail(rows, d)
    decreases |rows[d].path|
  {
    assert NodeOk(rows, d);
    var ta, td := Trail(rows, a), Trail(rows, d);
    var p := rows[d].parent;
    if d != a && p != 0 {
      BelowIsTrailPrefix(rows, p, a);
      assert td[..|td| - 1] == Trail(rows, p);
      if ta <= td {
        assert |ta| < |td|;
      }
    }
  }

  /** One string comparison decides ancestry. */
  lemma PrefixIsBelow(rows: Table, d: int, a: int)
    requires WellFormed(rows) && d in rows && a in rows
    ensures rows[a].path <= rows[d].path <==> Below(rows, d, a)
  {
    PathIsTrail(rows, a);
    PathIsTrail(rows, d);
    RenderPrefix(Trail(rows, a), Trail(rows, d));
    BelowIsTrailPrefix(rows, d, a);
  }

  lemma {:induction false} BelowSameTenant(rows: Table, d: int, a: int)
    requires WellFormed(rows) && d in rows && Below(rows, d, a)
    ensures a in rows && rows[a].tenant == rows[d].tenant
    decreases |rows[d].path|
  {
    assert NodeOk(rows, d);
    if d != a {
      BelowSameTenant(rows, rows[d].parent, a);
    }
  }

  lemma {:induction false} ChainShortens(rows: Table, id: int, k: nat)
    requires WellFormed(rows) && id in rows && k > 0
    ensures Chain(rows, id, k) in rows ==> |rows[Chain(rows, id, k)].path| < |rows[id].path|
    decreases k
  {
    assert NodeOk(rows, id);
    if k > 1 && rows[id].parent in rows {
      ChainShortens(rows, rows[id].parent, k - 1);
    }
  }

  /** A well-formed table is a forest: no node is its own proper ancestor. */
  lemma Acyclic(rows: Table, id: int)
    requires WellFormed(rows) && id in rows
    ensures !OnCycle(rows, id)
  {
    forall k: nat | k > 0
      ensures Chain(rows, id, k) != id
    {
      ChainShortens(rows, id, k);
    }
  }

  // ---- Queries ----

  /** Path of the folder a node is to be put under; the root has the empty path. */
  function NodePath(rows: Table, tenant: int, parent: int): Result<string, Error> {
    if parent == 0 then Success("")
    else if parent !in rows || rows[parent].tenant != tenant then Failure(ParentNotFound)
    else if rows[parent].kind != FOLDER then Failure(ParentNotFolder)
    else Success(rows[parent].path)
  }

  function Children(rows: Table, tenant: int, parent: int): set<nat> {
    set id: nat | id in rows && rows[id].tenant == tenant && rows[id].parent == parent
  }

  /** `tenant_id = ? AND path LIKE prefix%`. */
  function UnderPath(rows: Table, tenant: int, prefix: string): set<nat> {
    set id: nat | id in rows && rows[id].tenant == tenant && Like(rows[id].path, prefix + "%")
  }

  function ClampIndex(index: Option<int>, count: nat): (v: int)
    ensures 0 <= v <= count
    ensures index.Some? && 0 <= index.value <= count ==> v == index.value
    ensures index.Some? && index.value < 0 ==> v == 0
    ensures index.None? || index.value > count ==> v == count
  {
    if index.None? then count
    else if index.value < 0 then 0
    else if index.value > count then count
    else index.value
  }

  /** The prefix query of a node returns exactly its parent-id descendants and itself. */
  lemma UnderPathIsSubtree(rows: Table, a: int)
    requires WellFormed(rows) && a in rows
    ensures UnderPath(rows, rows[a].tenant, rows[a].path) == set d: nat | d in rows && Below(rows, d, a)
  {
    PathIsTrail(rows, a);
    RenderHasNoWildcard(Trail(rows, a));
    forall d | d in rows
      ensures d in UnderPath(rows, rows[a].tenant, rows[a].path) <==> Below(rows, d, a)
    {
      LikeIsPrefix(rows[d].path, rows[a].path);
      PrefixIsBelow(rows, d, a);
      if Below(rows, d, a) {
        BelowSameTenant(rows, d, a);
      }
    }
  }

  // ---- The transactions as functions on the table ----

  function Shifted(rows: Table, tenant: int, parent: int, from: int, except: int): Table {
    map id | id in rows ::
      if rows[id].tenant == tenant && rows[id].parent == parent && id != except && rows[id].order >= from
      then rows[id].(order := rows[id].order + 1)
      else rows[id]
  }

  function MakeRoom(rows: Table, tenant: int, parent: int, index: Option<int>, except: int): Table {
    var count := |Children(rows, tenant, parent)|;
    var at := ClampIndex(index, count);
    if index.Some? && at < count then Shifted(rows, tenant, parent, at, except) else rows
  }

  function Inserted(rows: Table, id: nat, n: Node, index: Option<int>, path: string): Table {
    MakeRoom(rows, n.tenant, n.parent, index, 0)
      [id := n.(order := ClampIndex(index, |Children(rows, n.tenant, n.parent)|), path := path + Segment(id))]
  }

  /** A row added with an order counted beforehand. */
  function Appended(rows: Table, id: nat, n: Node, count: nat, path: string): Table {
    rows[id := n.(order := count, path := path + Segment(id))]
  }

  function TrimPrefix(s: string, p: string): string {
    if p <= s then s[|p|..] else s
  }

  /** The row written back for `x` when the subtree of `id` moves under `parent`. */
  function Relocated(row: Node, snapshot: Node, x: int, id: nat, oldPrefix: string,
                     parent: int, newPath: string, order: int): Node {
    row.(parent := if x == id then parent else snapshot.parent,
         path := newPath + Segment(id) + TrimPrefix(snapshot.path, oldPrefix),
         order := if x == id then order else snapshot.order)
  }

  /** The table once the rows of `done` have been written back. */
  function WrittenBack(roomy: Table, snapshot: Table, done: set<nat>, id: nat, oldPrefix: string,
                       parent: int, newPath: string, order: int): Table
    requires roomy.Keys == snapshot.Keys
  {
    map x | x in roomy :: if x in done then Relocated(roomy[x], snapshot[x], x, id, oldPrefix, parent, newPath, order)
                          else roomy[x]
  }

  /** The transaction of a move, on a node whose path was read as `oldPrefix`. */
  function Committed(rows: Table, tenant: int, id: nat, oldPrefix: string, parent: int, newPath: string,
                     index: Option<int>): Table {
    WrittenBack(MakeRoom(rows, tenant, parent, index, id), rows, UnderPath(rows, tenant, oldPrefix), id, oldPrefix,
                parent, newPath, ClampIndex(index, |Children(rows, tenant, parent)|))
  }

  function Moved(rows: Table, id: nat, parent: int, newPath: string, index: Option<int>): Table
    requires id in rows
  {
    Committed(rows, rows[id].tenant, id, rows[id].path, parent, newPath, index)
  }

  function WithOrder(rows: Table, tenant: int, id: int, order: int): Table {
    if id in rows && rows[id].tenant == tenant then rows[id := rows[id].(order := order)] else rows
  }

  /** Rows after the first `n` positions of the list have been written. */
  function Reordered(rows: Table, tenant: int, ids: seq<int>, n: nat): Table
    requires n <= |ids|
  {
    if n == 0 then rows else WithOrder(Reordered(rows, tenant, ids, n - 1), tenant, ids[n - 1], n - 1)
  }

  // ---- One request, one outcome ----

  datatype Request =
    | CreateFolder(tenant: int, project: int, projectOk: bool, name: string, parent: int, id: nat)
    | Mount(tenant: int, project: int, projectOk: bool, apiId: int, refType: int, refId: int,
            entity: Option<string>, parent: int, index: Option<int>, id: nat)
    | Move(tenant: int, node: int, parent: int, index: Option<int>)
    | DeleteFolder(tenant: int, node: int)
    | Unmount(tenant: int, node: int)
    | Reorder(tenant: int, ids: seq<int>)
    // The gRPC twins append only, and mounting there does not look for an earlier mount.
    | CopilotMount(tenant: int, project: int, refType: int, refId: int, entity: Option<string>, parent: int, id: nat)
    | CopilotMove(tenant: int, node: int, parent: int)

  /** `NextID` hands out positive identifiers it has never handed out before. */
  ghost predicate FreshId(rows: Table, q: Request) {
    q.CreateFolder? || q.Mount? || q.CopilotMount? ==> q.id > 0 && q.id !in rows
  }

  function MountKind(q: Request): int
    requires q.Mount?
  {
    if q.refType == 0 then HTTP_API else q.refType
  }

  function MountRef(q: Request): int
    requires q.Mount?
  {
    if q.refId == 0 then q.apiId else q.refId
  }

  function MountedAlready(rows: Table, tenant: int, kind: int, refId: int): set<nat> {
    set id: nat | id in rows && rows[id].tenant == tenant && rows[id].kind == kind && rows[id].refId == refId
  }

  /**
   * Why a request is refused, in the order the handler checks; None when it goes through. `atPath` is
   * the table when the parent's path was read, `atNode` the table when the node was.
   */
  function RefusalOn(atPath: Table, atNode: Table, q: Request): Option<Error> {
    match q
    case CreateFolder(tenant, project, projectOk, name, parent, _) =>
      if project == 0 || Text.TrimSpace(name) == "" then Some(InvalidParam)
      else if !projectOk then Some(ProjectNotFound)
      else PathRefusal(atPath, tenant, parent)
    case Mount(tenant, project, projectOk, _, _, _, entity, parent, _, _) =>
      if project == 0 then Some(InvalidParam)
      else if !projectOk then Some(ProjectNotFound)
      else if MountRef(q) == 0 || MountKind(q) !in {HTTP_API, TEST_CASE, SUITE, DATA_MODEL} then Some(InvalidParam)
      else if entity.None? then Some(EntityNotFound)
      else if NodePath(atPath, tenant, parent).Failure? then PathRefusal(atPath, tenant, parent)
      else if MountedAlready(atNode, tenant, MountKind(q), MountRef(q)) != {} then Some(AlreadyMounted)
      else None
    case Move(tenant, node, parent, _) =>
      if NodePath(atPath, tenant, parent).Failure? then PathRefusal(atPath, tenant, parent)
      else if node !in atNode || atNode[node].tenant != tenant then Some(NodeNotFound)
      else MoveRefusalOn(atPath, atNode, node, parent)
    case DeleteFolder(tenant, node) =>
      if node !in atNode || atNode[node].tenant != tenant || atNode[node].kind != FOLDER then Some(NodeNotFound) else None
    case Unmount(tenant, node) =>
      if node !in atNode || atNode[node].tenant != tenant || atNode[node].kind !in {HTTP_API, TEST_CASE, SUITE, DATA_MODEL}
      then Some(NodeNotFound) else None
    case Reorder(_, ids) => if ids == [] then Some(InvalidParam) else None
    case CopilotMount(tenant, project, refType, refId, entity, parent, _) =>
      if refType !in {HTTP_API, GRPC_API, TEST_CASE, SUITE} then Some(InvalidParam)
      else if entity.None? then Some(EntityNotFound)
      else PathRefusal(atPath, tenant, parent)
    case CopilotMove(tenant, node, parent) =>
      if node !in atNode || atNode[node].tenant != tenant then Some(NodeNotFound)
      else if NodePath(atPath, tenant, parent).Failure? then PathRefusal(atPath, tenant, parent)
      else MoveRefusalOn(atPath, atNode, node, parent)
  }

  function PathRefusal(rows: Table, tenant: int, parent: int): Option<Error> {
    var p := NodePath(rows, tenant, parent);
    if p.Failure? then Some(p.error) else None
  }

  /** The cycle test is a prefix test on paths; moving a node to its own parent is accepted. */
  function MoveRefusalOn(atPath: Table, atNode: Table, node: int, parent: int): Option<Error>
    requires node in atNode
  {
    var newPath := PathOf(atPath, parent);
    if parent != atNode[node].parent && newPath != "" && atNode[node].path <= newPath then Some(OwnSubtree) else None
  }

  /** The table after the transaction of an accepted request: removals of a leaf read and write in one statement. */
  function AcceptedOn(rows: Table, atPath: Table, atNode: Table, q: Request): Table
    requires RefusalOn(atPath, atNode, q).None?
  {
    match q
    case CreateFolder(tenant, project, _, name, parent, id) =>
      Appended(rows, id, Node(tenant, project, parent, FOLDER, 0, Text.TrimSpace(name), 0, ""),
               |Children(atNode, tenant, parent)|, PathOf(atPath, parent))
    case Mount(tenant, project, _, _, _, _, entity, parent, index, id) =>
      Inserted(rows, id, Node(tenant, project, parent, MountKind(q), MountRef(q), entity.value, 0, ""), index,
               PathOf(atPath, parent))
    case Move(tenant, node, parent, index) =>
      if parent == atNode[node].parent then rows
      else Committed(rows, tenant, node, atNode[node].path, parent, PathOf(atPath, parent), index)
    case DeleteFolder(tenant, node) => rows - UnderPath(rows, tenant, atNode[node].path)
    case Unmount(_, node) => rows - {node}
    case Reorder(tenant, ids) => Reordered(rows, tenant, ids, |ids|)
    case CopilotMount(tenant, project, refType, refId, entity, parent, id) =>
      Appended(rows, id, Node(tenant, project, parent, refType, refId, entity.value, 0, ""),
               |Children(atNode, tenant, parent)|, PathOf(atPath, parent))
    case CopilotMove(tenant, node, parent) =>
      if parent == atNode[node].parent then rows
      else Committed(rows, tenant, node, atNode[node].path, parent, PathOf(atPath, parent), None)
  }

  function ApplyOn(rows: Table, atPath: Table, atNode: Table, q: Request): Table {
    if RefusalOn(atPath, atNode, q).None? then AcceptedOn(rows, atPath, atNode, q) else rows
  }

  // ---- A request that nothing comes in between of ----

  function Refusal(rows: Table, q: Request): Option<Error> {
    RefusalOn(rows, rows, q)
  }

  function MoveRefusal(rows: Table, node: int, parent: int): Option<Error>
    requires node in rows
  {
    MoveRefusalOn(rows, rows, node, parent)
  }

  function Apply(rows: Table, q: Request): Table {
    ApplyOn(rows, rows, rows, q)
  }
}
