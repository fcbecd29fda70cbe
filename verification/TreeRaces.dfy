/**
 * Requests that interleave: the parent's path, the node and the cycle test are read before the
 * transaction, so what it commits may rest on a table that is no longer there.
 */
module TreeRaces {
  import opened Prelude
  import opened TreePaths
  import opened DirectoryTree
  import opened TreeTheorems
  import Text

  /** Identifiers are never handed out twice, and no request changes a node's kind or tenant. */
  ghost predicate Kin(earlier: Table, rows: Table) {
    forall x :: x in earlier && x in rows ==> rows[x].kind == earlier[x].kind && rows[x].tenant == earlier[x].tenant
  }

  /** The target is where it was when its path was read. */
  predicate TargetCurrent(rows: Table, atPath: Table, parent: int) {
    parent == 0 || (parent in rows && rows[parent].path == PathOf(atPath, parent))
  }

  /** The node is no longer where it was when it was read. */
  predicate NodeGone(rows: Table, atNode: Table, node: int)
    requires node in atNode
  {
    node !in rows || rows[node].path != atNode[node].path
  }

  predicate Harmless(rows: Table, atPath: Table, atNode: Table, q: Request)
    requires RefusalOn(atPath, atNode, q).None?
  {
    if q.CreateFolder? || q.Mount? || q.CopilotMount? then TargetCurrent(rows, atPath, q.parent)
    else if q.Move? || q.CopilotMove?
    then q.parent == atNode[q.node].parent || NodeGone(rows, atNode, q.node) || TargetCurrent(rows, atPath, q.parent)
    else true
  }

  // ---- A path that is no longer a node's selects nothing ----

  lemma {:induction false} TrailPrefix(rows: Table, x: nat, j: nat)
    requires WellFormed(rows) && x in rows && j < |Trail(rows, x)|
    ensures Trail(rows, x)[j] in rows && Trail(rows, Trail(rows, x)[j]) == Trail(rows, x)[..j + 1]
    decreases |rows[x].path|
  {
    assert NodeOk(rows, x);
    var t := Trail(rows, x);
    if j == |t| - 1 {
      assert t[..j + 1] == t;
    } else {
      TrailPrefix(rows, rows[x].parent, j);
      assert t[..|t| - 1] == Trail(rows, rows[x].parent);
    }
  }

  lemma StaleSelectsNothing(rows: Table, atNode: Table, id: nat, tenant: int)
    requires WellFormed(rows) && WellFormed(atNode) && id in atNode && NodeGone(rows, atNode, id)
    ensures UnderPath(rows, tenant, atNode[id].path) == {}
  {
    var t := Trail(atNode, id);
    PathIsTrail(atNode, id);
    RenderHasNoWildcard(t);
    forall x | x in rows
      ensures !Like(rows[x].path, atNode[id].path + "%")
    {
      LikeIsPrefix(rows[x].path, atNode[id].path);
      PathIsTrail(rows, x);
      RenderPrefix(t, Trail(rows, x));
      if t <= Trail(rows, x) {
        TrailPrefix(rows, x, |t| - 1);
        assert Trail(rows, x)[..|t|] == t;
        PathIsTrail(rows, id);
        assert false;
      }
    }
  }

  // ---- One commit ----

  lemma RoomShape(rows: Table, tenant: int, parent: int, index: Option<int>, except: int)
    ensures SameShape(rows, MakeRoom(rows, tenant, parent, index, except))
  {
  }

  lemma StaleMoveKeeps(rows: Table, atNode: Table, id: nat, tenant: int, parent: int, newPath: string, index: Option<int>)
    requires WellFormed(rows) && WellFormed(atNode) && id in atNode && NodeGone(rows, atNode, id)
    ensures SameShape(rows, Committed(rows, tenant, id, atNode[id].path, parent, newPath, index))
  {
    StaleSelectsNothing(rows, atNode, id, tenant);
    RoomShape(rows, tenant, parent, index, id);
  }

  lemma CurrentMoveKeeps(rows: Table, node: nat, parent: int, index: Option<int>)
    requires WellFormed(rows) && node in rows && GoodParent(rows, rows[node].tenant, parent)
    requires parent != 0 ==> !(rows[node].path <= PathOf(rows, parent))
    ensures WellFormed(Moved(rows, node, parent, PathOf(rows, parent), index))
  {
    if parent != 0 {
      PrefixIsBelow(rows, parent, node);
    }
    MovedIsMove(rows, node, parent, index);
    MoveKeepsWellFormed(rows, node, parent, index, Moved(rows, node, parent, PathOf(rows, parent), index));
  }

  lemma CarriedPath(rows: Table, node: nat, parent: int, newPath: string, index: Option<int>, x: nat)
    requires WellFormed(rows) && node in rows
    ensures x in rows && Below(rows, x, node) ==> |Moved(rows, node, parent, newPath, index)[x].path| > |newPath|
    ensures x in rows && !Below(rows, x, node) ==> Moved(rows, node, parent, newPath, index)[x].path == rows[x].path
  {
    UnderPathIsSubtree(rows, node);
  }

  /** A node put under a path its target has not got: the target is elsewhere, gone, or carried along. */
  lemma WrongPathShows(rows: Table, node: nat, parent: int, newPath: string, index: Option<int>)
    requires WellFormed(rows) && node in rows && parent != 0
    requires WellFormed(Moved(rows, node, parent, newPath, index))
    ensures parent in rows && rows[parent].path == newPath
  {
    var after := Moved(rows, node, parent, newPath, index);
    UnderPathIsSubtree(rows, node);
    assert after[node].parent == parent && after[node].path == newPath + Segment(node) + "";
    assert NodeOk(after, node);
    assert after[node].path == newPath + Segment(node);
    SameBefore(newPath, PathOf(after, parent), Segment(node));
    assert after[parent].path == newPath;
    CarriedPath(rows, node, parent, newPath, index, parent);
  }

  lemma SameBefore(a: string, b: string, tail: string)
    requires a + tail == b + tail
    ensures a == b
  {
    assert |a| == |b|;
    assert (a + tail)[..|a|] == a && (b + tail)[..|b|] == b;
  }

  lemma MoveExactly(rows: Table, atPath: Table, atNode: Table, tenant: int, node: nat, parent: int, index: Option<int>)
    requires WellFormed(rows) && WellFormed(atPath) && WellFormed(atNode) && Kin(atPath, rows) && Kin(atNode, rows)
    requires node in atNode && atNode[node].tenant == tenant && GoodParent(atPath, tenant, parent)
    requires PathOf(atPath, parent) != "" ==> !(atNode[node].path <= PathOf(atPath, parent))
    ensures WellFormed(Committed(rows, tenant, node, atNode[node].path, parent, PathOf(atPath, parent), index)) <==>
            NodeGone(rows, atNode, node) || TargetCurrent(rows, atPath, parent)
  {
    var newPath := PathOf(atPath, parent);
    var after := Committed(rows, tenant, node, atNode[node].path, parent, newPath, index);
    if NodeGone(rows, atNode, node) {
      StaleMoveKeeps(rows, atNode, node, tenant, parent, newPath, index);
      ShapeKeepsWellFormed(rows, after);
    } else {
      assert after == Moved(rows, node, parent, newPath, index);
      if TargetCurrent(rows, atPath, parent) {
        assert parent != 0 ==> NodeOk(atPath, parent);
        CurrentMoveKeeps(rows, node, parent, index);
      } else if WellFormed(after) {
        WrongPathShows(rows, node, parent, newPath, index);
        assert false;
      }
    }
  }

  lemma InsertExactly(rows: Table, atPath: Table, id: nat, n: Node, after: Table)
    requires WellFormed(rows) && WellFormed(atPath) && Kin(atPath, rows) && id > 0 && id !in rows
    requires GoodParent(atPath, n.tenant, n.parent)
    requires after.Keys == rows.Keys + {id} && forall x :: x in rows ==> after[x] == rows[x].(order := after[x].order)
    requires after[id] == n.(order := after[id].order, path := PathOf(atPath, n.parent) + Segment(id))
    ensures WellFormed(after) <==> TargetCurrent(rows, atPath, n.parent)
  {
    if TargetCurrent(rows, atPath, n.parent) {
      forall x | x in after
        ensures NodeOk(after, x)
      {
        assert x != id ==> NodeOk(rows, x);
      }
    }
    if WellFormed(after) {
      InsertShows(rows, id, n, PathOf(atPath, n.parent), after);
    }
  }

  lemma InsertShows(rows: Table, id: nat, n: Node, path: string, after: Table)
    requires WellFormed(after) && id > 0 && after.Keys == rows.Keys + {id}
    requires forall x :: x in rows && x != id ==> after[x] == rows[x].(order := after[x].order)
    requires after[id] == n.(order := after[id].order, path := path + Segment(id))
    ensures n.parent == 0 || (n.parent in rows && n.parent != id && rows[n.parent].path == path)
  {
    assert |after[id].path| > |path|;
    assert NodeOk(after, id);
    SameBefore(path, PathOf(after, n.parent), Segment(id));
  }

  lemma RemovalKeeps(rows: Table, atNode: Table, q: Request)
    requires WellFormed(rows) && WellFormed(atNode) && Kin(atNode, rows)
    requires (q.DeleteFolder? || q.Unmount?) && RefusalOn(atNode, atNode, q).None?
    ensures WellFormed(ApplyOn(rows, atNode, atNode, q))
  {
    if q.DeleteFolder? {
      if NodeGone(rows, atNode, q.node) {
        StaleSelectsNothing(rows, atNode, q.node, q.tenant);
        assert rows - {} == rows;
      } else {
        DeletedKeepsWellFormed(rows, q.node);
      }
    } else if q.node in rows {
      UnmountedKeepsWellFormed(rows, q.node);
    } else {
      assert rows - {q.node} == rows;
    }
  }

  /**
   * A commit keeps the index in step with the parent ids exactly when the target is still where it was
   * when its path was read, or a node to be moved no longer is where it was: then nothing is moved.
   */
  lemma CommitKeepsExactly(rows: Table, atPath: Table, atNode: Table, q: Request)
    requires WellFormed(rows) && WellFormed(atPath) && WellFormed(atNode) && Kin(atPath, rows) && Kin(atNode, rows)
    requires FreshId(rows, q) && RefusalOn(atPath, atNode, q).None?
    ensures WellFormed(ApplyOn(rows, atPath, atNode, q)) <==> Harmless(rows, atPath, atNode, q)
  {
    hide WellFormed;
    var after := ApplyOn(rows, atPath, atNode, q);
    match q
    case CreateFolder(tenant, project, _, name, parent, id) =>
      InsertExactly(rows, atPath, id, Node(tenant, project, parent, FOLDER, 0, Text.TrimSpace(name), 0, ""), after);
    case Mount(tenant, project, _, _, _, _, entity, parent, index, id) =>
      RoomShape(rows, tenant, parent, index, 0);
      InsertExactly(rows, atPath, id, Node(tenant, project, parent, MountKind(q), MountRef(q), entity.value, 0, ""), after);
    case Move(tenant, node, parent, index) =>
      if parent != atNode[node].parent {
        MoveExactly(rows, atPath, atNode, tenant, node, parent, index);
      }
    case DeleteFolder(_, _) => RemovalKeeps(rows, atNode, q);
    case Unmount(_, _) => RemovalKeeps(rows, atNode, q);
    case Reorder(tenant, ids) =>
      ReorderedShape(rows, tenant, ids, |ids|);
      ShapeKeepsWellFormed(rows, after);
    case CopilotMount(tenant, project, refType, refId, entity, parent, id) =>
      InsertExactly(rows, atPath, id, Node(tenant, project, parent, refType, refId, entity.value, 0, ""), after);
    case CopilotMove(tenant, node, parent) =>
      if parent != atNode[node].parent {
        MoveExactly(rows, atPath, atNode, tenant, node, parent, None);
      }
  }

  // ---- Any interleaving ----

  /** A request, and after how many commits its two reads were made. */
  datatype Late = Late(q: Request, pathRead: nat, nodeRead: nat)

  /** Reads come before the commit; unmounting reads and writes in one statement. */
  predicate Timely(es: seq<Late>) {
    forall k :: 0 <= k < |es| ==> es[k].pathRead <= k && es[k].nodeRead <= k && (es[k].q.Unmount? ==> es[k].nodeRead == k)
  }

  /** The table after the first `k` commits. */
  function Tables(es: seq<Late>, k: nat): Table
    requires k <= |es| && Timely(es)
    decreases k
  {
    if k == 0 then map[]
    else
      var e := es[k - 1];
      ApplyOn(Tables(es, k - 1), Tables(es, e.pathRead), Tables(es, e.nodeRead), e.q)
  }

  ghost predicate NeverReused(es: seq<Late>)
    requires Timely(es)
  {
    forall j, k :: 0 <= j <= k < |es| ==> FreshId(Tables(es, j), es[k].q)
  }

  predicate Passes(es: seq<Late>, k: nat)
    requires k < |es| && Timely(es)
  {
    var e := es[k];
    || RefusalOn(Tables(es, e.pathRead), Tables(es, e.nodeRead), e.q).Some?
    || Harmless(Tables(es, k), Tables(es, e.pathRead), Tables(es, e.nodeRead), e.q)
  }

  lemma CommitKeepsKin(earlier: Table, rows: Table, atPath: Table, atNode: Table, q: Request)
    requires Kin(earlier, rows) && FreshId(earlier, q)
    ensures Kin(earlier, ApplyOn(rows, atPath, atNode, q))
  {
    if q.Reorder? {
      ReorderedShape(rows, q.tenant, q.ids, |q.ids|);
    }
  }

  lemma {:induction false} AlwaysKin(es: seq<Late>, j: nat, k: nat)
    requires j <= k <= |es| && Timely(es) && NeverReused(es)
    ensures Kin(Tables(es, j), Tables(es, k))
    decreases k - j
  {
    hide ApplyOn, FreshId;
    if j < k {
      AlwaysKin(es, j, k - 1);
      var e := es[k - 1];
      assert FreshId(Tables(es, j), e.q);
      CommitKeepsKin(Tables(es, j), Tables(es, k - 1), Tables(es, e.pathRead), Tables(es, e.nodeRead), e.q);
    }
  }

  lemma CommitAt(es: seq<Late>, k: nat)
    requires k < |es| && Timely(es) && NeverReused(es)
    requires forall j :: 0 <= j <= k ==> WellFormed(Tables(es, j))
    ensures WellFormed(Tables(es, k + 1)) <==> Passes(es, k)
  {
    hide ApplyOn, FreshId, WellFormed, Harmless, Kin;
    var e := es[k];
    AlwaysKin(es, e.pathRead, k);
    AlwaysKin(es, e.nodeRead, k);
    assert FreshId(Tables(es, k), e.q);
    if RefusalOn(Tables(es, e.pathRead), Tables(es, e.nodeRead), e.q).None? {
      CommitKeepsExactly(Tables(es, k), Tables(es, e.pathRead), Tables(es, e.nodeRead), e.q);
    } else {
      RefusedChangesNothing(Tables(es, k), Tables(es, e.pathRead), Tables(es, e.nodeRead), e.q);
    }
  }

  lemma RefusedChangesNothing(rows: Table, atPath: Table, atNode: Table, q: Request)
    requires RefusalOn(atPath, atNode, q).Some?
    ensures ApplyOn(rows, atPath, atNode, q) == rows
  {
  }

  lemma {:induction false} WellFormedWhile(es: seq<Late>, k: nat)
    requires k <= |es| && Timely(es) && NeverReused(es)
    requires forall j :: 0 <= j < k ==> Passes(es, j)
    ensures forall j :: 0 <= j <= k ==> WellFormed(Tables(es, j))
  {
    hide ApplyOn, FreshId, Passes;
    if k > 0 {
      WellFormedWhile(es, k - 1);
      CommitAt(es, k - 1);
    }
  }

  ghost predicate AlwaysWellFormed(es: seq<Late>)
    requires Timely(es)
  {
    forall k :: 0 <= k <= |es| ==> WellFormed(Tables(es, k))
  }

  ghost predicate AllPass(es: seq<Late>)
    requires Timely(es)
  {
    forall k :: 0 <= k < |es| ==> Passes(es, k)
  }

  lemma OnlyThen(es: seq<Late>)
    requires Timely(es) && NeverReused(es) && AlwaysWellFormed(es)
    ensures AllPass(es)
  {
    hide ApplyOn, FreshId, Passes;
    forall k | 0 <= k < |es| ensures Passes(es, k) {
      CommitAt(es, k);
    }
  }

  /**
   * Over any interleaving from the empty table: every table on the way is well-formed - and so free of
   * cycles - iff every request is refused or harmless when it commits.
   */
  lemma InterleavingsExactly(es: seq<Late>)
    requires Timely(es) && NeverReused(es)
    ensures AlwaysWellFormed(es) <==> AllPass(es)
  {
    hide ApplyOn, FreshId, Passes;
    if AlwaysWellFormed(es) {
      OnlyThen(es);
    }
    if AllPass(es) {
      WellFormedWhile(es, |es|);
    }
  }

  // ---- Two moves that cross ----

  /** Two moves of each node under the other, both tested on the same table, both go through: a cycle. */
  lemma CrossingMovesCloseCycle(rows: Table, tenant: int, a: nat, b: nat, i: Option<int>, j: Option<int>)
    requires WellFormed(rows) && Refusal(rows, Move(tenant, a, b, i)).None? && Refusal(rows, Move(tenant, b, a, j)).None?
    requires rows[a].parent != b && rows[b].parent != a
    ensures var after := ApplyOn(Apply(rows, Move(tenant, a, b, i)), rows, rows, Move(tenant, b, a, j));
            && a in after && b in after && after[a].parent == b && after[b].parent == a
            && OnCycle(after, a) && !WellFormed(after)
  {
    var q := Move(tenant, a, b, i);
    var between := Apply(rows, q);
    var after := ApplyOn(between, rows, rows, Move(tenant, b, a, j));
    MoveRefusedExactly(rows, a, b);
    MoveTransplants(rows, q, b, b);
    MovedIsMove(rows, a, b, i);
    assert MovedRow(rows, a, b, i, b, between[b]);
    assert MovedRow(rows, a, b, i, a, between[a]);
    UnderPathIsSubtree(between, b);
    assert NodeOk(between, a);
    assert after[b].parent == a && after[a].parent == b;
    assert Chain(after, a, 2) == Chain(after, b, 1) == Chain(after, a, 0) == a;
    if WellFormed(after) {
      Acyclic(after, a);
      assert false;
    }
  }

  predicate CrossingSchedule(es: seq<Late>, tenant: int, project: int, name: string, a: nat, b: nat) {
    && |es| == 4
    && es[0] == Late(CreateFolder(tenant, project, true, name, 0, a), 0, 0)
    && es[1] == Late(CreateFolder(tenant, project, true, name, 0, b), 1, 1)
    && es[2] == Late(Move(tenant, a, b, None), 2, 2)
    && es[3] == Late(Move(tenant, b, a, None), 2, 2)
  }

  lemma FirstTables(es: seq<Late>, tenant: int, project: int, name: string, a: nat, b: nat)
    requires CrossingSchedule(es, tenant, project, name, a, b) && Timely(es)
    ensures Tables(es, 0) == map[] && Tables(es, 1) == Apply(Tables(es, 0), es[0].q)
    ensures Tables(es, 2) == Apply(Tables(es, 1), es[1].q) && Tables(es, 3) == Apply(Tables(es, 2), es[2].q)
    ensures Tables(es, 4) == ApplyOn(Tables(es, 3), Tables(es, 2), Tables(es, 2), es[3].q)
  {
    hide ApplyOn;
    assert es[1].pathRead == 1 && es[1].nodeRead == 1;
  }

  lemma TwoFolders(tenant: int, project: int, name: string, a: nat, b: nat, t1: Table, t2: Table)
    requires 0 < a < b && project != 0 && Text.TrimSpace(name) != ""
    requires t1 == Apply(map[], CreateFolder(tenant, project, true, name, 0, a))
    requires t2 == Apply(t1, CreateFolder(tenant, project, true, name, 0, b))
    ensures t1.Keys == {a} && t2.Keys == {a, b} && WellFormed(t2)
    ensures t2[a].parent == 0 && t2[b].parent == 0
    ensures Refusal(t2, Move(tenant, a, b, None)).None? && Refusal(t2, Move(tenant, b, a, None)).None?
  {
    hide ApplyOn, RefusalOn;
    RootCreated(map[], tenant, project, name, a);
    RootCreated(t1, tenant, project, name, b);
    TwoRoots(t2, tenant, a, b);
  }

  lemma FreshFolders(es: seq<Late>, tenant: int, project: int, name: string, a: nat, b: nat)
    requires CrossingSchedule(es, tenant, project, name, a, b) && Timely(es) && 0 < a < b
    requires Tables(es, 0).Keys == {} && Tables(es, 1).Keys == {a}
    ensures NeverReused(es)
  {
    hide Tables, Timely;
    forall j, k | 0 <= j <= k < |es| ensures FreshId(Tables(es, j), es[k].q) {
      if k == 1 && j == 1 {
        assert b !in Tables(es, 1).Keys;
      }
    }
  }

  lemma RootCreated(rows: Table, tenant: int, project: int, name: string, id: nat)
    requires WellFormed(rows) && id > 0 && id !in rows && project != 0 && Text.TrimSpace(name) != ""
    ensures var after := Apply(rows, CreateFolder(tenant, project, true, name, 0, id));
            && WellFormed(after) && after.Keys == rows.Keys + {id}
            && after[id].parent == 0 && after[id].kind == FOLDER && after[id].tenant == tenant
            && forall x :: x in rows ==> after[x] == rows[x]
  {
    ApplyKeepsWellFormed(rows, CreateFolder(tenant, project, true, name, 0, id));
  }

  lemma TwoRoots(rows: Table, tenant: int, a: nat, b: nat)
    requires WellFormed(rows) && a in rows && b in rows && a != b
    requires rows[a].parent == 0 && rows[b].parent == 0 && rows[a].kind == FOLDER && rows[b].kind == FOLDER
    requires rows[a].tenant == tenant && rows[b].tenant == tenant
    ensures Refusal(rows, Move(tenant, a, b, None)).None? && Refusal(rows, Move(tenant, b, a, None)).None?
  {
    assert NodeOk(rows, a) && NodeOk(rows, b);
    MoveRefusedExactly(rows, a, b);
    MoveRefusedExactly(rows, b, a);
  }

  /** It happens to two folders just created. */
  lemma CrossingFromEmpty(es: seq<Late>, tenant: int, project: int, name: string, a: nat, b: nat)
    requires CrossingSchedule(es, tenant, project, name, a, b)
    requires 0 < a < b && project != 0 && Text.TrimSpace(name) != ""
    ensures Timely(es) && NeverReused(es) && OnCycle(Tables(es, 4), a)
  {
    FirstTables(es, tenant, project, name, a, b);
    TwoFolders(tenant, project, name, a, b, Tables(es, 1), Tables(es, 2));
    FreshFolders(es, tenant, project, name, a, b);
    hide Tables;
    CrossingMovesCloseCycle(Tables(es, 2), tenant, a, b, None, None);
  }
}
