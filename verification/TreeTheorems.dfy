/** What every request on the directory tree keeps, refuses and leaves alone. */
module TreeTheorems {
  import opened Prelude
  import opened TreePaths
  import opened DirectoryTree
  import Text

  /** Same nodes, differing in nothing but their order. */
  ghost predicate SameShape(rows: Table, rows': Table) {
    rows'.Keys == rows.Keys && forall x :: x in rows ==> rows'[x] == rows[x].(order := rows'[x].order)
  }

  lemma ShapeKeepsWellFormed(rows: Table, rows': Table)
    requires WellFormed(rows) && SameShape(rows, rows')
    ensures WellFormed(rows')
  {
    forall x | x in rows'
      ensures NodeOk(rows', x)
    {
      assert NodeOk(rows, x);
    }
  }

  lemma {:induction false} ReorderedShape(rows: Table, tenant: int, ids: seq<int>, n: nat)
    requires n <= |ids|
    ensures SameShape(rows, Reordered(rows, tenant, ids, n))
  {
    if n > 0 {
      ReorderedShape(rows, tenant, ids, n - 1);
    }
  }

  ghost predicate GoodParent(rows: Table, tenant: int, parent: int) {
    parent != 0 ==> parent in rows && rows[parent].kind == FOLDER && rows[parent].tenant == tenant
  }

  lemma AppendedIsInserted(rows: Table, id: nat, n: Node)
    ensures Appended(rows, id, n, |Children(rows, n.tenant, n.parent)|, PathOf(rows, n.parent))
            == Inserted(rows, id, n, None, PathOf(rows, n.parent))
  {
  }

  lemma InsertedKeepsWellFormed(rows: Table, id: nat, n: Node, index: Option<int>)
    requires WellFormed(rows) && id > 0 && id !in rows && GoodParent(rows, n.tenant, n.parent)
    ensures WellFormed(Inserted(rows, id, n, index, PathOf(rows, n.parent)))
  {
    var rows' := Inserted(rows, id, n, index, PathOf(rows, n.parent));
    forall x | x in rows'
      ensures NodeOk(rows', x)
    {
      if x != id {
        assert NodeOk(rows, x);
      }
    }
  }

  /** A node of the moved subtree other than its top has its parent in the subtree too. */
  lemma SubtreeStep(rows: Table, top: nat, x: nat)
    requires WellFormed(rows) && top in rows && x in rows && x != top
    ensures Below(rows, x, top) <==> rows[x].parent in rows && Below(rows, rows[x].parent, top)
  {
    assert NodeOk(rows, x);
  }

  /** `after` is `rows` with the subtree of `top` rewritten for its new place. */
  ghost predicate IsMove(rows: Table, top: nat, parent: int, index: Option<int>, after: Table)
    requires WellFormed(rows) && top in rows
  {
    && after.Keys == rows.Keys
    && forall x {:trigger after[x]} :: x in rows ==> MovedRow(rows, top, parent, index, x, after[x])
  }

  ghost predicate MovedRow(rows: Table, top: nat, parent: int, index: Option<int>, x: nat, row: Node)
    requires WellFormed(rows) && top in rows && x in rows
  {
    var n, was := rows[top], rows[x];
    var kids := Children(rows, n.tenant, parent);
    var at := ClampIndex(index, |kids|);
    && row == was.(parent := row.parent, path := row.path, order := row.order)
    && if Below(rows, x, top) then
         && row.parent == (if x == top then parent else was.parent)
         && n.path <= was.path
         && row.path == PathOf(rows, parent) + Segment(top) + was.path[|n.path|..]
         && row.order == (if x == top then at else was.order)
       else
         && row.parent == was.parent && row.path == was.path
         && row.order == was.order + (if x in kids && index.Some? && at <= was.order && at < |kids| then 1 else 0)
  }

  lemma MovedIsMove(rows: Table, top: nat, parent: int, index: Option<int>)
    requires WellFormed(rows) && top in rows
    ensures IsMove(rows, top, parent, index, Moved(rows, top, parent, PathOf(rows, parent), index))
  {
    var after := Moved(rows, top, parent, PathOf(rows, parent), index);
    UnderPathIsSubtree(rows, top);
    forall x | x in rows
      ensures MovedRow(rows, top, parent, index, x, after[x])
    {
      PrefixIsBelow(rows, x, top);
    }
  }

  /** Below the top, the new path is again the new parent path and the segment. */
  lemma MovedPath(rows: Table, top: nat, x: nat, p: nat, prefix: string)
    requires WellFormed(rows) && top in rows && x in rows && p in rows && rows[x].parent == p
    requires rows[top].path <= rows[p].path
    ensures var cut := |rows[top].path|;
            rows[top].path <= rows[x].path &&
            prefix + rows[x].path[cut..] == prefix + rows[p].path[cut..] + Segment(x)
  {
    assert NodeOk(rows, x) && NodeOk(rows, p);
    var cut := |rows[top].path|;
    assert rows[x].path == rows[p].path + Segment(x);
    assert rows[x].path[cut..] == rows[p].path[cut..] + Segment(x);
  }

  lemma MoveKeepsNode(rows: Table, top: nat, parent: int, index: Option<int>, after: Table, x: nat)
    requires WellFormed(rows) && top in rows && GoodParent(rows, rows[top].tenant, parent)
    requires parent != 0 ==> !Below(rows, parent, top)
    requires IsMove(rows, top, parent, index, after) && x in rows
    ensures NodeOk(after, x)
  {
    assert NodeOk(rows, x);
    assert MovedRow(rows, top, parent, index, x, after[x]);
    var p := after[x].parent;
    if x == top {
      assert p != 0 ==> MovedRow(rows, top, parent, index, p, after[p]);
    } else {
      SubtreeStep(rows, top, x);
      if p != 0 {
        assert MovedRow(rows, top, parent, index, p, after[p]);
        if Below(rows, x, top) {
          hide Below, GoodParent;
          MovedPath(rows, top, x, p, PathOf(rows, parent) + Segment(top));
        }
      }
    }
  }

  lemma MoveKeepsWellFormed(rows: Table, top: nat, parent: int, index: Option<int>, after: Table)
    requires WellFormed(rows) && top in rows && GoodParent(rows, rows[top].tenant, parent)
    requires parent != 0 ==> !Below(rows, parent, top)
    requires IsMove(rows, top, parent, index, after)
    ensures WellFormed(after)
  {
    forall x | x in after
      ensures NodeOk(after, x)
    {
      MoveKeepsNode(rows, top, parent, index, after, x);
    }
  }

  lemma DeletedKeepsWellFormed(rows: Table, top: nat)
    requires WellFormed(rows) && top in rows
    ensures WellFormed(rows - UnderPath(rows, rows[top].tenant, rows[top].path))
  {
    var rows' := rows - UnderPath(rows, rows[top].tenant, rows[top].path);
    UnderPathIsSubtree(rows, top);
    forall x | x in rows'
      ensures NodeOk(rows', x)
    {
      assert NodeOk(rows, x);
      SubtreeStep(rows, top, x);
    }
  }

  lemma UnmountedKeepsWellFormed(rows: Table, leaf: nat)
    requires WellFormed(rows) && leaf in rows && rows[leaf].kind != FOLDER
    ensures WellFormed(rows - {leaf})
  {
    forall x | x in rows - {leaf}
      ensures NodeOk(rows - {leaf}, x)
    {
      assert NodeOk(rows, x);
    }
  }

  /** The cycle test on paths is exactly "the target lies in the moved node's subtree". */
  lemma MoveRefusedExactly(rows: Table, node: nat, parent: int)
    requires WellFormed(rows) && node in rows && GoodParent(rows, rows[node].tenant, parent)
    requires parent != rows[node].parent
    ensures MoveRefusal(rows, node, parent) == Some(OwnSubtree) <==> parent != 0 && Below(rows, parent, node)
  {
    if parent != 0 {
      assert NodeOk(rows, parent);
      PrefixIsBelow(rows, parent, node);
    }
  }

  /** Every accepted request keeps the index in step with the parent ids. */
  lemma ApplyKeepsWellFormed(rows: Table, q: Request)
    requires WellFormed(rows) && FreshId(rows, q)
    ensures WellFormed(Apply(rows, q))
  {
    if Refusal(rows, q).None? {
      match q
      case CreateFolder(tenant, project, _, name, parent, id) =>
        var n := Node(tenant, project, parent, FOLDER, 0, Text.TrimSpace(name), 0, "");
        AppendedIsInserted(rows, id, n);
        InsertedKeepsWellFormed(rows, id, n, None);
      case Mount(tenant, project, _, _, _, _, entity, parent, index, id) =>
        InsertedKeepsWellFormed(rows, id,
          Node(tenant, project, parent, MountKind(q), MountRef(q), entity.value, 0, ""), index);
      case Move(_, node, parent, index) =>
        if parent != rows[node].parent {
          MovedKeepsWellFormed(rows, node, parent, index);
        }
      case DeleteFolder(_, node) =>
        DeletedKeepsWellFormed(rows, node);
      case Unmount(_, node) =>
        UnmountedKeepsWellFormed(rows, node);
      case Reorder(tenant, ids) =>
        ReorderedShape(rows, tenant, ids, |ids|);
        ShapeKeepsWellFormed(rows, Reordered(rows, tenant, ids, |ids|));
      case CopilotMount(tenant, project, refType, refId, entity, parent, id) =>
        var n := Node(tenant, project, parent, refType, refId, entity.value, 0, "");
        AppendedIsInserted(rows, id, n);
        InsertedKeepsWellFormed(rows, id, n, None);
      case CopilotMove(_, node, parent) =>
        if parent != rows[node].parent {
          MovedKeepsWellFormed(rows, node, parent, None);
        }
    }
  }

  lemma MovedKeepsWellFormed(rows: Table, node: nat, parent: int, index: Option<int>)
    requires WellFormed(rows) && node in rows && GoodParent(rows, rows[node].tenant, parent)
    requires MoveRefusal(rows, node, parent).None? && parent != rows[node].parent
    ensures WellFormed(Moved(rows, node, parent, PathOf(rows, parent), index))
  {
    MoveRefusedExactly(rows, node, parent);
    MovedIsMove(rows, node, parent, index);
    MoveKeepsWellFormed(rows, node, parent, index, Moved(rows, node, parent, PathOf(rows, parent), index));
  }

  ghost predicate FreshRun(rows: Table, qs: seq<Request>)
    decreases |qs|
  {
    qs != [] ==> FreshId(rows, qs[0]) && FreshRun(Apply(rows, qs[0]), qs[1..])
  }

  function Run(rows: Table, qs: seq<Request>): Table
    decreases |qs|
  {
    if qs == [] then rows else Run(Apply(rows, qs[0]), qs[1..])
  }

  /** From the empty table, any sequence of requests leaves a well-formed, hence acyclic, table. */
  lemma {:induction false} RunsStayWellFormed(rows: Table, qs: seq<Request>)
    requires WellFormed(rows) && FreshRun(rows, qs)
    ensures WellFormed(Run(rows, qs))
    ensures forall id :: id in Run(rows, qs) ==> !OnCycle(Run(rows, qs), id)
    decreases |qs|
  {
    if qs == [] {
      forall id | id in rows
        ensures !OnCycle(rows, id)
      {
        Acyclic(rows, id);
      }
    } else {
      ApplyKeepsWellFormed(rows, qs[0]);
      RunsStayWellFormed(Apply(rows, qs[0]), qs[1..]);
    }
  }

  // ---- Refused moves are exactly the ones that would close a cycle ----

  function Reparented(rows: Table, node: nat, parent: int): Table
    requires node in rows
  {
    rows[node := rows[node].(parent := parent)]
  }

  lemma {:induction false} ChainReaches(rows: Table, node: nat, parent: int, d: nat) returns (k: nat)
    requires WellFormed(rows) && node in rows && d in rows && Below(rows, d, node)
    ensures Chain(Reparented(rows, node, parent), d, k) == node
    decreases |rows[d].path|
  {
    if d == node {
      k := 0;
    } else {
      assert NodeOk(rows, d);
      var j := ChainReaches(rows, node, parent, rows[d].parent);
      k := j + 1;
    }
  }

  lemma {:induction false} ChainMisses(rows: Table, node: nat, parent: int, d: int, k: nat)
    requires WellFormed(rows) && node in rows && (d in rows ==> !Below(rows, d, node))
    requires d == 0 || d in rows
    ensures Chain(Reparented(rows, node, parent), d, k) != node
    decreases k
  {
    if k > 0 && d in rows {
      assert NodeOk(rows, d);
      ChainMisses(rows, node, parent, rows[d].parent, k - 1);
    }
  }

  /** Pointing `node` at `parent` would put it on a cycle iff the move is refused. */
  lemma RefusedIffCycle(rows: Table, node: nat, parent: int)
    requires WellFormed(rows) && node in rows && GoodParent(rows, rows[node].tenant, parent)
    requires parent != rows[node].parent
    ensures MoveRefusal(rows, node, parent).Some? <==> OnCycle(Reparented(rows, node, parent), node)
  {
    var rows' := Reparented(rows, node, parent);
    MoveRefusedExactly(rows, node, parent);
    if parent != 0 && Below(rows, parent, node) {
      var k := ChainReaches(rows, node, parent, parent);
      assert Chain(rows', node, k + 1) == node;
    } else {
      forall k: nat | k > 0
        ensures Chain(rows', node, k) != node
      {
        ChainMisses(rows, node, parent, parent, k - 1);
      }
    }
  }

  // ---- What a move and a delete do to ancestry ----

  /** After a move the subtree hangs, intact, under its new parent; all other ancestry is unchanged. */
  lemma {:induction false} MovedAncestry(rows: Table, top: nat, parent: int, index: Option<int>, after: Table,
                                         d: nat, a: nat)
    requires WellFormed(rows) && top in rows && GoodParent(rows, rows[top].tenant, parent)
    requires parent != 0 ==> !Below(rows, parent, top)
    requires IsMove(rows, top, parent, index, after) && WellFormed(after)
    requires d in rows
    ensures Below(after, d, a) <==>
            if !Below(rows, d, top) then Below(rows, d, a)
            else (a in rows && Below(rows, a, top) && Below(rows, d, a)) || (parent != 0 && Below(rows, parent, a))
    decreases Below(rows, d, top), |rows[d].path|
  {
    assert NodeOk(rows, d);
    assert MovedRow(rows, top, parent, index, d, after[d]);
    if d == top {
      if parent != 0 {
        MovedAncestry(rows, top, parent, index, after, parent, a);
      }
      if a in rows && Below(rows, a, top) && Below(rows, top, a) {
        BelowBothWays(rows, a, top);
      }
    } else {
      SubtreeStep(rows, top, d);
      if rows[d].parent != 0 {
        MovedAncestry(rows, top, parent, index, after, rows[d].parent, a);
      }
    }
  }

  lemma BelowBothWays(rows: Table, a: nat, b: nat)
    requires WellFormed(rows) && a in rows && b in rows && Below(rows, a, b) && Below(rows, b, a)
    ensures a == b
  {
    BelowIsTrailPrefix(rows, a, b);
    BelowIsTrailPrefix(rows, b, a);
    assert Trail(rows, a) == Trail(rows, b);
  }

  /** What an accepted move request does, seen through parent ids only. */
  lemma MoveTransplants(rows: Table, q: Request, d: nat, a: nat)
    requires WellFormed(rows) && q.Move? && Refusal(rows, q).None? && d in rows
    ensures WellFormed(Apply(rows, q)) && Apply(rows, q).Keys == rows.Keys
    ensures Apply(rows, q)[q.node].parent == q.parent
    ensures q.parent != 0 ==> !Below(rows, q.parent, q.node) || q.parent == rows[q.node].parent
    ensures Below(Apply(rows, q), d, a) <==>
            if !Below(rows, d, q.node) then Below(rows, d, a)
            else (a in rows && Below(rows, a, q.node) && Below(rows, d, a)) || (q.parent != 0 && Below(rows, q.parent, a))
  {
    ApplyKeepsWellFormed(rows, q);
    if q.parent != rows[q.node].parent {
      MoveRefusedExactly(rows, q.node, q.parent);
      MovedIsMove(rows, q.node, q.parent, q.index);
      MovedAncestry(rows, q.node, q.parent, q.index, Apply(rows, q), d, a);
    } else {
      StayAncestry(rows, q.node, d, a);
    }
  }

  /** Ancestors of a node in the subtree: those inside it, and those of its parent. */
  lemma {:induction false} StayAncestry(rows: Table, top: nat, d: nat, a: nat)
    requires WellFormed(rows) && top in rows && d in rows
    ensures Below(rows, d, top) ==>
            (Below(rows, d, a) <==> (a in rows && Below(rows, a, top) && Below(rows, d, a))
                                    || (rows[top].parent in rows && Below(rows, rows[top].parent, a)))
    decreases |rows[d].path|
  {
    assert NodeOk(rows, d);
    assert NodeOk(rows, top);
    if d != top {
      SubtreeStep(rows, top, d);
      if rows[d].parent != 0 {
        StayAncestry(rows, top, rows[d].parent, a);
      }
    }
  }

  /** Deleting a folder removes exactly its descendants, and no surviving node lost its parent. */
  lemma DeleteRemovesSubtree(rows: Table, q: Request, x: nat)
    requires WellFormed(rows) && q.DeleteFolder? && Refusal(rows, q).None? && x in rows
    ensures x in Apply(rows, q) <==> !Below(rows, x, q.node)
    ensures x in Apply(rows, q) ==> Apply(rows, q)[x] == rows[x]
                                    && (rows[x].parent == 0 || rows[x].parent in Apply(rows, q))
  {
    UnderPathIsSubtree(rows, q.node);
    ApplyKeepsWellFormed(rows, q);
    if x in Apply(rows, q) {
      assert NodeOk(Apply(rows, q), x);
    }
  }
}
