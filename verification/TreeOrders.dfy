/** Sibling order: what inserting, moving in, moving out and reordering do to it. */
module TreeOrders {
  import opened Prelude
  import opened DirectoryTree
  import opened TreeTheorems

  /** The siblings carry pairwise different orders below their number. */
  ghost predicate Dense(rows: Table, kids: set<nat>) {
    && (forall c :: c in kids ==> c in rows && 0 <= rows[c].order < |kids|)
    && (forall a, b :: a in kids && b in kids && a != b ==> rows[a].order != rows[b].order)
  }

  /** Hence they carry exactly the orders 0 .. k-1: some child sits at each position. */
  lemma {:induction false} DenseFillsRange(rows: Table, kids: set<nat>, position: nat)
    requires Dense(rows, kids) && position < |kids|
    ensures exists c :: c in kids && rows[c].order == position
  {
    if forall c :: c in kids ==> rows[c].order != position {
      Pigeonhole(rows, kids, UpTo(|kids|) - {position});
    }
  }

  function UpTo(n: nat): (r: set<int>)
    ensures forall i :: i in r <==> 0 <= i < n
    ensures |r| == n
  {
    if n == 0 then {} else UpTo(n - 1) + {n - 1}
  }

  lemma {:induction false} Pigeonhole(rows: Table, kids: set<nat>, orders: set<int>)
    requires forall c :: c in kids ==> c in rows && rows[c].order in orders
    requires forall a, b :: a in kids && b in kids && a != b ==> rows[a].order != rows[b].order
    ensures |kids| <= |orders|
  {
    if kids != {} {
      var c :| c in kids;
      Pigeonhole(rows, kids - {c}, orders - {rows[c].order});
    }
  }

  /** `after` is `before` with `extra` put in at `at`: later siblings moved up by one. */
  ghost predicate OpenedAt(before: Table, kids: set<nat>, after: Table, extra: nat, at: nat, shift: bool) {
    && extra !in kids && extra in after && after[extra].order == at
    && (forall c :: c in kids ==>
          && c in before && c in after
          && after[c].order == if shift && before[c].order >= at then before[c].order + 1 else before[c].order)
  }

  lemma OpenedKeepsDense(before: Table, kids: set<nat>, after: Table, extra: nat, at: nat, shift: bool)
    requires OpenedAt(before, kids, after, extra, at, shift)
    requires at <= |kids| && (!shift ==> at == |kids|)
    ensures Dense(after, kids + {extra}) <==> Dense(before, kids)
  {
    assert |kids + {extra}| == |kids| + 1;
    if Dense(after, kids + {extra}) {
      ClosedKeepsDense(before, kids, after, extra, at, shift);
    }
  }

  lemma ClosedKeepsDense(before: Table, kids: set<nat>, after: Table, extra: nat, at: nat, shift: bool)
    requires OpenedAt(before, kids, after, extra, at, shift) && |kids + {extra}| == |kids| + 1
    requires at <= |kids| && (!shift ==> at == |kids|) && Dense(after, kids + {extra})
    ensures Dense(before, kids)
  {
    forall c | c in kids
      ensures c in before && 0 <= before[c].order < |kids|
    {
      assert after[c].order != after[extra].order;
    }
  }

  lemma OpenedKeepsOrder(before: Table, kids: set<nat>, after: Table, extra: nat, at: nat, shift: bool)
    requires OpenedAt(before, kids, after, extra, at, shift)
    ensures forall a, b :: a in kids && b in kids ==>
              (after[a].order < after[b].order <==> before[a].order < before[b].order)
  {
  }

  lemma InsertedOpens(rows: Table, id: nat, n: Node, index: Option<int>, path: string)
    requires 0 !in rows && id !in rows
    ensures var rows' := Inserted(rows, id, n, index, path);
            var kids := Children(rows, n.tenant, n.parent);
            var at := ClampIndex(index, |kids|);
            && Children(rows', n.tenant, n.parent) == kids + {id}
            && OpenedAt(rows, kids, rows', id, at, index.Some? && at < |kids|)
            && (forall x :: x in rows && x !in kids ==> rows'[x] == rows[x])
  {
  }

  /**
   * Inserting at an index: the folder's orders are 0..k afterwards exactly when they were 0..k-1
   * before; the node stands at the clamped index and its siblings keep their relative order.
   */
  lemma InsertedOrders(rows: Table, id: nat, n: Node, index: Option<int>, path: string)
    requires 0 !in rows && id !in rows
    ensures var rows' := Inserted(rows, id, n, index, path);
            var kids := Children(rows, n.tenant, n.parent);
            && Children(rows', n.tenant, n.parent) == kids + {id}
            && (Dense(rows', kids + {id}) <==> Dense(rows, kids))
            && rows'[id].order == ClampIndex(index, |kids|)
            && (forall a, b :: a in kids && b in kids ==>
                  (rows'[a].order < rows'[b].order <==> rows[a].order < rows[b].order))
            && (forall x :: x in rows && x !in kids ==> rows'[x] == rows[x])
  {
    var rows' := Inserted(rows, id, n, index, path);
    var kids := Children(rows, n.tenant, n.parent);
    var at := ClampIndex(index, |kids|);
    InsertedOpens(rows, id, n, index, path);
    OpenedKeepsDense(rows, kids, rows', id, at, index.Some? && at < |kids|);
    OpenedKeepsOrder(rows, kids, rows', id, at, index.Some? && at < |kids|);
  }

  /**
   * Creating a folder, and mounting by gRPC, count the siblings before they write: a gap-free folder
   * stays gap-free exactly when the count still holds.
   */
  lemma AppendedOrders(rows: Table, id: nat, n: Node, count: nat, path: string)
    requires id !in rows && Dense(rows, Children(rows, n.tenant, n.parent))
    ensures var rows' := Appended(rows, id, n, count, path);
            var kids := Children(rows, n.tenant, n.parent);
            && Children(rows', n.tenant, n.parent) == kids + {id}
            && (Dense(rows', kids + {id}) <==> count == |kids|)
  {
    var kids := Children(rows, n.tenant, n.parent);
    assert |kids + {id}| == |kids| + 1;
    if count < |kids| {
      DenseFillsRange(rows, kids, count);
    }
  }

  /** No node of the moved subtree is already a child of the target, so no shifted row is written back. */
  lemma MovedSetsDisjoint(rows: Table, top: nat, parent: int)
    requires WellFormed(rows) && top in rows && GoodParent(rows, rows[top].tenant, parent)
    requires parent != rows[top].parent && (parent != 0 ==> !Below(rows, parent, top))
    ensures UnderPath(rows, rows[top].tenant, rows[top].path) !! Children(rows, rows[top].tenant, parent)
  {
    UnderPathIsSubtree(rows, top);
    KidsOutside(rows, top, parent);
  }

  /** A move touches neither parent nor tenant of a row other than the top, and shifts only new siblings. */
  lemma MovedRowOutside(rows: Table, top: nat, parent: int, index: Option<int>, x: nat, row: Node)
    requires WellFormed(rows) && top in rows && x in rows && x != top && MovedRow(rows, top, parent, index, x, row)
    ensures row.parent == rows[x].parent && row.tenant == rows[x].tenant
    ensures var kids := Children(rows, rows[top].tenant, parent);
            var at := ClampIndex(index, |kids|);
            && (x !in kids ==> row.order == rows[x].order)
            && (x in kids && !Below(rows, x, top) ==>
                row.order == rows[x].order + (if index.Some? && at < |kids| && at <= rows[x].order then 1 else 0))
  {
    hide Below;
  }

  lemma MovedOpens(rows: Table, top: nat, parent: int, index: Option<int>, after: Table)
    requires WellFormed(rows) && top in rows && GoodParent(rows, rows[top].tenant, parent)
    requires parent != rows[top].parent && (parent != 0 ==> !Below(rows, parent, top))
    requires IsMove(rows, top, parent, index, after)
    ensures var kids := Children(rows, rows[top].tenant, parent);
            var at := ClampIndex(index, |kids|);
            && Children(after, rows[top].tenant, parent) == kids + {top}
            && OpenedAt(rows, kids, after, top, at, index.Some? && at < |kids|)
            && (forall x :: x in rows && x !in kids && x != top ==> after[x].order == rows[x].order)
            && (forall x :: x in rows && x != top ==> after[x].parent == rows[x].parent && after[x].tenant == rows[x].tenant)
  {
    hide MovedRow, Below, WellFormed, ClampIndex;
    var kids := Children(rows, rows[top].tenant, parent);
    MovedRowTop(rows, top, parent, index, after[top]);
    KidsOutside(rows, top, parent);
    forall x | x in rows && x != top
      ensures after[x].parent == rows[x].parent && after[x].tenant == rows[x].tenant
      ensures x !in kids ==> after[x].order == rows[x].order
      ensures x in kids ==> var at := ClampIndex(index, |kids|);
        after[x].order == rows[x].order + (if index.Some? && at < |kids| && at <= rows[x].order then 1 else 0)
    {
      MovedRowOutside(rows, top, parent, index, x, after[x]);
    }
    OneChildMore(rows, after, top, rows[top].tenant, parent);
  }

  lemma OneChildMore(rows: Table, after: Table, top: nat, tenant: int, parent: int)
    requires after.Keys == rows.Keys && top in rows && after[top].tenant == tenant && after[top].parent == parent
    requires forall x :: x in rows && x != top ==> after[x].parent == rows[x].parent && after[x].tenant == rows[x].tenant
    ensures Children(after, tenant, parent) == Children(rows, tenant, parent) + {top}
  {
  }

  lemma MovedRowTop(rows: Table, top: nat, parent: int, index: Option<int>, row: Node)
    requires WellFormed(rows) && top in rows && MovedRow(rows, top, parent, index, top, row)
    ensures row.parent == parent && row.tenant == rows[top].tenant
    ensures row.order == ClampIndex(index, |Children(rows, rows[top].tenant, parent)|)
  {
    assert NodeOk(rows, top);
  }

  lemma KidsOutside(rows: Table, top: nat, parent: int)
    requires WellFormed(rows) && top in rows && GoodParent(rows, rows[top].tenant, parent)
    requires parent != rows[top].parent && (parent != 0 ==> !Below(rows, parent, top))
    ensures forall x :: x in Children(rows, rows[top].tenant, parent) ==> x != top && !Below(rows, x, top)
  {
    forall x | x in Children(rows, rows[top].tenant, parent) ensures !Below(rows, x, top) {
      SubtreeStep(rows, top, x);
    }
  }

  /** The same for a node moved in from another folder; every row outside both folders keeps its order. */
  lemma MovedOrders(rows: Table, top: nat, parent: int, index: Option<int>)
    requires WellFormed(rows) && top in rows && GoodParent(rows, rows[top].tenant, parent)
    requires parent != rows[top].parent && (parent != 0 ==> !Below(rows, parent, top))
    ensures var rows' := Moved(rows, top, parent, PathOf(rows, parent), index);
            var kids := Children(rows, rows[top].tenant, parent);
            && Children(rows', rows[top].tenant, parent) == kids + {top}
            && (Dense(rows', kids + {top}) <==> Dense(rows, kids))
            && rows'[top].order == ClampIndex(index, |kids|)
            && (forall a, b :: a in kids && b in kids ==>
                  (rows'[a].order < rows'[b].order <==> rows[a].order < rows[b].order))
            && (forall x :: x in rows && x !in kids && x != top ==> rows'[x].order == rows[x].order)
  {
    var rows' := Moved(rows, top, parent, PathOf(rows, parent), index);
    var kids := Children(rows, rows[top].tenant, parent);
    var at := ClampIndex(index, |kids|);
    MovedIsMove(rows, top, parent, index);
    MovedOpens(rows, top, parent, index, rows');
    OpenedKeepsDense(rows, kids, rows', top, at, index.Some? && at < |kids|);
    OpenedKeepsOrder(rows, kids, rows', top, at, index.Some? && at < |kids|);
  }

  /** The folder moved out of, or unmounted from, stays gap-free exactly when its last child left. */
  lemma DepartureKeepsDense(rows: Table, kids: set<nat>, after: Table, gone: nat)
    requires Dense(rows, kids) && gone in kids
    requires forall c :: c in kids - {gone} ==> c in after && after[c].order == rows[c].order
    ensures Dense(after, kids - {gone}) <==> rows[gone].order == |kids| - 1
  {
    if Dense(after, kids - {gone}) && rows[gone].order != |kids| - 1 {
      DenseFillsRange(rows, kids, |kids| - 1);
    }
  }

  lemma UnmountOrders(rows: Table, q: Request)
    requires WellFormed(rows) && q.Unmount? && Refusal(rows, q).None?
    requires Dense(rows, Children(rows, q.tenant, rows[q.node].parent))
    ensures var kids := Children(rows, q.tenant, rows[q.node].parent);
            Dense(Apply(rows, q), Children(Apply(rows, q), q.tenant, rows[q.node].parent))
            <==> rows[q.node].order == |kids| - 1
  {
    var kids := Children(rows, q.tenant, rows[q.node].parent);
    assert Children(Apply(rows, q), q.tenant, rows[q.node].parent) == kids - {q.node};
    DepartureKeepsDense(rows, kids, Apply(rows, q), q.node);
  }

  /** Moving out of a folder, likewise. */
  lemma MovedOutOrders(rows: Table, top: nat, parent: int, index: Option<int>, after: Table)
    requires WellFormed(rows) && top in rows && GoodParent(rows, rows[top].tenant, parent)
    requires parent != rows[top].parent && (parent != 0 ==> !Below(rows, parent, top))
    requires IsMove(rows, top, parent, index, after)
    requires Dense(rows, Children(rows, rows[top].tenant, rows[top].parent))
    ensures var kids := Children(rows, rows[top].tenant, rows[top].parent);
            Dense(after, Children(after, rows[top].tenant, rows[top].parent)) <==> rows[top].order == |kids| - 1
  {
    var kids := Children(rows, rows[top].tenant, rows[top].parent);
    MovedOpens(rows, top, parent, index, after);
    assert Children(after, rows[top].tenant, rows[top].parent) == kids - {top} by {
      assert top in Children(after, rows[top].tenant, parent);
    }
    DepartureKeepsDense(rows, kids, after, top);
  }

  function Get(rows: Table, id: int): Node
    requires id in rows
  {
    rows[id]
  }

  lemma {:induction false} ReorderedAt(rows: Table, tenant: int, ids: seq<int>, n: nat, k: nat)
    requires k < n <= |ids| && ids[k] in rows && Get(rows, ids[k]).tenant == tenant
    requires forall j :: k < j < n ==> ids[j] != ids[k]
    ensures ids[k] in Reordered(rows, tenant, ids, n) && Get(Reordered(rows, tenant, ids, n), ids[k]).order == k
  {
    ReorderedShape(rows, tenant, ids, n - 1);
    if n - 1 > k {
      ReorderedAt(rows, tenant, ids, n - 1, k);
    }
  }

  lemma {:induction false} ReorderedNot(rows: Table, tenant: int, ids: seq<int>, n: nat, x: nat)
    requires n <= |ids| && x in rows && (rows[x].tenant == tenant ==> forall j :: 0 <= j < n ==> ids[j] != x)
    ensures x in Reordered(rows, tenant, ids, n) && Reordered(rows, tenant, ids, n)[x] == rows[x]
  {
    if n > 0 {
      ReorderedNot(rows, tenant, ids, n - 1, x);
    }
  }

  predicate LastAt(ids: seq<int>, k: int, x: int) {
    0 <= k < |ids| && ids[k] == x && forall j :: k < j < |ids| ==> ids[j] != x
  }

  /** Any list: a row of the tenant gets its last position in it, and every other row stays as it is. */
  lemma {:induction false} ReorderedExactly(rows: Table, tenant: int, ids: seq<int>, x: nat)
    requires x in rows
    ensures var after := Reordered(rows, tenant, ids, |ids|);
            && after.Keys == rows.Keys
            && (rows[x].tenant != tenant || x !in ids ==> after[x] == rows[x])
            && forall k :: rows[x].tenant == tenant && LastAt(ids, k, x) ==> after[x] == rows[x].(order := k)
  {
    ReorderedShape(rows, tenant, ids, |ids|);
    if rows[x].tenant != tenant || x !in ids {
      ReorderedNot(rows, tenant, ids, |ids|, x);
    }
    forall k | rows[x].tenant == tenant && LastAt(ids, k, x)
      ensures Reordered(rows, tenant, ids, |ids|)[x] == rows[x].(order := k)
    {
      ReorderedAt(rows, tenant, ids, |ids|, k);
    }
  }

  /** Given the complete child list of a folder, reordering makes list position and order the same. */
  lemma ReorderedOrders(rows: Table, tenant: int, parent: int, ids: seq<int>)
    requires forall j, k :: 0 <= j < k < |ids| ==> ids[j] != ids[k]
    requires forall x: int :: x in Children(rows, tenant, parent) <==> x in ids
    ensures var rows' := Reordered(rows, tenant, ids, |ids|);
            && (forall k :: 0 <= k < |ids| ==> ids[k] in rows' && Get(rows', ids[k]).order == k)
            && Dense(rows', Children(rows', tenant, parent))
  {
    var rows' := Reordered(rows, tenant, ids, |ids|);
    ReorderedShape(rows, tenant, ids, |ids|);
    forall k | 0 <= k < |ids|
      ensures ids[k] in rows' && Get(rows', ids[k]).order == k
    {
      assert ids[k] in ids && ids[k] in Children(rows, tenant, parent);
      ReorderedAt(rows, tenant, ids, |ids|, k);
    }
    DistinctListSize(ids);
    var kids := Children(rows', tenant, parent);
    assert kids == set x | x in ids;
    forall c | c in kids
      ensures 0 <= rows'[c].order < |kids|
    {
      var k :| 0 <= k < |ids| && ids[k] == c;
    }
  }

  lemma {:induction false} DistinctListSize(ids: seq<int>)
    requires forall j, k :: 0 <= j < k < |ids| ==> ids[j] != ids[k]
    ensures |set x | x in ids| == |ids|
  {
    if ids == [] {
      assert (set x | x in ids) == {};
    } else {
      var last := |ids| - 1;
      DistinctListSize(ids[..last]);
      assert (set x | x in ids) == (set x | x in ids[..last]) + {ids[last]};
    }
  }
}
