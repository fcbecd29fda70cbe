/**
 * The rows of one project, cut out of the tenant's table. A row's parent may be a folder of another
 * project, so a slice is a forest whose trees need not start at the root of the table.
 */
module ProjectSlice {
  import opened Prelude
  import opened TreePaths
  import opened DirectoryTree
  import opened TreeTheorems
  import Text

  /** `tenant_id = ? AND project_id = ?`. */
  function SliceOf(all: Table, tenant: int, project: int): Table {
    map id | id in all && all[id].tenant == tenant && all[id].project == project :: all[id]
  }

  // ---- Ancestry inside a slice ----

  predicate RankOk(rows: Table, id: int) {
    id in rows && rows[id].parent in rows ==> |rows[rows[id].parent].path| < |rows[id].path|
  }

  /** All that is needed of a slice: zero is no row, and parents that are there have shorter paths. */
  ghost predicate Ranked(rows: Table) {
    0 !in rows && forall id :: id in rows ==> RankOk(rows, id)
  }

  lemma SliceIsRanked(all: Table, tenant: int, project: int)
    requires WellFormed(all)
    ensures Ranked(SliceOf(all, tenant, project))
    ensures forall id :: id in SliceOf(all, tenant, project) <==>
              id in all && all[id].tenant == tenant && all[id].project == project
    ensures forall id :: id in SliceOf(all, tenant, project) ==> SliceOf(all, tenant, project)[id] == all[id]
  {
    var rows := SliceOf(all, tenant, project);
    forall id | id in rows ensures RankOk(rows, id) {
      assert NodeOk(all, id);
    }
  }

  /** `d` is `a`, or below it by parents that are all in the slice. */
  ghost predicate Under(rows: Table, d: int, a: int)
    requires Ranked(rows) && d in rows
    decreases |rows[d].path|
  {
    assert RankOk(rows, d);
    d == a || (rows[d].parent in rows && Under(rows, rows[d].parent, a))
  }

  /** The parents lead up to a row that hangs at the root of the table. */
  ghost predicate Rooted(rows: Table, d: int)
    requires Ranked(rows) && d in rows
    decreases |rows[d].path|
  {
    assert RankOk(rows, d);
    rows[d].parent == 0 || (rows[d].parent in rows && Rooted(rows, rows[d].parent))
  }

  lemma {:induction false} UnderTransitive(rows: Table, x: int, y: int, z: int)
    requires Ranked(rows) && x in rows && y in rows && Under(rows, x, y) && Under(rows, y, z)
    ensures Under(rows, x, z)
    decreases |rows[x].path|
  {
    assert RankOk(rows, x);
    if x != y {
      UnderTransitive(rows, rows[x].parent, y, z);
    }
  }

  lemma {:induction false} UnderShortens(rows: Table, d: int, a: int)
    requires Ranked(rows) && d in rows && a in rows && Under(rows, d, a)
    ensures d != a ==> |rows[a].path| < |rows[d].path|
    decreases |rows[d].path|
  {
    assert RankOk(rows, d);
    if d != a {
      UnderShortens(rows, rows[d].parent, a);
    }
  }

  /** Of two rows above a third, one is above the other. */
  lemma {:induction false} UnderTotal(rows: Table, x: int, a: int, b: int)
    requires Ranked(rows) && x in rows && a in rows && b in rows && Under(rows, x, a) && Under(rows, x, b)
    ensures Under(rows, a, b) || Under(rows, b, a)
    decreases |rows[x].path|
  {
    assert RankOk(rows, x);
    if x != a && x != b {
      UnderTotal(rows, rows[x].parent, a, b);
    }
  }

  /** Everything strictly below a row is below one of its children. */
  lemma {:induction false} ThroughAChild(rows: Table, x: nat, top: nat) returns (child: nat)
    requires Ranked(rows) && x in rows && top in rows && x != top && Under(rows, x, top)
    ensures child in rows && rows[child].parent == top && Under(rows, x, child)
    decreases |rows[x].path|
  {
    assert RankOk(rows, x);
    if rows[x].parent == top {
      child := x;
    } else {
      child := ThroughAChild(rows, rows[x].parent, top);
    }
  }

  lemma ChildUnder(rows: Table, child: nat, top: nat)
    requires Ranked(rows) && child in rows && top in rows && rows[child].parent == top
    ensures Under(rows, child, top) && !Under(rows, top, child)
  {
    assert RankOk(rows, child);
    if Under(rows, top, child) {
      UnderShortens(rows, top, child);
    }
  }

  /** The row without a parent in the slice that a row hangs from. */
  ghost function TopOf(rows: Table, x: nat): (top: nat)
    requires Ranked(rows) && x in rows
    ensures top in rows && rows[top].parent !in rows && Under(rows, x, top)
    ensures Rooted(rows, x) <==> rows[top].parent == 0
    decreases |rows[x].path|
  {
    assert RankOk(rows, x);
    if rows[x].parent in rows then TopOf(rows, rows[x].parent) else x
  }

  lemma {:induction false} RootedAlong(rows: Table, d: nat, a: nat)
    requires Ranked(rows) && d in rows && a in rows && Under(rows, d, a)
    ensures Rooted(rows, d) <==> Rooted(rows, a)
    decreases |rows[d].path|
  {
    assert RankOk(rows, d);
    if d != a {
      RootedAlong(rows, rows[d].parent, a);
    }
  }

  // ---- Ancestors, and how many ----

  function AncestorsWithin(rows: Table, id: int, n: nat): (s: set<nat>)
    ensures s <= rows.Keys
    decreases n
  {
    if n == 0 || id !in rows || rows[id].parent !in rows then {}
    else {rows[id].parent} + AncestorsWithin(rows, rows[id].parent, n - 1)
  }

  ghost function Height(rows: Table, id: int): nat
    requires Ranked(rows) && id in rows
    decreases |rows[id].path|
  {
    assert RankOk(rows, id);
    if rows[id].parent in rows then 1 + Height(rows, rows[id].parent) else 0
  }

  ghost function Ancestors(rows: Table, id: int): set<nat>
    requires Ranked(rows) && id in rows
  {
    set a | a in rows && a != id && Under(rows, id, a)
  }

  lemma AncestorsStep(rows: Table, id: nat)
    requires Ranked(rows) && id in rows
    ensures rows[id].parent !in rows ==> Ancestors(rows, id) == {}
    ensures rows[id].parent in rows ==>
      var above := rows[id].parent;
      Ancestors(rows, id) == Ancestors(rows, above) + {above} && above !in Ancestors(rows, above)
  {
    assert RankOk(rows, id);
    if rows[id].parent in rows {
      ChildUnder(rows, id, rows[id].parent);
    }
  }

  lemma {:induction false} HeightCounts(rows: Table, id: nat)
    requires Ranked(rows) && id in rows
    ensures |Ancestors(rows, id)| == Height(rows, id)
    decreases |rows[id].path|
  {
    assert RankOk(rows, id);
    AncestorsStep(rows, id);
    if rows[id].parent in rows {
      HeightCounts(rows, rows[id].parent);
    }
  }

  lemma {:induction false} WithinSmall(rows: Table, id: int, n: nat)
    ensures |AncestorsWithin(rows, id, n)| <= n
    decreases n
  {
    if n > 0 && id in rows && rows[id].parent in rows {
      WithinSmall(rows, rows[id].parent, n - 1);
    }
  }

  lemma {:induction false} WithinAbove(rows: Table, id: nat, n: nat)
    requires Ranked(rows) && id in rows
    ensures AncestorsWithin(rows, id, n) <= Ancestors(rows, id)
    ensures n >= Height(rows, id) ==> AncestorsWithin(rows, id, n) == Ancestors(rows, id)
    decreases n
  {
    assert RankOk(rows, id);
    AncestorsStep(rows, id);
    if n > 0 && rows[id].parent in rows {
      WithinAbove(rows, rows[id].parent, n - 1);
    }
  }

  /** Some ancestor is out of reach of n steps exactly when there are more than n. */
  lemma BeyondReach(rows: Table, id: nat, n: nat)
    requires Ranked(rows) && id in rows
    ensures AncestorsWithin(rows, id, n) == Ancestors(rows, id) <==> Height(rows, id) <= n
  {
    WithinAbove(rows, id, n);
    HeightCounts(rows, id);
    WithinSmall(rows, id, n);
  }

  lemma {:induction false} WithinMonotone(rows: Table, id: int, n: nat)
    ensures AncestorsWithin(rows, id, n) <= AncestorsWithin(rows, id, n + 1)
    decreases n
  {
    if n > 0 && id in rows && rows[id].parent in rows {
      WithinMonotone(rows, rows[id].parent, n - 1);
    }
  }

  /** From below `top` no step goes further up than from `top` itself. */
  lemma {:induction false} WithinFromBelow(rows: Table, d: nat, top: nat, n: nat, a: nat)
    requires Ranked(rows) && d in rows && top in rows && Under(rows, d, top) && a in AncestorsWithin(rows, d, n)
    ensures a in rows && (Under(rows, a, top) || a in AncestorsWithin(rows, top, n))
    decreases n
  {
    assert RankOk(rows, d);
    if d != top {
      var above := rows[d].parent;
      if a != above {
        WithinFromBelow(rows, above, top, n - 1, a);
        WithinMonotone(rows, top, n - 1);
      }
    }
  }

  // ---- The slice and the whole table ----

  /** Every row of the slice has its parent in it, or none. */
  predicate ParentsInside(rows: Table) {
    forall id :: id in rows ==> rows[id].parent == 0 || rows[id].parent in rows
  }

  /** No row is cut off from the root exactly when no row has a parent in another project. */
  lemma NothingCutOff(rows: Table)
    requires Ranked(rows)
    ensures (forall d :: d in rows ==> Rooted(rows, d)) <==> ParentsInside(rows)
  {
    forall d | d in rows
      ensures ParentsInside(rows) ==> Rooted(rows, d)
      ensures Rooted(rows, d) ==> rows[d].parent == 0 || rows[d].parent in rows
    {
      var top := TopOf(rows, d);
    }
  }

  /** Ancestry in the slice is ancestry in the table, and all of it when parents stay inside. */
  lemma {:induction false} SliceAncestry(all: Table, tenant: int, project: int, d: nat, a: nat)
    requires WellFormed(all) && Ranked(SliceOf(all, tenant, project)) && d in SliceOf(all, tenant, project)
    ensures var rows := SliceOf(all, tenant, project);
            && (Under(rows, d, a) ==> Below(all, d, a))
            && (ParentsInside(rows) ==> (Under(rows, d, a) <==> Below(all, d, a)))
    decreases |all[d].path|
  {
    var rows := SliceOf(all, tenant, project);
    assert NodeOk(all, d) && RankOk(rows, d);
    if d != a && rows[d].parent in rows {
      SliceAncestry(all, tenant, project, rows[d].parent, a);
    }
  }

  /** A folder of one project under a folder of another: accepted, and cut off in its own project's slice. */
  lemma ForeignParentReached(tenant: int, one: int, two: int)
    requires one != 0 && two != 0 && one != two
    ensures var requests := [CreateFolder(tenant, one, true, "F", 0, 10), CreateFolder(tenant, two, true, "G", 10, 11)];
            var all := Run(map[], requests);
            var rows := SliceOf(all, tenant, two);
            && FreshRun(map[], requests) && WellFormed(all) && Ranked(rows)
            && rows.Keys == {11} && !Rooted(rows, 11)
  {
    var q0 := CreateFolder(tenant, one, true, "F", 0, 10);
    var q1 := CreateFolder(tenant, two, true, "G", 10, 11);
    var requests := [q0, q1];
    TrimmedLetter("F");
    TrimmedLetter("G");
    var after0 := Apply(map[], q0);
    var after1 := Apply(after0, q1);
    assert after0.Keys == {10} && after0[10].kind == FOLDER && after0[10].tenant == tenant && after0[10].project == one;
    assert after1.Keys == {10, 11} && after1[10].project == one && after1[11].parent == 10 && after1[11].project == two;
    assert requests[1..] == [q1] && [q1][1..] == [];
    assert Run(after1, []) == after1;
    assert Run(map[], requests) == after1;
    RunsStayWellFormed(map[], requests);
    SliceIsRanked(Run(map[], requests), tenant, two);
  }

  lemma TrimmedLetter(s: string)
    requires |s| == 1 && 'A' <= s[0] <= 'Z'
    ensures Text.TrimSpace(s) == s
  {
    Text.TrimIsTrimmed(s);
  }
}
