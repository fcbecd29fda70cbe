/** The directory listing the Copilot queries: a flat list of tree nodes with readable paths. */
module ApiDirectory {
  import opened Prelude
  import opened DirectoryTree
  import opened ProjectSlice
  import opened Text

  const MAX_DEPTH := 64

  datatype HttpApi = HttpApi(name: string, verb: string, uri: string)
  datatype GrpcApi = GrpcApi(fullService: string, rpc: string)

  datatype Entry = Entry(id: nat, parent: int, parentName: string, kind: int, refId: int, name: string, path: string,
                         verb: string, uri: string, fullService: string, rpcMethod: string)

  /** What was read for one project: its slice of the directory, and the interfaces it refers to. */
  datatype Project = Project(rows: Table, https: map<int, HttpApi>, grpcs: map<int, GrpcApi>)

  // ---- Paths by name ----

  function TrimSlash(s: string): string {
    if s != "" && s[|s| - 1] == '/' then s[..|s| - 1] else s
  }

  /** The names from the top of the slice down, each after a slash. */
  ghost function NamePath(rows: Table, id: nat): (p: string)
    requires Ranked(rows) && id in rows
    ensures p != ""
    decreases |rows[id].path|
  {
    assert RankOk(rows, id);
    var n := rows[id];
    if n.parent in rows then TrimSlash(NamePath(rows, n.parent)) + "/" + n.name else "/" + n.name
  }

  type Cache = map<nat, string>

  /** Nested calls a path takes; a row whose parent is missing asks for that parent as well. */
  ghost function Calls(rows: Table, cache: Cache, id: int): nat
    requires Ranked(rows)
    decreases if id in rows then |rows[id].path| + 1 else 0
  {
    if id in cache || id !in rows || rows[id].parent == 0 then 1
    else
      assert RankOk(rows, id);
      1 + Calls(rows, cache, rows[id].parent)
  }

  /** Asked first, a row takes one call for itself, one for each ancestor, and one for a missing parent. */
  lemma {:induction false} CallsAreHeight(rows: Table, id: nat)
    requires Ranked(rows) && id in rows
    ensures Calls(rows, map[], id) == Height(rows, id) + if Rooted(rows, id) then 1 else 2
    decreases |rows[id].path|
  {
    assert RankOk(rows, id);
    if rows[id].parent in rows {
      CallsAreHeight(rows, rows[id].parent);
    }
  }

  /** What is cached is right, and what is above it in the slice is cached too. */
  ghost predicate CacheRight(rows: Table, cache: Cache)
    requires Ranked(rows)
  {
    forall id :: id in cache ==>
      id in rows && cache[id] == NamePath(rows, id) && (rows[id].parent in rows ==> rows[id].parent in cache)
  }

  lemma {:induction false} CachedAbove(rows: Table, cache: Cache, id: nat, a: nat)
    requires Ranked(rows) && CacheRight(rows, cache) && id in cache && id in rows && Under(rows, id, a)
    ensures a in cache
    decreases |rows[id].path|
  {
    assert RankOk(rows, id);
    if id != a {
      CachedAbove(rows, cache, rows[id].parent, a);
    }
  }

  // ---- Entries and matching ----

  function Labelled(p: Project, id: nat, path: string): Entry
    requires id in p.rows
  {
    var n := p.rows[id];
    var parentName := if n.parent in p.rows then p.rows[n.parent].name else "";
    var e := Entry(id, n.parent, parentName, n.kind, n.refId, n.name, path, "", "", "", "");
    if n.kind == HTTP_API && n.refId in p.https then
      var a := p.https[n.refId];
      var name := if n.name != "" then n.name else if a.name != "" then a.name else a.verb + " " + a.uri;
      e.(name := name, verb := a.verb, uri := a.uri)
    else if n.kind == GRPC_API && n.refId in p.grpcs then
      var g := p.grpcs[n.refId];
      e.(name := g.rpc, fullService := g.fullService, rpcMethod := g.rpc)
    else e
  }

  /** `query` is trimmed and in lower case; the path is not searched. */
  predicate Matches(e: Entry, query: string) {
    query == "" || Contains(ToLower(e.name), query) || Contains(ToLower(e.uri), query)
    || Contains(ToLower(e.fullService), query) || Contains(ToLower(e.rpcMethod), query)
  }

  ghost function EntryOf(p: Project, id: nat): (e: Entry)
    requires Ranked(p.rows) && id in p.rows
    ensures e.id == id
  {
    Labelled(p, id, NamePath(p.rows, id))
  }

  predicate Hit(p: Project, query: string, id: nat) {
    id in p.rows && Matches(Labelled(p, id, ""), query)
  }

  /** Case aside, the text has the query in it. */
  ghost predicate Mentions(text: string, query: string) {
    exists i :: StandsAt(ToLower(text), query, i)
  }

  lemma FoundIn(text: string, query: string)
    ensures Contains(ToLower(text), query) <==> Mentions(text, query)
  {
    ContainsExactly(ToLower(text), query);
  }

  lemma NotInNothing(query: string)
    requires query != ""
    ensures !Mentions("", query)
  {
  }

  /**
   * What a row is found by: an HTTP interface by its name and address, a gRPC interface by its service
   * and method, anything else - and an interface that is not stored - by the row's name.
   */
  lemma FoundBy(p: Project, query: string, id: nat)
    requires id in p.rows && query != ""
    ensures var n := p.rows[id];
            Hit(p, query, id) <==>
            if n.kind == 2 && n.refId in p.https then
              var a := p.https[n.refId];
              Mentions(a.uri, query) ||
              Mentions(if n.name != "" then n.name else if a.name != "" then a.name else a.verb + " " + a.uri, query)
            else if n.kind == 3 && n.refId in p.grpcs then
              Mentions(p.grpcs[n.refId].rpc, query) || Mentions(p.grpcs[n.refId].fullService, query)
            else Mentions(n.name, query)
  {
    var e := Labelled(p, id, "");
    FoundIn(e.name, query);
    FoundIn(e.uri, query);
    FoundIn(e.fullService, query);
    FoundIn(e.rpcMethod, query);
    NotInNothing(query);
    hide Contains, ToLower, Mentions;
  }

  /** What is shown of a row: its place, its parent's name, and the interface it stands for. */
  lemma ShownAs(p: Project, id: nat)
    requires Ranked(p.rows) && id in p.rows
    ensures var n, e := p.rows[id], EntryOf(p, id);
            && e.id == id && e.parent == n.parent && e.kind == n.kind && e.refId == n.refId && e.path == NamePath(p.rows, id)
            && e.parentName == (if n.parent in p.rows then p.rows[n.parent].name else "")
            && (n.kind == 2 && n.refId in p.https ==>
                  e.verb == p.https[n.refId].verb && e.uri == p.https[n.refId].uri && e.rpcMethod == ""
                  && (n.name != "" ==> e.name == n.name))
            && (n.kind == 3 && n.refId in p.grpcs ==>
                  e.name == e.rpcMethod == p.grpcs[n.refId].rpc && e.fullService == p.grpcs[n.refId].fullService && e.uri == "")
            && (n.kind !in {2, 3} ==> e.name == n.name && e.uri == e.verb == e.fullService == e.rpcMethod == "")
  {
  }

  /** The names from the topmost row of the slice down to `id`. */
  ghost function Names(rows: Table, id: nat): (names: seq<string>)
    requires Ranked(rows) && id in rows
    ensures names != []
    decreases |rows[id].path|
  {
    assert RankOk(rows, id);
    (if rows[id].parent in rows then Names(rows, rows[id].parent) else []) + [rows[id].name]
  }

  lemma {:induction false} JoinMore(parts: seq<string>, part: string)
    requires parts != []
    ensures Join(parts + [part], "/") == Join(parts, "/") + "/" + part
  {
    if |parts| > 1 {
      assert (parts + [part])[1..] == parts[1..] + [part];
      JoinMore(parts[1..], part);
    }
  }

  /** One slash stands between a row's name and what is above it, and not a second one. */
  lemma OneSlashBetween(rows: Table, id: nat)
    requires Ranked(rows) && id in rows
    ensures var above := rows[id].parent;
            NamePath(rows, id) == if above !in rows then "/" + rows[id].name
                                  else if NamePath(rows, above)[|NamePath(rows, above)| - 1] == '/'
                                  then NamePath(rows, above) + rows[id].name
                                  else NamePath(rows, above) + "/" + rows[id].name
  {
    if rows[id].parent in rows {
      var path := NamePath(rows, rows[id].parent);
      assert path == path[..|path| - 1] + [path[|path| - 1]];
    }
  }

  lemma OneNameMore(rows: Table, id: nat)
    requires Ranked(rows) && id in rows && rows[id].parent in rows
    requires rows[rows[id].parent].name != "" && rows[rows[id].parent].name[|rows[rows[id].parent].name| - 1] != '/'
    ensures NamePath(rows, id) == NamePath(rows, rows[id].parent) + "/" + rows[id].name
    ensures Names(rows, id) == Names(rows, rows[id].parent) + [rows[id].name]
  {
    LastName(rows, rows[id].parent);
  }

  lemma AfterSlash(above: string, name: string)
    ensures "/" + above + "/" + name == "/" + (above + "/" + name)
  {
  }

  /** A path is the names after one slash each, when no name but the last ends in a slash or is empty. */
  lemma {:induction false} PathJoinsNames(rows: Table, id: nat)
    requires Ranked(rows) && id in rows
    requires forall x :: x in rows ==> rows[x].name != "" && rows[x].name[|rows[x].name| - 1] != '/'
    ensures NamePath(rows, id) == "/" + Join(Names(rows, id), "/")
    decreases |rows[id].path|
  {
    assert RankOk(rows, id);
    if rows[id].parent in rows {
      var above, name := rows[id].parent, rows[id].name;
      PathJoinsNames(rows, above);
      OneNameMore(rows, id);
      hide NamePath, Names, Join, Ranked;
      JoinMore(Names(rows, above), name);
      AfterSlash(Join(Names(rows, above), "/"), name);
    } else {
      assert Names(rows, id) == [rows[id].name];
    }
  }

  lemma LastName(rows: Table, id: nat)
    requires Ranked(rows) && id in rows && rows[id].name != "" && rows[id].name[|rows[id].name| - 1] != '/'
    ensures TrimSlash(NamePath(rows, id)) == NamePath(rows, id)
  {
    assert NamePath(rows, id)[|NamePath(rows, id)| - 1] == rows[id].name[|rows[id].name| - 1];
  }

  // ---- What is to be listed ----

  /** Some match lies at or below `id`. */
  ghost predicate Kept(p: Project, query: string, id: nat)
    requires Ranked(p.rows) && id in p.rows
  {
    exists m :: m in p.rows && Under(p.rows, m, id) && Hit(p, query, m)
  }

  ghost function KeptUnder(p: Project, query: string, top: nat): (kept: set<nat>)
    requires Ranked(p.rows) && top in p.rows
    ensures kept <= p.rows.Keys
  {
    set d | d in p.rows && Under(p.rows, d, top) && Kept(p, query, d)
  }

  /** A match counts when its parents lead to the chosen row, or else to the root, inside the project. */
  ghost predicate InScope(p: Project, scope: Option<int>, m: nat)
    requires Ranked(p.rows) && m in p.rows
  {
    if scope.Some? then Under(p.rows, m, scope.value) else Rooted(p.rows, m)
  }

  /** The matches in scope and everything above them. */
  ghost function UpwardClosure(p: Project, query: string, scope: Option<int>): set<nat>
    requires Ranked(p.rows)
  {
    set a | a in p.rows && exists m :: m in p.rows && InScope(p, scope, m) && Hit(p, query, m) && Under(p.rows, m, a)
  }

  ghost function Tops(rows: Table, scope: Option<int>): set<nat> {
    set t | t in rows && if scope.Some? then t == scope.value else rows[t].parent == 0
  }

  /** What the walks keep. */
  ghost function Walked(p: Project, query: string, scope: Option<int>): set<nat>
    requires Ranked(p.rows)
  {
    set d | d in p.rows && exists t :: t in Tops(p.rows, scope) && d in KeptUnder(p, query, t)
  }

  /** What the climbs from a set of rows reach. */
  ghost function Climbed(rows: Table, from: set<nat>): (s: set<nat>)
    ensures s <= rows.Keys
  {
    set a | a in rows && exists d :: d in from && a in AncestorsWithin(rows, d, MAX_DEPTH)
  }

  ghost function Listed(p: Project, query: string, scope: Option<int>): set<nat>
    requires Ranked(p.rows)
  {
    Walked(p, query, scope) + Climbed(p.rows, Walked(p, query, scope))
  }

  lemma KeptAbove(p: Project, query: string, d: nat, a: nat)
    requires Ranked(p.rows) && d in p.rows && a in p.rows && Under(p.rows, d, a) && Kept(p, query, d)
    ensures Kept(p, query, a)
  {
    var m :| m in p.rows && Under(p.rows, m, d) && Hit(p, query, m);
    UnderTransitive(p.rows, m, d, a);
  }

  /** Without a chosen row the walks alone find everything, at any depth. */
  lemma WalkedFromRoots(p: Project, query: string)
    requires Ranked(p.rows)
    ensures Listed(p, query, None) == UpwardClosure(p, query, None) == Walked(p, query, None)
  {
    var walked := Walked(p, query, None);
    forall d | d in walked ensures d in UpwardClosure(p, query, None) && Ancestors(p.rows, d) <= walked {
      var t :| t in Tops(p.rows, None) && d in KeptUnder(p, query, t);
      var m :| m in p.rows && Under(p.rows, m, d) && Hit(p, query, m);
      RootedAlong(p.rows, d, t);
      RootedAlong(p.rows, m, d);
      forall a | a in Ancestors(p.rows, d) ensures a in walked {
        UnderTotal(p.rows, d, a, t);
        if Under(p.rows, t, a) {
          TopIsTop(p.rows, t, a);
        }
        KeptAbove(p, query, d, a);
      }
    }
    forall a | a in UpwardClosure(p, query, None) ensures a in walked {
      var m :| m in p.rows && InScope(p, None, m) && Hit(p, query, m) && Under(p.rows, m, a);
      RootedAlong(p.rows, m, a);
      var t := TopOf(p.rows, a);
      assert Kept(p, query, a) && t in Tops(p.rows, None);
    }
    forall a | a in Climbed(p.rows, walked) ensures a in walked {
      var d :| d in walked && a in AncestorsWithin(p.rows, d, MAX_DEPTH);
      WithinAbove(p.rows, d, MAX_DEPTH);
    }
  }

  lemma TopIsTop(rows: Table, t: nat, a: nat)
    requires Ranked(rows) && t in rows && rows[t].parent == 0 && Under(rows, t, a)
    ensures a == t
  {
  }

  /** From a chosen row, the climb finds all that is above it exactly when that is at most 64 rows. */
  lemma WalkedFromRow(p: Project, query: string, top: nat)
    requires Ranked(p.rows) && top in p.rows
    ensures Listed(p, query, Some(top)) <= UpwardClosure(p, query, Some(top))
    ensures Listed(p, query, Some(top)) == UpwardClosure(p, query, Some(top)) <==>
            Height(p.rows, top) <= 64 || !Kept(p, query, top)
  {
    hide Hit;
    var rows, scope := p.rows, Some(top);
    var walked, listed, closure := Walked(p, query, scope), Listed(p, query, scope), UpwardClosure(p, query, scope);
    assert walked == KeptUnder(p, query, top);
    forall a | a in listed ensures a in closure {
      var d :| d in walked && (a == d || a in AncestorsWithin(rows, d, MAX_DEPTH));
      WithinAbove(rows, d, MAX_DEPTH);
      var m :| m in rows && Under(rows, m, d) && Hit(p, query, m);
      UnderTransitive(rows, m, d, top);
      UnderTransitive(rows, m, d, a);
    }
    forall d | d in walked ensures Kept(p, query, top) {
      KeptAbove(p, query, d, top);
    }
    ClosureFromRow(p, query, top);
    BeyondReach(rows, top, MAX_DEPTH);
    WithinAbove(rows, top, MAX_DEPTH);
    forall a | a in Ancestors(rows, top) && Kept(p, query, top)
      ensures a in listed <==> a in AncestorsWithin(rows, top, MAX_DEPTH)
    {
      AboveListed(p, query, top, a);
    }
    if listed == closure && Kept(p, query, top) {
      assert Ancestors(rows, top) <= AncestorsWithin(rows, top, MAX_DEPTH);
    }
  }

  /** The closure is what was walked and, if that is anything, all that is above the chosen row. */
  lemma ClosureFromRow(p: Project, query: string, top: nat)
    requires Ranked(p.rows) && top in p.rows
    ensures UpwardClosure(p, query, Some(top)) ==
            KeptUnder(p, query, top) + if Kept(p, query, top) then Ancestors(p.rows, top) else {}
  {
    var rows := p.rows;
    forall a | a in UpwardClosure(p, query, Some(top))
      ensures Kept(p, query, top) && (a in KeptUnder(p, query, top) || a in Ancestors(rows, top))
    {
      var m :| m in rows && Under(rows, m, top) && Hit(p, query, m) && Under(rows, m, a);
      UnderTotal(rows, m, a, top);
      assert Kept(p, query, a);
    }
    forall d | d in KeptUnder(p, query, top) ensures d in UpwardClosure(p, query, Some(top)) {
      var m :| m in rows && Under(rows, m, d) && Hit(p, query, m);
      UnderTransitive(rows, m, d, top);
    }
    forall a | a in Ancestors(rows, top) && Kept(p, query, top) ensures a in UpwardClosure(p, query, Some(top)) {
      var m :| m in rows && Under(rows, m, top) && Hit(p, query, m);
      UnderTransitive(rows, m, top, a);
    }
  }

  lemma AboveListed(p: Project, query: string, top: nat, a: nat)
    requires Ranked(p.rows) && top in p.rows && a in Ancestors(p.rows, top) && Kept(p, query, top)
    ensures a in Listed(p, query, Some(top)) <==> a in AncestorsWithin(p.rows, top, MAX_DEPTH)
  {
    var rows := p.rows;
    if Under(rows, a, top) {
      UnderShortens(rows, a, top);
      UnderShortens(rows, top, a);
    }
    assert Walked(p, query, Some(top)) == KeptUnder(p, query, top);
    TopUnderItself(rows, top);
    assert top in Walked(p, query, Some(top));
    if a in Climbed(rows, Walked(p, query, Some(top))) {
      var d :| d in Walked(p, query, Some(top)) && a in AncestorsWithin(rows, d, MAX_DEPTH);
      WithinFromBelow(rows, d, top, MAX_DEPTH, a);
    }
  }

  lemma TopUnderItself(rows: Table, top: nat)
    requires Ranked(rows) && top in rows
    ensures Under(rows, top, top)
  {
  }

  /** The row cut off from its root by another project is not listed, although it matches. */
  lemma CutOffRowLost(tenant: int, one: int, two: int)
    requires one != 0 && two != 0 && one != two
    ensures var all := TreeTheorems.Run(map[], [CreateFolder(tenant, one, true, "F", 0, 10),
                                                CreateFolder(tenant, two, true, "G", 10, 11)]);
            var p := Project(SliceOf(all, tenant, two), map[], map[]);
            Ranked(p.rows) && Hit(p, "", 11) && Listed(p, "", None) == {}
  {
    ForeignParentReached(tenant, one, two);
    var all := TreeTheorems.Run(map[], [CreateFolder(tenant, one, true, "F", 0, 10),
                                        CreateFolder(tenant, two, true, "G", 10, 11)]);
    var p := Project(SliceOf(all, tenant, two), map[], map[]);
    WalkedFromRoots(p, "");
    forall m | m in p.rows ensures !Rooted(p.rows, m) {
      assert m == 11;
    }
  }

  // ---- What a walk does at one row ----

  ghost function Subtree(rows: Table, top: nat): set<nat>
    requires Ranked(rows)
  {
    set d | d in rows && Under(rows, d, top)
  }

  lemma ChildSubtreeSmaller(rows: Table, child: nat, top: nat)
    requires Ranked(rows) && child in rows && top in rows && rows[child].parent == top
    ensures Subtree(rows, child) < Subtree(rows, top)
  {
    ChildUnder(rows, child, top);
    forall d | d in Subtree(rows, child) ensures d in Subtree(rows, top) {
      UnderTransitive(rows, d, child, top);
    }
    assert top in Subtree(rows, top);
  }

  ghost predicate ChildKept(p: Project, query: string, top: nat, c: nat)
    requires Ranked(p.rows)
  {
    c in p.rows && p.rows[c].parent == top && Kept(p, query, c)
  }

  /** What walking the children of `top` among `list` keeps. */
  ghost function KeptAmong(p: Project, query: string, top: nat, list: seq<nat>): set<nat>
    requires Ranked(p.rows)
  {
    set d | d in p.rows && exists c :: c in list && ChildKept(p, query, top, c) && d in KeptUnder(p, query, c)
  }

  lemma KeptAmongOneMore(p: Project, query: string, top: nat, list: seq<nat>, c: nat)
    requires Ranked(p.rows) && c in p.rows
    ensures KeptAmong(p, query, top, list + [c]) ==
            KeptAmong(p, query, top, list) + if p.rows[c].parent == top then KeptUnder(p, query, c) else {}
    ensures (exists k :: k in list + [c] && ChildKept(p, query, top, k)) <==>
            (exists k :: k in list && ChildKept(p, query, top, k)) || ChildKept(p, query, top, c)
  {
    forall d | d in KeptUnder(p, query, c) ensures Kept(p, query, c) {
      KeptAbove(p, query, d, c);
    }
    hide Kept, KeptUnder;
    assert c in list + [c];
    forall d | d in KeptAmong(p, query, top, list)
      ensures d in KeptAmong(p, query, top, list + [c])
    {
      var k :| k in list && ChildKept(p, query, top, k) && d in KeptUnder(p, query, k);
      assert k in list + [c];
    }
    if k :| k in list && ChildKept(p, query, top, k) {
      assert k in list + [c];
    }
  }

  /** A walk keeps what it keeps among the children, and the row itself if it or one of them is kept. */
  lemma KeptStep(p: Project, query: string, top: nat, list: seq<nat>)
    requires Ranked(p.rows) && top in p.rows && forall id :: id in list <==> id in p.rows
    ensures Kept(p, query, top) <==> Hit(p, query, top) || exists c :: c in list && ChildKept(p, query, top, c)
    ensures KeptUnder(p, query, top) ==
            KeptAmong(p, query, top, list) + if Kept(p, query, top) then {top} else {}
  {
    hide Hit;
    TopUnderItself(p.rows, top);
    forall c: nat | ChildKept(p, query, top, c)
      ensures Kept(p, query, top) && KeptUnder(p, query, c) <= KeptUnder(p, query, top)
    {
      ChildUnder(p.rows, c, top);
      KeptAbove(p, query, c, top);
      forall d | d in KeptUnder(p, query, c) ensures d in KeptUnder(p, query, top) {
        UnderTransitive(p.rows, d, c, top);
      }
    }
    if Kept(p, query, top) {
      var m :| m in p.rows && Under(p.rows, m, top) && Hit(p, query, m);
      if m != top {
        var c := ThroughAChild(p.rows, m, top);
        assert c in list && ChildKept(p, query, top, c);
      }
    }
    forall d | d in KeptUnder(p, query, top) && d != top ensures d in KeptAmong(p, query, top, list) {
      var c := ThroughAChild(p.rows, d, top);
      KeptAbove(p, query, d, c);
      assert c in list && ChildKept(p, query, top, c) && d in KeptUnder(p, query, c);
    }
  }

  // ---- The query itself ----

  function Ids(entries: seq<Entry>): set<nat> {
    set i | 0 <= i < |entries| :: entries[i].id
  }

  class Query {
    const p: Project
    /** Rows in the order the database returned them. */
    const order: seq<nat>
    const query: string
    var pathCache: Cache
    var entries: seq<Entry>

    ghost predicate Valid()
      reads this
    {
      && Ranked(p.rows) && pathCache.Keys <= p.rows.Keys
      && (forall id :: id in order <==> id in p.rows)
      && (forall id :: id in pathCache ==> pathCache[id] != "")
      && (forall i :: 0 <= i < |entries| ==> entries[i].id in p.rows && entries[i] == Labelled(p, entries[i].id, entries[i].path))
    }

    /** No path was cut off so far. */
    ghost predicate PathsRight()
      requires Valid()
      reads this
    {
      && CacheRight(p.rows, pathCache)
      && forall i :: 0 <= i < |entries| ==>
           entries[i].id in pathCache && entries[i].path == NamePath(p.rows, entries[i].id)
    }

    constructor (p: Project, order: seq<nat>, query: string)
      requires Ranked(p.rows) && forall id :: id in order <==> id in p.rows
      ensures Valid() && PathsRight() && this.p == p && this.order == order && entries == [] && pathCache == map[]
      ensures this.query == ToLower(TrimSpace(query))
    {
      this.p, this.order, this.query := p, order, ToLower(TrimSpace(query));
      pathCache, entries := map[], [];
    }

    /** Memoised; right whatever was asked before, as long as no call nests deeper than 64. */
    method NamePathOf(id: int, depth: nat) returns (path: string)
      requires Valid()
      modifies this`pathCache
      ensures Valid() && old(pathCache).Keys <= pathCache.Keys
      ensures id in p.rows ==> path != "" && (depth <= MAX_DEPTH ==> id in pathCache)
      ensures old(CacheRight(p.rows, pathCache)) && depth + Calls(p.rows, old(pathCache), id) <= MAX_DEPTH + 1 ==>
        CacheRight(p.rows, pathCache) && path == if id in p.rows then NamePath(p.rows, id) else ""
      decreases MAX_DEPTH + 1 - depth
    {
      if depth > MAX_DEPTH {
        return "/…";
      }
      if id in pathCache {
        return pathCache[id];
      }
      if id !in p.rows {
        return "";
      }
      var n := p.rows[id];
      assert RankOk(p.rows, id);
      path := "/" + n.name;
      if n.parent != 0 {
        var above := NamePathOf(n.parent, depth + 1);
        if above != "" {
          path := TrimSlash(above) + "/" + n.name;
        }
      }
      pathCache := pathCache[id := path];
    }

    method MakeEntry(id: nat) returns (e: Entry)
      requires Valid() && id in p.rows
      modifies this`pathCache
      ensures Valid() && old(pathCache).Keys <= pathCache.Keys && id in pathCache
      ensures e.id == id && e == Labelled(p, id, e.path)
      ensures old(PathsRight()) && Calls(p.rows, old(pathCache), id) <= MAX_DEPTH + 1 ==>
        PathsRight() && e.path == NamePath(p.rows, id)
    {
      var path := NamePathOf(id, 0);
      e := Labelled(p, id, path);
    }

    /** Post-order; an entry is kept when it matches or something below it was kept. */
    method Walk(id: nat) returns (kept: bool)
      requires Valid() && id in p.rows
      modifies this`pathCache, this`entries
      ensures Valid() && old(pathCache).Keys <= pathCache.Keys
      ensures kept == Kept(p, query, id)
      ensures Ids(entries) == old(Ids(entries)) + KeptUnder(p, query, id)
      ensures old(PathsRight()) && Calls(p.rows, old(pathCache), id) <= MAX_DEPTH + 1 ==> PathsRight()
      decreases Subtree(p.rows, id)
    {
      hide KeptUnder, KeptAmong, Kept, Subtree, Under, Ids, NamePath, Calls, Labelled, Matches, Hit, CacheRight, Ranked;
      var e := MakeEntry(id);
      var childKept := false;
      NothingKept(p, query, id);
      for i := 0 to |order|
        invariant Valid() && old(pathCache).Keys <= pathCache.Keys && id in pathCache
        invariant childKept <==> exists c :: c in order[..i] && ChildKept(p, query, id, c)
        invariant Ids(entries) == old(Ids(entries)) + KeptAmong(p, query, id, order[..i])
        invariant old(PathsRight()) && Calls(p.rows, old(pathCache), id) <= MAX_DEPTH + 1 ==>
          PathsRight() && e.path == NamePath(p.rows, id)
      {
        var c := order[i];
        assert c in order;
        KeptAmongOneMore(p, query, id, order[..i], c);
        assert order[..i + 1] == order[..i] + [c];
        if p.rows[c].parent == id {
          ChildSubtreeSmaller(p.rows, c, id);
          CachedParent(p.rows, pathCache, c);
          var k := Walk(c);
          childKept := childKept || k;
        }
      }
      assert order[..|order|] == order;
      KeptStep(p, query, id, order);
      MatchesIgnoresPath(p, query, id, e);
      kept := Matches(e, query) || childKept;
      if kept {
        OneMoreId(entries, e);
        entries := entries + [e];
      }
    }

    /** Climbs at most 64 steps from a row, noting each parent - the last of them may be no row of the slice. */
    method Climb(id: nat, found: seq<int>) returns (ancestors: seq<int>)
      requires Valid() && id in p.rows
      ensures forall a :: a in p.rows ==> (a in ancestors <==> a in found || a in AncestorsWithin(p.rows, id, MAX_DEPTH))
    {
      ancestors := found;
      var cur: int, depth := id, 0;
      while depth < MAX_DEPTH
        invariant 0 <= depth <= MAX_DEPTH
        invariant forall a :: a in p.rows ==>
          (a in ancestors || a in AncestorsWithin(p.rows, cur, MAX_DEPTH - depth)
           <==> a in found || a in AncestorsWithin(p.rows, id, MAX_DEPTH))
      {
        if cur !in p.rows || p.rows[cur].parent == 0 {
          break;
        }
        cur := p.rows[cur].parent;
        if cur !in ancestors {
          ancestors := ancestors + [cur];
        }
        depth := depth + 1;
      }
    }

    /** Adds what the climbs from everything listed so far reach. */
    method AddAncestors()
      requires Valid()
      modifies this`pathCache, this`entries
      ensures Valid()
      ensures Ids(entries) == old(Ids(entries) + Climbed(p.rows, Ids(entries)))
      ensures old(PathsRight()) ==> PathsRight()
    {
      hide AncestorsWithin, Climbed, NamePath, Ids, Calls, CacheRight;
      var ancestors: seq<int> := [];
      NothingClimbed(p.rows, entries);
      for i := 0 to |entries|
        invariant entries == old(entries) && pathCache == old(pathCache) && Valid()
        invariant forall a :: a in p.rows ==> (a in ancestors <==> a in Climbed(p.rows, Ids(entries[..i])))
      {
        ancestors := Climb(entries[i].id, ancestors);
        ClimbedOneMore(p.rows, entries, i);
      }
      assert entries[..|entries|] == entries;
      ghost var climbed := Climbed(p.rows, Ids(entries));
      for i := 0 to |ancestors|
        invariant Valid() && old(pathCache).Keys <= pathCache.Keys
        invariant Ids(entries) == old(Ids(entries)) + RowsIn(p.rows, ancestors[..i])
        invariant old(PathsRight()) ==> PathsRight()
      {
        var id := ancestors[i];
        assert id in ancestors;
        RowsInOneMore(p.rows, ancestors, i);
        if id in p.rows {
          CalledOnce(p.rows, old(entries), old(pathCache), pathCache, id);
          var e := MakeEntry(id);
          OneMoreId(entries, e);
          entries := entries + [e];
        }
      }
      assert ancestors[..|ancestors|] == ancestors;
      assert RowsIn(p.rows, ancestors) == climbed;
    }

    method WalkAll(scope: Option<int>)
      requires Valid() && entries == [] && (scope.Some? ==> scope.value in p.rows)
      modifies this`pathCache, this`entries
      ensures Valid() && Ids(entries) == Walked(p, query, scope)
      ensures old(PathsRight()) && (scope.Some? ==> Calls(p.rows, old(pathCache), scope.value) <= MAX_DEPTH + 1) ==> PathsRight()
    {
      hide KeptUnder, Walked, WalkedFrom, Ids;
      NoIds();
      WalkedIsTops(p, query, order);
      if scope.Some? {
        var _ := Walk(scope.value);
        return;
      }
      if order != [] {
        assert order[0] in order;
        WalkedOneMore(p, query, order, 0);
      }
      for i := 0 to |order|
        invariant Valid() && Ids(entries) == WalkedFrom(p, query, order[..i])
        invariant old(PathsRight()) ==> PathsRight()
      {
        assert order[i] in order;
        WalkedOneMore(p, query, order, i);
        if p.rows[order[i]].parent == 0 {
          var _ := Walk(order[i]);
        }
      }
      assert order[..|order|] == order;
    }

    /**
     * The directory query: what to list, in the order of the paths, each row once. Its paths are whole
     * unless the chosen row lies too deep.
     */
    method Run(scope: Option<int>, sort: seq<Entry> -> seq<Entry>) returns (r: Result<seq<Entry>, Error>)
      requires Valid() && entries == [] && pathCache == map[] && SortsByPath(sort)
      modifies this`pathCache, this`entries
      ensures r.Failure? <==> p.rows != map[] && scope.Some? && scope.value !in p.rows
      ensures r.Failure? ==> r.error == NodeNotFound
      ensures r.Success? ==> Ids(r.value) == Listed(p, query, scope)
      ensures r.Success? ==> DistinctIds(r.value) && SortedByPath(r.value)
      ensures r.Success? ==> forall e :: e in r.value ==> e.id in p.rows && e == Labelled(p, e.id, e.path)
      ensures r.Success? && (scope.Some? ==> Calls(p.rows, map[], scope.value) <= MAX_DEPTH + 1) ==>
        forall e :: e in r.value ==> e == EntryOf(p, e.id)
    {
      hide Ids, Walked, Climbed, SortedByPath, NamePath, Under, Calls;
      NoIds();
      if |order| == 0 {
        NoRows(p, query, scope);
        return Success([]);
      }
      assert order[0] in order;
      if scope.Some? && scope.value !in p.rows {
        return Failure(NodeNotFound);
      }
      WalkAll(scope);
      AddAncestors();
      var sorted := sort(entries);
      PermutedIds(entries, sorted);
      var a := new Entry[|sorted|](i requires 0 <= i < |sorted| => sorted[i]);
      assert a[..] == sorted;
      var n := CompactInPlace(a);
      UniqFacts(sorted);
      return Success(a[..n]);
    }
  }

  ghost function WalkedFrom(p: Project, query: string, list: seq<nat>): set<nat>
    requires Ranked(p.rows)
  {
    set d | d in p.rows && exists t :: t in list && t in p.rows && p.rows[t].parent == 0 && d in KeptUnder(p, query, t)
  }

  lemma WalkedOneMore(p: Project, query: string, list: seq<nat>, i: nat)
    requires Ranked(p.rows) && i < |list| && list[i] in p.rows
    ensures WalkedFrom(p, query, list[..i + 1]) ==
            WalkedFrom(p, query, list[..i]) + if p.rows[list[i]].parent == 0 then KeptUnder(p, query, list[i]) else {}
    ensures WalkedFrom(p, query, list[..0]) == {}
  {
    hide KeptUnder;
    var more := list[..i + 1];
    assert more == list[..i] + [list[i]];
    assert list[i] in more;
    forall d | d in WalkedFrom(p, query, list[..i]) ensures d in WalkedFrom(p, query, more) {
      var t :| t in list[..i] && t in p.rows && p.rows[t].parent == 0 && d in KeptUnder(p, query, t);
      assert t in more;
    }
  }

  lemma NoRows(p: Project, query: string, scope: Option<int>)
    requires Ranked(p.rows) && forall id :: id !in p.rows
    ensures p.rows == map[] && Listed(p, query, scope) == {}
  {
  }

  lemma WalkedIsTops(p: Project, query: string, list: seq<nat>)
    requires Ranked(p.rows) && forall id :: id in list <==> id in p.rows
    ensures WalkedFrom(p, query, list) == Walked(p, query, None)
    ensures list == [] ==> Walked(p, query, None) == {}
    ensures forall top :: top in p.rows ==> Walked(p, query, Some(top)) == KeptUnder(p, query, top)
  {
    hide KeptUnder;
    forall top | top in p.rows ensures Walked(p, query, Some(top)) == KeptUnder(p, query, top) {
      assert Tops(p.rows, Some(top)) == {top};
    }
    forall d | d in Walked(p, query, None) ensures d in WalkedFrom(p, query, list) {
      var t :| t in Tops(p.rows, None) && d in KeptUnder(p, query, t);
      assert t in list;
    }
  }

  ghost function RowsIn(rows: Table, ids: seq<int>): set<nat> {
    set a | a in rows && a in ids
  }

  lemma RowsInOneMore(rows: Table, ids: seq<int>, i: nat)
    requires i < |ids|
    ensures RowsIn(rows, ids[..i + 1]) == RowsIn(rows, ids[..i]) + if ids[i] in rows then {ids[i]} else {}
    ensures RowsIn(rows, ids[..0]) == {}
  {
    assert ids[..i + 1] == ids[..i] + [ids[i]];
  }

  lemma CachedParent(rows: Table, cache: Cache, c: nat)
    requires Ranked(rows) && c in rows && rows[c].parent in cache
    ensures Calls(rows, cache, c) <= 2
  {
    assert RankOk(rows, c);
  }

  /** The rows above a listed one have all been asked for before. */
  lemma CalledOnce(rows: Table, entries: seq<Entry>, before: Cache, cache: Cache, id: nat)
    requires Ranked(rows) && id in rows && id in Climbed(rows, Ids(entries)) && before.Keys <= cache.Keys
    ensures CacheRight(rows, before) && (forall i :: 0 <= i < |entries| ==> entries[i].id in before) ==>
      Calls(rows, cache, id) == 1
  {
    if CacheRight(rows, before) && forall i :: 0 <= i < |entries| ==> entries[i].id in before {
      var d :| d in Ids(entries) && id in AncestorsWithin(rows, d, MAX_DEPTH);
      WithinAbove(rows, d, MAX_DEPTH);
      CachedAbove(rows, before, d, id);
    }
  }

  lemma MatchesIgnoresPath(p: Project, query: string, id: nat, e: Entry)
    requires id in p.rows && e == Labelled(p, id, e.path)
    ensures Matches(e, query) <==> Hit(p, query, id)
  {
  }

  lemma NothingKept(p: Project, query: string, top: nat)
    requires Ranked(p.rows)
    ensures KeptAmong(p, query, top, []) == {}
  {
  }

  lemma NothingClimbed(rows: Table, entries: seq<Entry>)
    ensures Climbed(rows, Ids(entries[..0])) == {}
  {
  }

  lemma ClimbedOneMore(rows: Table, entries: seq<Entry>, i: nat)
    requires i < |entries|
    ensures Climbed(rows, Ids(entries[..i + 1])) ==
            Climbed(rows, Ids(entries[..i])) + AncestorsWithin(rows, entries[i].id, MAX_DEPTH)
  {
    assert entries[..i + 1] == entries[..i] + [entries[i]];
    OneMoreId(entries[..i], entries[i]);
  }

  // ---- Sorting and removing duplicates ----

  predicate Less(a: string, b: string) {
    b != "" && (a == "" || a[0] < b[0] || (a[0] == b[0] && Less(a[1..], b[1..])))
  }

  /** `i` is the first place where the texts differ, and `a` is the smaller there or has ended. */
  predicate SmallerAt(a: string, b: string, i: nat) {
    i <= |a| && i < |b| && a[..i] == b[..i] && (i == |a| || a[i] < b[i])
  }

  lemma SameFirst(a: string, b: string, i: nat)
    requires SmallerAt(a, b, i)
    ensures i == 0 || (a != "" && b != "" && a[0] == b[0])
  {
    assert i > 0 ==> a[..i][0] == a[0] && b[..i][0] == b[0];
  }

  lemma {:induction false} LessExactly(a: string, b: string)
    ensures Less(a, b) <==> exists i: nat :: SmallerAt(a, b, i)
  {
    if a == "" || b == "" || a[0] != b[0] {
      assert b != "" && (a == "" || a[0] < b[0]) ==> SmallerAt(a, b, 0);
      forall i: nat | SmallerAt(a, b, i) ensures i == 0 {
        SameFirst(a, b, i);
      }
    } else {
      LessExactly(a[1..], b[1..]);
      assert a == [a[0]] + a[1..] && b == [b[0]] + b[1..];
      if i: nat :| SmallerAt(a[1..], b[1..], i) {
        assert a[..i + 1] == [a[0]] + a[1..][..i] && b[..i + 1] == [b[0]] + b[1..][..i];
        assert SmallerAt(a, b, i + 1);
      }
      if i: nat :| SmallerAt(a, b, i) {
        assert i > 0;
        assert a[1..][..i - 1] == a[..i][1..] && b[1..][..i - 1] == b[..i][1..];
        assert SmallerAt(a[1..], b[1..], i - 1);
      }
    }
  }

  predicate SortedByPath(s: seq<Entry>) {
    forall i, j :: 0 <= i < j < |s| ==> !Less(s[j].path, s[i].path)
  }

  ghost predicate SortsByPath(sort: seq<Entry> -> seq<Entry>) {
    forall s :: multiset(sort(s)) == multiset(s) && SortedByPath(sort(s))
  }

  predicate DistinctIds(s: seq<Entry>) {
    forall i, j :: 0 <= i < j < |s| ==> s[i].id != s[j].id
  }

  /** The first entry of each row. */
  function Uniq(s: seq<Entry>): seq<Entry> {
    if s == [] then []
    else
      var init := s[..|s| - 1];
      if s[|s| - 1].id in Ids(init) then Uniq(init) else Uniq(init) + [s[|s| - 1]]
  }

  /** What comes last in a sorted list comes last after any part of it. */
  lemma SortedOneMore(init: seq<Entry>, last: Entry, part: seq<Entry>)
    requires SortedByPath(init + [last]) && forall e :: e in part ==> e in init
    ensures SortedByPath(init) && (SortedByPath(part) ==> SortedByPath(part + [last]))
  {
    hide Less;
    var s := init + [last];
    forall i, j | 0 <= i < j < |init| ensures !Less(init[j].path, init[i].path) {
      assert s[i] == init[i] && s[j] == init[j];
    }
    forall i | 0 <= i < |part| ensures !Less(last.path, part[i].path) {
      assert part[i] in init;
      var k :| 0 <= k < |init| && init[k] == part[i];
      assert s[k] == init[k] && s[|init|] == last;
    }
  }

  lemma {:induction false} UniqFacts(s: seq<Entry>)
    ensures Ids(Uniq(s)) == Ids(s) && DistinctIds(Uniq(s))
    ensures forall e :: e in Uniq(s) ==> e in s
    ensures SortedByPath(s) ==> SortedByPath(Uniq(s))
  {
    if s != [] {
      var init, last := s[..|s| - 1], s[|s| - 1];
      hide Less;
      assert s == init + [last];
      if SortedByPath(s) {
        SortedOneMore(init, last, init);
      }
      UniqFacts(init);
      OneMoreId(init, last);
      OneMoreId(Uniq(init), last);
      if SortedByPath(s) && last.id !in Ids(init) {
        SortedOneMore(init, last, Uniq(init));
      }
    }
  }

  lemma UniqOneMore(s: seq<Entry>, i: nat)
    requires i < |s|
    ensures Ids(s[..i + 1]) == Ids(s[..i]) + {s[i].id}
    ensures Uniq(s[..i + 1]) == Uniq(s[..i]) + if s[i].id in Ids(s[..i]) then [] else [s[i]]
  {
    assert s[..i + 1][..i] == s[..i] && s[..i + 1] == s[..i] + [s[i]];
    OneMoreId(s[..i], s[i]);
  }

  /** The kept entries are written over the front of the array they are read from. */
  method CompactInPlace(a: array<Entry>) returns (n: nat)
    modifies a
    ensures n <= a.Length && a[..n] == Uniq(old(a[..]))
  {
    hide Ids, Uniq;
    ghost var was := a[..];
    n := 0;
    var seen: set<nat> := {};
    NoIds();
    assert was[..0] == [];
    for i := 0 to a.Length
      invariant n <= i && a[..n] == Uniq(was[..i]) && seen == Ids(was[..i])
      invariant a[i..] == was[i..]
    {
      var e := a[i];
      assert e == a[i..][0] == was[i];
      UniqOneMore(was, i);
      if e.id !in seen {
        seen := seen + {e.id};
        a[n] := e;
        n := n + 1;
      }
      assert a[i + 1..] == was[i + 1..];
    }
    assert was[..a.Length] == was;
  }

  lemma NoIds()
    ensures Ids([]) == {} && Uniq([]) == [] && SortedByPath([])
  {
  }

  lemma PermutedIds(s: seq<Entry>, t: seq<Entry>)
    requires multiset(s) == multiset(t)
    ensures Ids(s) == Ids(t) && forall e :: e in t <==> e in s
  {
    assert forall e :: e in t <==> e in multiset(t);
    assert forall e :: e in s <==> e in multiset(s);
    forall i | i in Ids(s) ensures i in Ids(t) {
      var k :| 0 <= k < |s| && s[k].id == i;
      assert s[k] in t;
    }
    forall i | i in Ids(t) ensures i in Ids(s) {
      var k :| 0 <= k < |t| && t[k].id == i;
      assert t[k] in s;
    }
  }

  lemma OneMoreId(entries: seq<Entry>, e: Entry)
    ensures Ids(entries + [e]) == Ids(entries) + {e.id}
  {
    var longer := entries + [e];
    assert longer[|entries|] == e;
    forall i | 0 <= i < |entries| ensures entries[i].id in Ids(longer) {
      assert longer[i] == entries[i];
    }
  }
}
