/** Applying a new OpenAPI document to a project: create what is new, update what changed, delete nothing. */
module OpenApiDiff {
  import opened Prelude
  import opened Decimal
  import opened SchemaInference

  /** A stored interface, or one read from the document; the JSON columns are texts. */
  datatype Api = Api(verb: nat, uri: string, params: string, headers: string, body: string)

  datatype Kind = Added | Changed | Breaking | Removed

  datatype Diff = Diff(api: nat, kind: Kind)

  type Rows = map<nat, Api>

  type Parser = string -> Option<Json>

  // ---- Comparing one interface with its new form ----

  /** The value of a column; an empty text is not JSON. */
  function Decoded(parse: Parser, raw: string): Option<Json> {
    if raw == "" then None else parse(raw)
  }

  /** Two JSON columns say the same; texts that are not JSON are compared as they are. */
  predicate JsonEqual(parse: Parser, a: string, b: string) {
    (a == "" && b == "") ||
    if Decoded(parse, a).None? || Decoded(parse, b).None? then a == b else Decoded(parse, a) == Decoded(parse, b)
  }

  predicate Same(parse: Parser, a: Api, b: Api) {
    JsonEqual(parse, a.params, b.params) && JsonEqual(parse, a.headers, b.headers) && JsonEqual(parse, a.body, b.body)
  }

  /** A JSON value that decodes into a map of strings; null entries decode to empty strings. */
  predicate StringMap(v: Json) {
    v.Null? || (v.Obj? && forall k :: k in v.fields ==> v.fields[k].Str? || v.fields[k].Null?)
  }

  function KeyOfPair(v: Json): string {
    if v.Obj? && "key" in v.fields && v.fields["key"].Str? then v.fields["key"].s else ""
  }

  /** The keys of a parameter or header column. */
  function KvKeys(parse: Parser, raw: string): set<string> {
    match Decoded(parse, raw)
    case Some(Arr(items)) =>
      if forall i :: 0 <= i < |items| ==> StringMap(items[i])
      then set i | 0 <= i < |items| :: KeyOfPair(items[i])
      else {}
    case _ => {}
  }

  function Clamped(n: int): int {
    if n < MIN64 then MIN64 else if n > MAX64 then MAX64 else n
  }

  /** The content type code of a body column; 0 when there is none. */
  function BodyContentType(parse: Parser, raw: string): int {
    match Decoded(parse, raw)
    case Some(Obj(fields)) =>
      if "contentType" !in fields then 0
      else (match fields["contentType"]
            case Int(i) => i
            case Float(x) => if x >= 0.0 then x.Floor else -(-x).Floor
            case Str(s) => if Signed(s).Some? then Clamped(Signed(s).value) else 0
            case _ => 0)
    case _ => 0
  }

  /** A parameter or header disappeared, or the body changed its content type. */
  predicate IsBreaking(parse: Parser, was: Api, now: Api) {
    || !(KvKeys(parse, was.params) <= KvKeys(parse, now.params))
    || !(KvKeys(parse, was.headers) <= KvKeys(parse, now.headers))
    || (BodyContentType(parse, was.body) != 0 && BodyContentType(parse, now.body) != BodyContentType(parse, was.body))
  }

  // ---- Matching by key ----

  function ApiKey(a: Api): string {
    Print(a.verb) + "|" + a.uri
  }

  lemma KeyIdentifies(a: Api, b: Api)
    ensures ApiKey(a) == ApiKey(b) <==> a.verb == b.verb && a.uri == b.uri
  {
    if ApiKey(a) == ApiKey(b) {
      var da, db := Print(a.verb), Print(b.verb);
      PrintOnlyDigits(a.verb);
      PrintOnlyDigits(b.verb);
      var s := ApiKey(a);
      assert s[|da|] == '|' && s[|db|] == '|';
      assert forall k :: 0 <= k < |da| ==> s[k] == da[k] && da[k] in da;
      assert forall k :: 0 <= k < |db| ==> s[k] == db[k] && db[k] in db;
      assert da == s[..|da|] && db == s[..|db|];
      assert a.uri == s[|da| + 1..] && b.uri == s[|db| + 1..];
      PrintInjective(a.verb, b.verb);
    }
  }

  function Keys(rows: Rows): set<string> {
    set id | id in rows :: ApiKey(rows[id])
  }

  function EntryKeys(entries: seq<Api>): set<string> {
    set i | 0 <= i < |entries| :: ApiKey(entries[i])
  }

  /** No two interfaces of the project share method and address. */
  predicate Unique(rows: Rows) {
    forall a, b :: a in rows && b in rows && ApiKey(rows[a]) == ApiKey(rows[b]) ==> a == b
  }

  predicate DistinctKeys(entries: seq<Api>) {
    forall i, j :: 0 <= i < j < |entries| ==> ApiKey(entries[i]) != ApiKey(entries[j])
  }

  /** The first entry of the document with the key. */
  function FirstWith(entries: seq<Api>, key: string): Option<Api> {
    if entries == [] then None
    else
      var before := FirstWith(entries[..|entries| - 1], key);
      if before.Some? then before
      else if ApiKey(entries[|entries| - 1]) == key then Some(entries[|entries| - 1]) else None
  }

  function Revised(parse: Parser, row: Api, e: Api): Api {
    if Same(parse, row, e) then row else row.(params := e.params, headers := e.headers, body := e.body)
  }

  /** The row after the document's first word on it; later entries with its key do not touch it. */
  function Brought(parse: Parser, row: Api, entries: seq<Api>): Api {
    match FirstWith(entries, ApiKey(row))
    case None => row
    case Some(e) => Revised(parse, row, e)
  }

  /** What becomes of the project's rows. */
  ghost predicate Applied(parse: Parser, before: Rows, entries: seq<Api>, after: Rows) {
    && before.Keys <= after.Keys
    && (forall id :: id in before ==> after[id] == Brought(parse, before[id], entries))
    && (forall id :: id in after && id !in before ==>
        ApiKey(after[id]) !in Keys(before) && FirstWith(entries, ApiKey(after[id])) == Some(after[id]))
    && EntryKeys(entries) <= Keys(after)
    && Unique(after)
  }

  // ---- What is reported ----

  /** The entry that decides about the row is the one read at `i`: it changes the row, in this way. */
  ghost predicate ChangedBy(parse: Parser, before: Rows, entries: seq<Api>, d: Diff) {
    && d.api in before
    && var e := FirstWith(entries, ApiKey(before[d.api]));
       e.Some? && !Same(parse, before[d.api], e.value)
       && d.kind == if IsBreaking(parse, before[d.api], e.value) then Breaking else Changed
  }

  /** A new row, or a row whose key the document repeats: the second entry is reported as added again. */
  ghost predicate AddedBy(before: Rows, entries: seq<Api>, n: nat, after: Rows, d: Diff)
    requires n <= |entries|
  {
    && d.kind == Added && d.api in after
    && exists i :: 0 <= i < n && NotPending(before, entries, i) && ApiKey(entries[i]) == ApiKey(after[d.api])
  }

  /** At entry `i` the key is not (or no longer) among the rows waiting to be compared. */
  predicate NotPending(before: Rows, entries: seq<Api>, i: nat)
    requires i < |entries|
  {
    ApiKey(entries[i]) !in Keys(before) || ApiKey(entries[i]) in EntryKeys(entries[..i])
  }

  ghost predicate RemovedBy(before: Rows, entries: seq<Api>, d: Diff) {
    d.kind == Removed && d.api in before && ApiKey(before[d.api]) !in EntryKeys(entries)
  }

  lemma {:induction false} FirstWithFinds(entries: seq<Api>, key: string)
    ensures FirstWith(entries, key).Some? <==> key in EntryKeys(entries)
    ensures FirstWith(entries, key).Some? ==>
      FirstWith(entries, key).value in entries && ApiKey(FirstWith(entries, key).value) == key
  {
    if entries != [] {
      EntryKeysOneMore(entries, |entries| - 1);
      assert entries[..|entries|] == entries;
      FirstWithFinds(entries[..|entries| - 1], key);
    }
  }

  lemma EntryKeysOneMore(entries: seq<Api>, i: nat)
    requires i < |entries|
    ensures EntryKeys(entries[..i + 1]) == EntryKeys(entries[..i]) + {ApiKey(entries[i])}
  {
    var longer := entries[..i + 1];
    assert longer[i] == entries[i] && forall j :: 0 <= j < i ==> longer[j] == entries[..i][j];
    forall k | k in EntryKeys(entries[..i]) ensures k in EntryKeys(longer) {
      var j :| 0 <= j < i && ApiKey(entries[..i][j]) == k;
      assert ApiKey(longer[j]) == k;
    }
  }

  // ---- One entry after the other ----

  lemma FirstWithOneMore(entries: seq<Api>, i: nat, key: string)
    requires i < |entries|
    ensures FirstWith(entries[..i + 1], key) ==
            if FirstWith(entries[..i], key).Some? then FirstWith(entries[..i], key)
            else if ApiKey(entries[i]) == key then Some(entries[i]) else None
  {
    assert entries[..i + 1][..i] == entries[..i];
  }

  lemma NothingApplied(parse: Parser, rows: Rows)
    requires Unique(rows)
    ensures Applied(parse, rows, [], rows)
  {
  }

  lemma BroughtKeepsKey(parse: Parser, row: Api, entries: seq<Api>)
    ensures ApiKey(Brought(parse, row, entries)) == ApiKey(row)
  {
  }

  lemma KeysGrow(parse: Parser, before: Rows, entries: seq<Api>, after: Rows)
    requires Applied(parse, before, entries, after)
    ensures Keys(before) <= Keys(after)
  {
    forall id | id in before ensures ApiKey(before[id]) in Keys(after) {
      BroughtKeepsKey(parse, before[id], entries);
      assert ApiKey(after[id]) == ApiKey(before[id]);
    }
  }

  /** An entry whose key the table has, and which is not pending, changes nothing. */
  lemma SkippedKeepsApplied(parse: Parser, before: Rows, entries: seq<Api>, i: nat, after: Rows)
    requires i < |entries| && Applied(parse, before, entries[..i], after)
    requires NotPending(before, entries, i) && ApiKey(entries[i]) in Keys(after)
    ensures Applied(parse, before, entries[..i + 1], after)
  {
    EntryKeysOneMore(entries, i);
    FirstWithFinds(entries[..i], ApiKey(entries[i]));
    forall id | id in after
      ensures FirstWith(entries[..i + 1], ApiKey(after[id])) == FirstWith(entries[..i], ApiKey(after[id]))
      ensures id in before ==> FirstWith(entries[..i + 1], ApiKey(before[id])) == FirstWith(entries[..i], ApiKey(before[id]))
    {
      FirstWithOneMore(entries, i, ApiKey(after[id]));
      if id in before {
        FirstWithOneMore(entries, i, ApiKey(before[id]));
        BroughtKeepsKey(parse, before[id], entries[..i]);
      }
    }
  }

  /** A key the table does not have gets a row of its own. */
  lemma CreatedKeepsApplied(parse: Parser, before: Rows, entries: seq<Api>, i: nat, after: Rows, id: nat)
    requires i < |entries| && Applied(parse, before, entries[..i], after)
    requires ApiKey(entries[i]) !in Keys(after) && id !in after
    ensures Applied(parse, before, entries[..i + 1], after[id := entries[i]])
  {
    hide ApiKey, EntryKeys, FirstWith;
    var more := after[id := entries[i]];
    EntryKeysOneMore(entries, i);
    KeysGrow(parse, before, entries[..i], after);
    FirstWithFinds(entries[..i], ApiKey(entries[i]));
    assert Keys(more) == Keys(after) + {ApiKey(entries[i])} by {
      assert ApiKey(more[id]) in Keys(more);
      forall x | x in after ensures ApiKey(after[x]) in Keys(more) {
        assert more[x] == after[x];
      }
    }
    forall x | x in more
      ensures x in before ==> more[x] == Brought(parse, before[x], entries[..i + 1])
      ensures x !in before ==> FirstWith(entries[..i + 1], ApiKey(more[x])) == Some(more[x])
    {
      FirstWithOneMore(entries, i, ApiKey(more[x]));
      if x in before {
        assert ApiKey(before[x]) in Keys(before);
        FirstWithOneMore(entries, i, ApiKey(before[x]));
      }
    }
    assert ApiKey(entries[i]) !in Keys(before);
  }

  lemma RevisedKeepsKey(parse: Parser, row: Api, e: Api)
    ensures ApiKey(Revised(parse, row, e)) == ApiKey(row)
  {
  }

  /** The first entry with a stored key revises that row. */
  lemma RevisedKeepsApplied(parse: Parser, before: Rows, entries: seq<Api>, i: nat, after: Rows, id: nat)
    requires i < |entries| && Applied(parse, before, entries[..i], after) && Unique(before)
    requires id in before && ApiKey(before[id]) == ApiKey(entries[i]) && ApiKey(entries[i]) !in EntryKeys(entries[..i])
    ensures id in after && after[id] == before[id]
    ensures Applied(parse, before, entries[..i + 1], after[id := Revised(parse, before[id], entries[i])])
    ensures Unique(after[id := Revised(parse, before[id], entries[i])])
  {
    hide Same, ApiKey, EntryKeys, FirstWith;
    EntryKeysOneMore(entries, i);
    FirstWithFinds(entries[..i], ApiKey(entries[i]));
    assert ApiKey(before[id]) in Keys(before);
    RevisedKeepsKey(parse, before[id], entries[i]);
    var more := after[id := Revised(parse, before[id], entries[i])];
    assert after[id] == before[id];
    assert forall x :: x in after ==> ApiKey(more[x]) == ApiKey(after[x]);
    assert Unique(more);
    assert Keys(more) == Keys(after) by {
      forall x | x in after ensures ApiKey(after[x]) in Keys(more) {
        assert ApiKey(more[x]) == ApiKey(after[x]);
      }
    }
    assert ApiKey(more[id]) in Keys(more);
    forall x | x in more
      ensures x in before ==> more[x] == Brought(parse, before[x], entries[..i + 1])
      ensures x !in before ==> FirstWith(entries[..i + 1], ApiKey(more[x])) == Some(more[x])
    {
      FirstWithOneMore(entries, i, ApiKey(more[x]));
      if x in before {
        FirstWithOneMore(entries, i, ApiKey(before[x]));
      } else {
        assert ApiKey(before[id]) in Keys(before);
      }
    }
  }

  /** Reporting an entry that was not pending: its row is reported as added. */
  lemma SkippedReports(parse: Parser, before: Rows, entries: seq<Api>, i: nat, rows: Rows, after: Rows, id: nat, d: Diff)
    requires i < |entries| && Applied(parse, before, entries[..i], rows) && Unique(after)
    requires NotPending(before, entries, i) && id in after && ApiKey(after[id]) == ApiKey(entries[i])
    requires after == rows || (id !in rows && after == rows[id := entries[i]] && ApiKey(entries[i]) !in Keys(rows))
    ensures AddedBy(before, entries, i + 1, after, d) <==> AddedBy(before, entries, i, rows, d) || d == Diff(id, Added)
    ensures ChangedBy(parse, before, entries[..i + 1], d) <==> ChangedBy(parse, before, entries[..i], d)
  {
    hide Same, IsBreaking, ApiKey, EntryKeys, FirstWith, Applied;
    if AddedBy(before, entries, i + 1, after, d) && d.api != id {
      var j :| 0 <= j < i + 1 && NotPending(before, entries, j) && ApiKey(entries[j]) == ApiKey(after[d.api]);
      assert j != i;
      assert AddedBy(before, entries, i, rows, d);
    }
    if AddedBy(before, entries, i, rows, d) {
      var j :| 0 <= j < i && NotPending(before, entries, j) && ApiKey(entries[j]) == ApiKey(rows[d.api]);
      assert after[d.api] == rows[d.api];
    }
    if d.api in before {
      assert ApiKey(before[d.api]) in Keys(before);
      FirstWithOneMore(entries, i, ApiKey(before[d.api]));
      FirstWithFinds(entries[..i], ApiKey(before[d.api]));
    }
  }

  /** Reporting the first entry of a stored interface: it is reported exactly when it differs. */
  lemma RevisedReports(parse: Parser, before: Rows, entries: seq<Api>, i: nat, rows: Rows, after: Rows, id: nat, d: Diff)
    requires i < |entries| && Applied(parse, before, entries[..i], rows) && Unique(before)
    requires id in before && ApiKey(before[id]) == ApiKey(entries[i]) && ApiKey(entries[i]) !in EntryKeys(entries[..i])
    requires id in rows && rows[id] == before[id] && after == rows[id := Revised(parse, before[id], entries[i])]
    ensures AddedBy(before, entries, i + 1, after, d) <==> AddedBy(before, entries, i, rows, d)
    ensures ChangedBy(parse, before, entries[..i + 1], d) <==>
            ChangedBy(parse, before, entries[..i], d)
            || (!Same(parse, before[id], entries[i])
                && d == Diff(id, if IsBreaking(parse, before[id], entries[i]) then Breaking else Changed))
  {
    hide Same, IsBreaking, ApiKey, EntryKeys, FirstWith, Applied;
    RevisedKeepsKey(parse, before[id], entries[i]);
    assert forall x :: x in rows ==> ApiKey(after[x]) == ApiKey(rows[x]);
    assert ApiKey(before[id]) in Keys(before);
    assert !NotPending(before, entries, i);
    if AddedBy(before, entries, i + 1, after, d) {
      var j :| 0 <= j < i + 1 && NotPending(before, entries, j) && ApiKey(entries[j]) == ApiKey(after[d.api]);
      assert j != i;
      assert AddedBy(before, entries, i, rows, d);
    }
    if AddedBy(before, entries, i, rows, d) {
      var j :| 0 <= j < i && NotPending(before, entries, j) && ApiKey(entries[j]) == ApiKey(rows[d.api]);
      assert ApiKey(entries[j]) == ApiKey(after[d.api]);
    }
    if d.api in before {
      FirstWithOneMore(entries, i, ApiKey(before[d.api]));
      FirstWithFinds(entries[..i], ApiKey(before[d.api]));
      if d.api == id {
        assert FirstWith(entries[..i], ApiKey(before[id])).None?;
      }
    }
  }

  lemma NothingReported(parse: Parser, before: Rows, entries: seq<Api>, rows: Rows, d: Diff)
    ensures !ChangedBy(parse, before, entries[..0], d) && !AddedBy(before, entries, 0, rows, d)
  {
  }

  function ApiIds(diffs: seq<Diff>): seq<nat> {
    seq(|diffs|, i requires 0 <= i < |diffs| => diffs[i].api)
  }

  /** No interface is reported twice. */
  predicate OncePerApi(diffs: seq<Diff>) {
    forall i, j :: 0 <= i < j < |diffs| ==> diffs[i].api != diffs[j].api
  }

  /** What is reported is stored, under a key already read. */
  predicate ReportsRead(diffs: seq<Diff>, rows: Rows, read: set<string>) {
    forall d :: d in diffs ==> d.api in rows && ApiKey(rows[d.api]) in read
  }

  lemma BeforeTheFirst(parse: Parser, rows: Rows, entries: seq<Api>)
    requires Unique(rows)
    ensures Applied(parse, rows, entries[..0], rows) && EntryKeys(entries[..0]) == {}
    ensures Reported(parse, rows, entries, 0, rows, [])
    ensures ReportsRead([], rows, EntryKeys(entries[..0])) && OncePerApi([]) && ApiIds([]) == []
  {
    NothingApplied(parse, rows);
    assert entries[..0] == [];
    forall d ensures !ChangedBy(parse, rows, entries[..0], d) && !AddedBy(rows, entries, 0, rows, d) {
      NothingReported(parse, rows, entries, rows, d);
    }
  }

  lemma OneMoreApiId(diffs: seq<Diff>, more: seq<Diff>)
    requires more == diffs || (|more| == |diffs| + 1 && more[..|diffs|] == diffs)
    ensures |ApiIds(diffs)| == |diffs|
    ensures ApiIds(more) == ApiIds(diffs) + if more == diffs then [] else [more[|diffs|].api]
    ensures (forall d :: d in diffs ==> d.kind != Removed) && (more == diffs || more[|diffs|].kind != Removed) ==>
      forall d :: d in more ==> d.kind != Removed
  {
    assert more != diffs ==> more == diffs + [more[|diffs|]];
  }

  lemma StillOnce(diffs: seq<Diff>, more: seq<Diff>, before: Rows, after: Rows, entries: seq<Api>, i: nat)
    requires i < |entries| && ReportsRead(diffs, before, EntryKeys(entries[..i]))
    requires forall id :: id in before ==> id in after && ApiKey(after[id]) == ApiKey(before[id])
    requires more == diffs ||
      (|more| == |diffs| + 1 && more[..|diffs|] == diffs
       && more[|diffs|].api in after && ApiKey(after[more[|diffs|].api]) == ApiKey(entries[i]))
    ensures ReportsRead(more, after, EntryKeys(entries[..i + 1]))
    ensures DistinctKeys(entries) && OncePerApi(diffs) ==> OncePerApi(more)
  {
    EntryKeysOneMore(entries, i);
    if more != diffs {
      assert more == diffs + [more[|diffs|]];
      if DistinctKeys(entries) && OncePerApi(diffs) {
        assert ApiKey(entries[i]) !in EntryKeys(entries[..i]);
        forall j | 0 <= j < |diffs| ensures more[j].api != more[|diffs|].api {
          assert more[j] == diffs[j] && diffs[j] in diffs;
        }
      }
    }
  }

  lemma RemovedOnce(diffs: seq<Diff>, removed: seq<Diff>, before: Rows, rows: Rows, entries: seq<Api>)
    requires ReportsRead(diffs, rows, EntryKeys(entries)) && OncePerApi(diffs) && OncePerApi(removed)
    requires forall d :: d in removed ==> RemovedBy(before, entries, d)
    requires forall id :: id in before ==> id in rows && ApiKey(rows[id]) == ApiKey(before[id])
    ensures OncePerApi(diffs + removed)
  {
    var all := diffs + removed;
    forall i, j | 0 <= i < j < |all| ensures all[i].api != all[j].api {
      if i < |diffs| <= j {
        assert all[i] in diffs && all[j] in removed;
      }
    }
  }

  lemma KeyListed(rows: Rows, id: nat)
    requires id in rows
    ensures ApiKey(rows[id]) in Keys(rows)
  {
  }

  datatype Stored = Stored(id: nat, row: Api)

  /** What the reports say after the first `n` entries. */
  ghost predicate Reported(parse: Parser, before: Rows, entries: seq<Api>, n: nat, rows: Rows, diffs: seq<Diff>)
    requires n <= |entries|
  {
    forall d :: d in diffs <==> ChangedBy(parse, before, entries[..n], d) || AddedBy(before, entries, n, rows, d)
  }

  /** The rows the document has said nothing about so far, by key. */
  ghost predicate Waiting(existing: map<string, Stored>, before: Rows, seen: set<string>) {
    && existing.Keys == Keys(before) - seen
    && forall k :: k in existing ==>
      existing[k].id in before && before[existing[k].id] == existing[k].row && ApiKey(existing[k].row) == k
  }

  /** The stored interfaces of one project. */
  class Project {
    var rows: Rows
    var nextId: nat

    ghost predicate Valid()
      reads this
    {
      Unique(rows) && forall id :: id in rows ==> id < nextId
    }

    constructor (rows: Rows, nextId: nat)
      requires Unique(rows) && forall id :: id in rows ==> id < nextId
      ensures Valid() && this.rows == rows
    {
      this.rows, this.nextId := rows, nextId;
    }

    /** Inserts unless a row with method and address is there; tells which row it is. */
    method InsertApi(e: Api) returns (created: bool, id: nat)
      requires Valid()
      modifies this
      ensures Valid() && created == (ApiKey(e) !in Keys(old(rows)))
      ensures id in rows && ApiKey(rows[id]) == ApiKey(e)
      ensures created ==> id !in old(rows) && rows == old(rows)[id := e]
      ensures !created ==> rows == old(rows)
    {
      if id :| id in rows && rows[id].verb == e.verb && rows[id].uri == e.uri {
        KeyIdentifies(rows[id], e);
        assert ApiKey(rows[id]) in Keys(rows);
        return false, id;
      }
      forall x | x in rows ensures ApiKey(rows[x]) != ApiKey(e) {
        KeyIdentifies(rows[x], e);
      }
      id := nextId;
      rows, nextId := rows[id := e], nextId + 1;
      return true, id;
    }

    method Existing() returns (existing: map<string, Stored>)
      requires Valid()
      ensures Waiting(existing, rows, {})
    {
      existing := map[];
      var todo := rows.Keys;
      while todo != {}
        invariant todo <= rows.Keys
        invariant forall k :: k in existing ==>
          existing[k].id in rows && rows[existing[k].id] == existing[k].row && ApiKey(existing[k].row) == k
        invariant forall id :: id in rows && id !in todo ==> ApiKey(rows[id]) in existing
        decreases todo
      {
        var id :| id in todo;
        existing := existing[ApiKey(rows[id]) := Stored(id, rows[id])];
        todo := todo - {id};
      }
      forall k | k in Keys(rows) ensures k in existing {
        var id :| id in rows && ApiKey(rows[id]) == k;
      }
    }

    /** One entry of the document. */
    method ApplyOne(parse: Parser, ghost before: Rows, ghost entries: seq<Api>, ghost i: nat, e: Api,
                    existing: map<string, Stored>, diffs: seq<Diff>)
        returns (existing': map<string, Stored>, diffs': seq<Diff>)
      requires Valid() && i < |entries| && e == entries[i] && Unique(before)
      requires Applied(parse, before, entries[..i], rows)
      requires Waiting(existing, before, EntryKeys(entries[..i]))
      requires Reported(parse, before, entries, i, rows, diffs)
      modifies this
      ensures Valid() && Applied(parse, before, entries[..i + 1], rows)
      ensures Waiting(existing', before, EntryKeys(entries[..i + 1]))
      ensures Reported(parse, before, entries, i + 1, rows, diffs')
      ensures diffs' == diffs ||
        (|diffs'| == |diffs| + 1 && diffs'[..|diffs|] == diffs && diffs'[|diffs|].kind != Removed
         && diffs'[|diffs|].api in rows && ApiKey(rows[diffs'[|diffs|].api]) == ApiKey(e))
      ensures forall id :: id in old(rows) ==> id in rows && ApiKey(rows[id]) == ApiKey(old(rows)[id])
    {
      hide Same, IsBreaking, Applied, Keys, FirstWith, EntryKeys, ApiKey, ChangedBy, AddedBy, Unique;
      ghost var rows0 := rows;
      existing', diffs' := existing, diffs;
      EntryKeysOneMore(entries, i);
      if ApiKey(e) !in existing {
        var created, id := InsertApi(e);
        existing' := existing;
        diffs' := diffs + [Diff(id, Added)];
        KeysGrow(parse, before, entries[..i], rows0);
        if created {
          CreatedKeepsApplied(parse, before, entries, i, rows0, id);
        } else {
          SkippedKeepsApplied(parse, before, entries, i, rows0);
        }
        forall d
          ensures d in diffs' <==> ChangedBy(parse, before, entries[..i + 1], d) || AddedBy(before, entries, i + 1, rows, d)
        {
          SkippedReports(parse, before, entries, i, rows0, rows, id, d);
          assert d in diffs' <==> d in diffs || d == Diff(id, Added);
        }
      } else {
        var exist := existing[ApiKey(e)];
        existing' := existing - {ApiKey(e)};
        RevisedKeepsApplied(parse, before, entries, i, rows0, exist.id);
        if !Same(parse, exist.row, e) {
          var kind := if IsBreaking(parse, exist.row, e) then Breaking else Changed;
          rows := rows[exist.id := exist.row.(params := e.params, headers := e.headers, body := e.body)];
          diffs' := diffs + [Diff(exist.id, kind)];
        }
        assert rows == rows0[exist.id := Revised(parse, exist.row, e)];
        RevisedKeepsKey(parse, exist.row, e);
        forall d
          ensures d in diffs' <==> ChangedBy(parse, before, entries[..i + 1], d) || AddedBy(before, entries, i + 1, rows, d)
        {
          RevisedReports(parse, before, entries, i, rows0, rows, exist.id, d);
        }
      }
    }

    method ReportRemoved(existing: map<string, Stored>, ghost entries: seq<Api>, ghost before: Rows)
        returns (removed: seq<Diff>)
      requires Waiting(existing, before, EntryKeys(entries)) && Unique(before)
      ensures forall d :: d in removed <==> RemovedBy(before, entries, d)
      ensures OncePerApi(removed)
    {
      hide ApiKey, Keys, EntryKeys;
      removed := [];
      var todo := existing.Keys;
      while todo != {}
        invariant todo <= existing.Keys
        invariant forall j :: 0 <= j < |removed| ==> RemovedBy(before, entries, removed[j])
        invariant forall j :: 0 <= j < |removed| ==> ApiKey(before[removed[j].api]) !in todo
        invariant forall k :: k in existing && k !in todo ==> Diff(existing[k].id, Removed) in removed
        invariant OncePerApi(removed)
        decreases todo
      {
        var k :| k in todo;
        assert ApiKey(before[existing[k].id]) == k;
        removed, todo := removed + [Diff(existing[k].id, Removed)], todo - {k};
      }
      forall d | RemovedBy(before, entries, d) ensures d in removed {
        KeyListed(before, d.api);
        assert ApiKey(before[d.api]) in existing;
      }
    }

    /** The loop over the document. */
    method ApplyEntries(parse: Parser, ghost before: Rows, entries: seq<Api>, waiting: map<string, Stored>)
        returns (existing: map<string, Stored>, diffs: seq<Diff>, updated: seq<nat>)
      requires Valid() && before == rows && Waiting(waiting, before, {})
      modifies this
      ensures Valid() && Applied(parse, before, entries, rows)
      ensures Waiting(existing, before, EntryKeys(entries))
      ensures Reported(parse, before, entries, |entries|, rows, diffs)
      ensures updated == ApiIds(diffs) && forall d :: d in diffs ==> d.kind != Removed
      ensures ReportsRead(diffs, rows, EntryKeys(entries)) && (DistinctKeys(entries) ==> OncePerApi(diffs))
      ensures forall id :: id in before ==> id in rows && ApiKey(rows[id]) == ApiKey(before[id])
    {
      hide Same, IsBreaking, Applied, Keys, FirstWith, EntryKeys, ApiKey, ChangedBy, AddedBy, Unique, DistinctKeys;
      hide Reported, Waiting, OncePerApi, ReportsRead, ApiIds;
      existing, diffs, updated := waiting, [], [];
      BeforeTheFirst(parse, rows, entries);
      for i := 0 to |entries|
        invariant Valid() && Applied(parse, before, entries[..i], rows)
        invariant Waiting(existing, before, EntryKeys(entries[..i]))
        invariant Reported(parse, before, entries, i, rows, diffs)
        invariant updated == ApiIds(diffs) && forall d :: d in diffs ==> d.kind != Removed
        invariant ReportsRead(diffs, rows, EntryKeys(entries[..i])) && (DistinctKeys(entries) ==> OncePerApi(diffs))
        invariant forall id :: id in before ==> id in rows && ApiKey(rows[id]) == ApiKey(before[id])
      {
        ghost var reported, was := diffs, rows;
        existing, diffs := ApplyOne(parse, before, entries, i, entries[i], existing, diffs);
        StillOnce(reported, diffs, was, rows, entries, i);
        OneMoreApiId(reported, diffs);
        if |diffs| > |updated| {
          updated := updated + [diffs[|diffs| - 1].api];
        }
      }
      assert entries[..|entries|] == entries;
    }

    method ApplyDiff(parse: Parser, entries: seq<Api>) returns (diffs: seq<Diff>, updated: seq<nat>)
      requires Valid()
      modifies this
      ensures Valid() && Applied(parse, old(rows), entries, rows)
      ensures forall d :: d in diffs <==>
        (ChangedBy(parse, old(rows), entries, d) || AddedBy(old(rows), entries, |entries|, rows, d)
         || RemovedBy(old(rows), entries, d))
      ensures |updated| <= |diffs| && updated == ApiIds(diffs[..|updated|])
      ensures forall j :: 0 <= j < |diffs| ==> (diffs[j].kind == Removed <==> j >= |updated|)
      ensures DistinctKeys(entries) ==> OncePerApi(diffs)
    {
      hide Same, IsBreaking, Applied, Keys, FirstWith, EntryKeys, ApiKey, ChangedBy, AddedBy, Unique, DistinctKeys;
      ghost var before := rows;
      var existing := Existing();
      existing, diffs, updated := ApplyEntries(parse, before, entries, existing);
      assert entries[..|entries|] == entries;
      var removed := ReportRemoved(existing, entries, before);
      if DistinctKeys(entries) {
        RemovedOnce(diffs, removed, before, rows, entries);
      }
      assert forall j :: 0 <= j < |removed| ==> removed[j] in removed;
      diffs := diffs + removed;
    }
  }

  // ---- What a run of the diff guarantees ----

  lemma RevisedIsSame(parse: Parser, row: Api, e: Api)
    ensures Same(parse, Revised(parse, row, e), e)
  {
  }

  lemma Find(rows: Rows, key: string) returns (id: nat)
    requires key in Keys(rows)
    ensures id in rows && ApiKey(rows[id]) == key
  {
    id :| id in rows && ApiKey(rows[id]) == key;
  }

  /** Every entry of the document is stored afterwards, in the words of its first occurrence. */
  lemma EntriesStored(parse: Parser, before: Rows, entries: seq<Api>, after: Rows, i: nat) returns (id: nat)
    requires Applied(parse, before, entries, after) && i < |entries|
    ensures id in after && ApiKey(after[id]) == ApiKey(entries[i])
    ensures FirstWith(entries, ApiKey(entries[i])).Some?
    ensures Same(parse, after[id], FirstWith(entries, ApiKey(entries[i])).value)
    ensures DistinctKeys(entries) ==> Same(parse, after[id], entries[i])
  {
    var key := ApiKey(entries[i]);
    assert key in EntryKeys(entries);
    id := Find(after, key);
    FirstWithFinds(entries, key);
    var first := FirstWith(entries, key).value;
    if id in before {
      BroughtKeepsKey(parse, before[id], entries);
      RevisedIsSame(parse, before[id], first);
    }
    if DistinctKeys(entries) {
      var j :| 0 <= j < |entries| && entries[j] == first;
      assert i == j;
    }
  }

  predicate RepeatsKey(entries: seq<Api>, key: string) {
    exists i, j :: 0 <= i < j < |entries| && ApiKey(entries[i]) == key == ApiKey(entries[j])
  }

  /**
   * Of a stored interface exactly one thing is true: it is as the document says, it changed, it changed
   * in a breaking way, or the document does not have it.
   */
  lemma ExactlyOneOutcome(parse: Parser, before: Rows, entries: seq<Api>, after: Rows, id: nat)
    requires Applied(parse, before, entries, after) && id in before
    ensures var e := FirstWith(entries, ApiKey(before[id]));
            var changed := ChangedBy(parse, before, entries, Diff(id, Changed));
            var breaking := ChangedBy(parse, before, entries, Diff(id, Breaking));
            var removed := RemovedBy(before, entries, Diff(id, Removed));
            && (e.Some? && Same(parse, before[id], e.value) <==> !changed && !breaking && !removed)
            && !(changed && breaking) && !(changed && removed) && !(breaking && removed)
            && (!changed && !breaking ==> after[id] == before[id])
  {
    hide IsBreaking, ApiKey, Same, EntryKeys, FirstWith;
    FirstWithFinds(entries, ApiKey(before[id]));
  }

  /** A stored interface is called added exactly when the document repeats its key. */
  lemma AddedIffRepeated(parse: Parser, before: Rows, entries: seq<Api>, after: Rows, id: nat)
    requires Applied(parse, before, entries, after) && id in before
    ensures AddedBy(before, entries, |entries|, after, Diff(id, Added)) <==> RepeatsKey(entries, ApiKey(before[id]))
  {
    var key := ApiKey(before[id]);
    BroughtKeepsKey(parse, before[id], entries);
    assert key in Keys(before) && ApiKey(after[id]) == key;
    hide Applied, ApiKey, Brought, Keys;
    if AddedBy(before, entries, |entries|, after, Diff(id, Added)) {
      var j :| 0 <= j < |entries| && NotPending(before, entries, j) && ApiKey(entries[j]) == key;
      var i :| 0 <= i < j && ApiKey(entries[..j][i]) == key;
      assert ApiKey(entries[i]) == key == ApiKey(entries[j]);
    }
    if RepeatsKey(entries, key) {
      var i, j :| 0 <= i < j < |entries| && ApiKey(entries[i]) == key == ApiKey(entries[j]);
      assert entries[..j][i] == entries[i];
      assert NotPending(before, entries, j);
    }
  }

  /**
   * Applying the document again changes no row and reports the same removals; it reports nothing else
   * exactly when the document does not repeat a key.
   */
  lemma AppliedTwice(parse: Parser, before: Rows, entries: seq<Api>, after: Rows, again: Rows)
    requires Applied(parse, before, entries, after) && Applied(parse, after, entries, again)
    ensures again == after
    ensures forall d :: !ChangedBy(parse, after, entries, d)
    ensures forall d :: RemovedBy(after, entries, d) <==> RemovedBy(before, entries, d)
    ensures (forall d :: !AddedBy(after, entries, |entries|, again, d)) <==> DistinctKeys(entries)
  {
    hide Same, IsBreaking, ApiKey, EntryKeys, FirstWith;
    forall id | id in after
      ensures again[id] == after[id] && !ChangedBy(parse, after, entries, Diff(id, Changed))
      ensures !ChangedBy(parse, after, entries, Diff(id, Breaking))
      ensures ApiKey(after[id]) !in EntryKeys(entries) <==> id in before && ApiKey(before[id]) !in EntryKeys(entries)
    {
      SettledRow(parse, before, entries, after, id);
    }
    forall id | id in again ensures id in after {
      FirstWithFinds(entries, ApiKey(again[id]));
      KeysGrow(parse, before, entries, after);
    }
    assert again == after;
    forall d ensures !ChangedBy(parse, after, entries, d) {
      if d.api in after {
        SettledRow(parse, before, entries, after, d.api);
      }
    }
    AddedAgain(before, entries, after);
  }

  /** A row the document has been applied to has nothing left to be changed by it. */
  lemma SettledRow(parse: Parser, before: Rows, entries: seq<Api>, after: Rows, id: nat)
    requires Applied(parse, before, entries, after) && id in after
    ensures var e := FirstWith(entries, ApiKey(after[id]));
            && Brought(parse, after[id], entries) == after[id]
            && (e.Some? ==> Same(parse, after[id], e.value))
    ensures ApiKey(after[id]) !in EntryKeys(entries) <==> id in before && ApiKey(before[id]) !in EntryKeys(entries)
  {
    hide EntryKeys, FirstWith, ApiKey;
    FirstWithFinds(entries, ApiKey(after[id]));
    if id in before {
      BroughtKeepsKey(parse, before[id], entries);
      var e := FirstWith(entries, ApiKey(before[id]));
      if e.Some? {
        RevisedIsSame(parse, before[id], e.value);
      }
    }
  }

  /** The second time every key is stored, so only a repeated key is reported as added. */
  lemma AddedAgain(before: Rows, entries: seq<Api>, after: Rows)
    requires EntryKeys(entries) <= Keys(after)
    ensures (forall d :: !AddedBy(after, entries, |entries|, after, d)) <==> DistinctKeys(entries)
  {
    hide ApiKey;
    if !DistinctKeys(entries) {
      var i, j :| 0 <= i < j < |entries| && ApiKey(entries[i]) == ApiKey(entries[j]);
      assert entries[..j][i] == entries[i];
      assert ApiKey(entries[j]) in EntryKeys(entries);
      var id := Find(after, ApiKey(entries[j]));
      assert NotPending(after, entries, j);
      assert AddedBy(after, entries, |entries|, after, Diff(id, Added));
    }
    forall d | DistinctKeys(entries) ensures !AddedBy(after, entries, |entries|, after, d) {
      forall j | 0 <= j < |entries| ensures !NotPending(after, entries, j) {
        assert ApiKey(entries[j]) in EntryKeys(entries);
      }
    }
  }

  // ---- What an update writes, and what makes it breaking, on the columns ----

  /** Both texts are JSON for the same value, or neither is JSON and they are the same text. */
  predicate SayTheSame(parse: Parser, a: string, b: string) {
    Decoded(parse, a) == Decoded(parse, b) && (Decoded(parse, a).Some? || a == b)
  }

  /**
   * A stored interface the document has says afterwards what the document says, column by column. It is
   * rewritten - all three columns - exactly when one of them said something else, and keeps its key.
   */
  lemma ColumnsBrought(parse: Parser, before: Rows, entries: seq<Api>, after: Rows, id: nat, e: Api)
    requires Applied(parse, before, entries, after) && id in before && FirstWith(entries, ApiKey(before[id])) == Some(e)
    ensures var was := before[id];
            var same := SayTheSame(parse, was.params, e.params) && SayTheSame(parse, was.headers, e.headers)
                        && SayTheSame(parse, was.body, e.body);
            && after[id] == (if same then was else Api(was.verb, was.uri, e.params, e.headers, e.body))
            && SayTheSame(parse, after[id].params, e.params) && SayTheSame(parse, after[id].headers, e.headers)
            && SayTheSame(parse, after[id].body, e.body)
  {
    hide ApiKey, FirstWith;
  }

  /** The column is a list of string pairs, one of which has the key; a pair without one counts as the empty key. */
  ghost predicate Lists(parse: Parser, raw: string, key: string) {
    && raw != "" && parse(raw).Some? && parse(raw).value.Arr?
    && var items := parse(raw).value.items;
       && (forall i :: 0 <= i < |items| ==>
             items[i].Null? || (items[i].Obj? && forall k :: k in items[i].fields ==>
                                  items[i].fields[k].Str? || items[i].fields[k].Null?))
       && exists i :: 0 <= i < |items| && HasKey(items[i], key)
  }

  predicate HasKey(item: Json, key: string) {
    if item.Obj? && "key" in item.fields && item.fields["key"].Str? then item.fields["key"] == Str(key) else key == ""
  }

  lemma KeysListed(parse: Parser, raw: string, key: string)
    ensures key in KvKeys(parse, raw) <==> Lists(parse, raw, key)
  {
    if raw != "" && parse(raw).Some? && parse(raw).value.Arr? {
      var items := parse(raw).value.items;
      assert forall i :: 0 <= i < |items| ==> (HasKey(items[i], key) <==> KeyOfPair(items[i]) == key);
    }
  }

  /** `n` is `x` without its fraction. */
  predicate Truncates(x: real, n: int) {
    if x >= 0.0 then n as real <= x < n as real + 1.0 else n as real - 1.0 < x <= n as real
  }

  /** A body's content type: a number, or a number as text; 0 when there is none to read. */
  lemma BodyTypeRead(parse: Parser, raw: string, fields: map<string, Json>, n: int)
    requires raw != "" && parse(raw) == Some(Obj(fields)) && MIN64 <= n <= MAX64
    ensures BodyContentType(parse, "") == 0
    ensures "contentType" !in fields ==> BodyContentType(parse, raw) == 0
    ensures "contentType" in fields && fields["contentType"] in {Int(n), Float(n as real), Str(FormatInt(n))} ==>
              BodyContentType(parse, raw) == n
    ensures "contentType" in fields && fields["contentType"].Float? ==>
              Truncates(fields["contentType"].x, BodyContentType(parse, raw))
  {
    FormatThenParse(n);
    hide FormatInt;
  }

  /**
   * A change is breaking exactly when a parameter or header key the stored interface lists is no longer
   * listed, or the stored body has a content type and the new one's differs. New keys break nothing.
   */
  lemma BreakingExactly(parse: Parser, was: Api, now: Api)
    ensures IsBreaking(parse, was, now) <==>
            || (exists key :: Lists(parse, was.params, key) && !Lists(parse, now.params, key))
            || (exists key :: Lists(parse, was.headers, key) && !Lists(parse, now.headers, key))
            || (BodyContentType(parse, was.body) != 0 && BodyContentType(parse, now.body) != BodyContentType(parse, was.body))
  {
    hide KvKeys, Lists, BodyContentType;
    forall key
      ensures key in KvKeys(parse, was.params) <==> Lists(parse, was.params, key)
      ensures key in KvKeys(parse, now.params) <==> Lists(parse, now.params, key)
      ensures key in KvKeys(parse, was.headers) <==> Lists(parse, was.headers, key)
      ensures key in KvKeys(parse, now.headers) <==> Lists(parse, now.headers, key)
    {
      KeysListed(parse, was.params, key);
      KeysListed(parse, now.params, key);
      KeysListed(parse, was.headers, key);
      KeysListed(parse, now.headers, key);
    }
  }
}
