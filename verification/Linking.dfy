/**
 * Linking a declarative case before it is sent: references to stored interfaces become inline
 * snapshots, gRPC references and uploaded files are collected into maps sent along with the task.
 */
module Linking {
  import opened Prelude
  import opened Decimal

  /** An HTTP interface snapshot; `binaryRef` is its body's file reference, empty when it has none. */
  datatype Http = Http(uri: string, binaryRef: string)

  datatype Grpc = Grpc(fullService: string)

  /** A stored file; `content` is None when the blob cannot be read. */
  datatype Artifact = Artifact(content: Option<string>)

  /** An api_call message: its reference and, once there is one, its inline snapshot. */
  datatype ApiCall = ApiCall(apiId: string, inlined: Option<Http>)

  /** Steps point at their api_call message, which linking overwrites. */
  datatype Step =
    | Call(node: nat)
    | GrpcCall(apiId: string)
    | If(thens: seq<Step>, elses: seq<Step>)
    | Loop(body: seq<Step>)
    | Retry(step: Option<Step>)
    | Other

  datatype Failed = BadApiId | ApiMissing | BadGrpcId | GrpcMissing | BadRef | FileMissing | FileUnreadable | FileTooBig

  /** What one tenant's tables hold. */
  datatype Tenant = Tenant(apis: map<int, Http>, grpcs: map<int, Grpc>, artifacts: map<int, Artifact>)

  const MAX_INLINE_FILE_BYTES := 8 * 1024 * 1024

  // ---- Identifiers ----

  /** The spelling the scheduler itself prints. */
  predicate Canonical(id: string) {
    ParseInt(id).Some? && FormatInt(ParseInt(id).value) == id
  }

  /** The artifact a file reference names; 0 when the content is in the reference itself. */
  function ArtifactId(ref: string): Option<int> {
    if "artifact:" <= ref then ParseInt(ref[9..])
    else if "base64:" <= ref then Some(0)
    else ParseInt(ref)
  }

  // ---- What steps refer to ----

  function NodesOf(s: Step): set<nat> {
    match s
    case Call(node) => {node}
    case If(thens, elses) => Nodes(thens) + Nodes(elses)
    case Loop(body) => Nodes(body)
    case Retry(Some(step)) => NodesOf(step)
    case _ => {}
  }

  function Nodes(list: seq<Step>): set<nat> {
    if list == [] then {} else Nodes(list[..|list| - 1]) + NodesOf(list[|list| - 1])
  }

  function GrpcIdsOf(s: Step): set<string> {
    match s
    case GrpcCall(apiId) => if apiId == "" then {} else {apiId}
    case If(thens, elses) => GrpcIds(thens) + GrpcIds(elses)
    case Loop(body) => GrpcIds(body)
    case Retry(Some(step)) => GrpcIdsOf(step)
    case _ => {}
  }

  function GrpcIds(list: seq<Step>): set<string> {
    if list == [] then {} else GrpcIds(list[..|list| - 1]) + GrpcIdsOf(list[|list| - 1])
  }

  lemma {:induction false} StepsWithin(list: seq<Step>, i: nat)
    requires i < |list|
    ensures Nodes(list[..i]) <= Nodes(list)
    ensures NodesOf(list[i]) <= Nodes(list) && GrpcIdsOf(list[i]) <= GrpcIds(list)
    ensures Nodes(list[..i + 1]) == Nodes(list[..i]) + NodesOf(list[i])
    ensures GrpcIds(list[..i + 1]) == GrpcIds(list[..i]) + GrpcIdsOf(list[i])
  {
    assert list[..i + 1][..i] == list[..i];
    assert list[..|list| - 1][..i] == list[..i];
    if i < |list| - 1 {
      StepsWithin(list[..|list| - 1], i);
    }
  }

  type Calls = map<nat, ApiCall>

  predicate Wants(c: ApiCall) {
    c.apiId != "" && c.inlined.None?
  }

  function WantedIds(calls: Calls, nodes: set<nat>): set<string>
    requires nodes <= calls.Keys
  {
    set n | n in nodes && Wants(calls[n]) :: calls[n].apiId
  }

  function FileRefs(calls: Calls, nodes: set<nat>): set<string>
    requires nodes <= calls.Keys
  {
    set n | n in nodes && calls[n].inlined.Some? && calls[n].inlined.value.binaryRef != "" ::
      calls[n].inlined.value.binaryRef
  }

  /** File references of the interface snapshots a low-code source brings along. */
  function ExtraRefs(extra: map<string, Http>): set<string> {
    set id | id in extra && extra[id].binaryRef != "" :: extra[id].binaryRef
  }

  /** The call whose reference, if it needs resolving, points at a stored interface. */
  predicate Satisfied(c: ApiCall, apis: map<int, Http>) {
    Wants(c) ==> ParseInt(c.apiId).Some? && ParseInt(c.apiId).value in apis
  }

  /** The call with its reference resolved; an inline snapshot that is there already is kept. */
  function Resolved(c: ApiCall, apis: map<int, Http>): ApiCall {
    if Wants(c) && Satisfied(c, apis) then c.(inlined := Some(apis[ParseInt(c.apiId).value])) else c
  }

  function AllResolved(calls: Calls, nodes: set<nat>, apis: map<int, Http>): Calls {
    map n | n in calls :: if n in nodes then Resolved(calls[n], apis) else calls[n]
  }

  /** What became of the calls when resolving stopped at a missing interface. */
  predicate PartlyResolved(before: Calls, after: Calls, nodes: set<nat>, apis: map<int, Http>) {
    after.Keys == before.Keys &&
    forall n :: n in before ==> after[n] == before[n] || (n in nodes && after[n] == Resolved(before[n], apis))
  }

  /** Resolving a second group of calls after a first is resolving both; nodes may be shared. */
  lemma ResolvedInTurn(calls: Calls, a: set<nat>, b: set<nat>, apis: map<int, Http>)
    requires a <= calls.Keys && b <= calls.Keys
    ensures AllResolved(AllResolved(calls, a, apis), b, apis) == AllResolved(calls, a + b, apis)
    ensures forall n :: n in b ==> (Satisfied(AllResolved(calls, a, apis)[n], apis) <==> Satisfied(calls[n], apis))
  {
    hide ParseInt;
    var once := AllResolved(calls, a, apis);
    forall n | n in calls
      ensures Resolved(Resolved(calls[n], apis), apis) == Resolved(calls[n], apis)
      ensures Satisfied(once[n], apis) <==> Satisfied(calls[n], apis)
    {
    }
  }

  lemma PartlyInTurn(calls: Calls, a: set<nat>, after: Calls, b: set<nat>, all: set<nat>, apis: map<int, Http>)
    requires a <= all && b <= all && PartlyResolved(AllResolved(calls, a, apis), after, b, apis)
    ensures PartlyResolved(calls, after, all, apis)
  {
    hide ParseInt;
    forall n | n in calls ensures Resolved(Resolved(calls[n], apis), apis) == Resolved(calls[n], apis) {
    }
  }

  lemma NothingResolved(calls: Calls, apis: map<int, Http>)
    ensures AllResolved(calls, {}, apis) == calls
  {
  }

  lemma ResolvedIsPartly(calls: Calls, nodes: set<nat>, apis: map<int, Http>)
    ensures PartlyResolved(calls, AllResolved(calls, nodes, apis), nodes, apis)
  {
  }

  lemma WantedIsListed(calls: Calls, nodes: set<nat>, n: nat)
    requires nodes <= calls.Keys && n in nodes
    ensures Wants(calls[n]) ==> calls[n].apiId in WantedIds(calls, nodes)
  {
  }

  lemma NothingWanted(calls: Calls, nodes: set<nat>, apis: map<int, Http>)
    requires nodes <= calls.Keys && WantedIds(calls, nodes) == {}
    ensures AllResolved(calls, nodes, apis) == calls
    ensures forall n :: n in nodes ==> Satisfied(calls[n], apis)
  {
    forall n | n in nodes ensures !Wants(calls[n]) {
      WantedIsListed(calls, nodes, n);
    }
  }

  /** Only the rows that are referred to matter. */
  lemma OnlyWantedRows(calls: Calls, nodes: set<nat>, apis: map<int, Http>, byId: map<int, Http>, keys: set<int>)
    requires nodes <= calls.Keys && byId == map k | k in keys && k in apis :: apis[k]
    requires forall id :: id in WantedIds(calls, nodes) ==> ParseInt(id).Some? && ParseInt(id).value in keys
    ensures AllResolved(calls, nodes, apis) == AllResolved(calls, nodes, byId)
    ensures forall n :: n in nodes ==> (Satisfied(calls[n], apis) <==> Satisfied(calls[n], byId))
    ensures forall n :: n in nodes ==> Resolved(calls[n], apis) == Resolved(calls[n], byId)
  {
    hide ParseInt;
    forall n | n in nodes
      ensures Satisfied(calls[n], apis) <==> Satisfied(calls[n], byId)
      ensures Resolved(calls[n], apis) == Resolved(calls[n], byId)
    {
      WantedIsListed(calls, nodes, n);
    }
  }

  // ---- When linking succeeds, and with what ----

  /** Resolvable references are in particular readable ones. */
  lemma SatisfiedIdsParse(calls: Calls, nodes: set<nat>, apis: map<int, Http>)
    requires nodes <= calls.Keys && AllSatisfied(calls, nodes, apis)
    ensures ApiIdsParse(calls, nodes)
  {
    hide ParseInt;
    forall id | id in WantedIds(calls, nodes) ensures ParseInt(id).Some? {
      var n :| n in nodes && Wants(calls[n]) && calls[n].apiId == id;
      assert Satisfied(calls[n], apis);
    }
  }

  predicate ApiIdsParse(calls: Calls, nodes: set<nat>)
    requires nodes <= calls.Keys
  {
    forall id :: id in WantedIds(calls, nodes) ==> ParseInt(id).Some?
  }

  predicate AllSatisfied(calls: Calls, nodes: set<nat>, apis: map<int, Http>)
    requires nodes <= calls.Keys
  {
    forall n :: n in nodes ==> Satisfied(calls[n], apis)
  }

  predicate GrpcIdsParse(ids: set<string>) {
    forall id :: id in ids ==> ParseInt(id).Some?
  }

  predicate GrpcsStored(ids: set<string>, grpcs: map<int, Grpc>) {
    forall id :: id in ids ==> ParseInt(id).Some? && ParseInt(id).value in grpcs
  }

  /** The row of identifier `id`, under the spelling `k` that the scheduler prints. */
  predicate Carries(id: string, k: string, grpcs: map<int, Grpc>, g: Grpc) {
    && ParseInt(id).Some? && FormatInt(ParseInt(id).value) == k
    && ParseInt(id).value in grpcs && grpcs[ParseInt(id).value] == g
  }

  predicate GrpcsLinked(ids: set<string>, grpcs: map<int, Grpc>, m: map<string, Grpc>) {
    && (forall id :: id in ids ==> ParseInt(id).Some? && FormatInt(ParseInt(id).value) in m)
    && (forall k :: k in m ==> exists id :: id in ids && Carries(id, k, grpcs, m[k]))
  }

  /** Why a file reference cannot be sent along, if it cannot. */
  function FileFault(ref: string, artifacts: map<int, Artifact>): Option<Failed> {
    var id := ArtifactId(ref);
    if id.None? then Some(BadRef)
    else if id.value == 0 then None
    else if id.value !in artifacts then Some(FileMissing)
    else if artifacts[id.value].content.None? then Some(FileUnreadable)
    else if |artifacts[id.value].content.value| > MAX_INLINE_FILE_BYTES then Some(FileTooBig)
    else None
  }

  predicate Stored(ref: string) {
    ArtifactId(ref).Some? && ArtifactId(ref).value != 0
  }

  function FilesLinked(refs: set<string>, artifacts: map<int, Artifact>): map<string, string> {
    map ref | ref in refs && FileFault(ref, artifacts).None? && Stored(ref) :: artifacts[ArtifactId(ref).value].content.value
  }

  method ParseKeys(ids: set<string>) returns (keys: Option<seq<int>>)
    ensures keys.Some? <==> forall id :: id in ids ==> ParseInt(id).Some?
    ensures keys.Some? ==> forall id :: id in ids ==> ParseInt(id).value in keys.value
    ensures keys.Some? ==> forall k :: k in keys.value ==> exists id :: id in ids && ParseInt(id) == Some(k)
  {
    hide ParseInt;
    var list: seq<int>, todo := [], ids;
    while todo != {}
      invariant todo <= ids
      invariant forall id :: id in ids - todo ==> ParseInt(id).Some? && ParseInt(id).value in list
      invariant forall k :: k in list ==> exists id :: id in ids && ParseInt(id) == Some(k)
      decreases todo
    {
      var raw :| raw in todo;
      var key := ParseInt(raw);
      if key.None? {
        return None;
      }
      list, todo := list + [key.value], todo - {raw};
    }
    return Some(list);
  }

  predicate Row(key: int, k: string, grpcs: map<int, Grpc>, g: Grpc) {
    key in grpcs && grpcs[key] == g && FormatInt(key) == k
  }

  method LookUp(keys: seq<int>, grpcs: map<int, Grpc>) returns (m: Option<map<string, Grpc>>)
    ensures m.Some? <==> forall key :: key in keys ==> key in grpcs
    ensures m.Some? ==> forall key :: key in keys ==> FormatInt(key) in m.value
    ensures m.Some? ==> forall k :: k in m.value ==> exists key :: key in keys && Row(key, k, grpcs, m.value[k])
  {
    hide FormatInt;
    var out: map<string, Grpc> := map[];
    for i := 0 to |keys|
      invariant forall j :: 0 <= j < i ==> keys[j] in grpcs && FormatInt(keys[j]) in out
      invariant forall k :: k in out ==> exists key :: key in keys && Row(key, k, grpcs, out[k])
    {
      var key := keys[i];
      assert key in keys;
      if key !in grpcs {
        return None;
      }
      assert Row(key, FormatInt(key), grpcs, grpcs[key]);
      out := out[FormatInt(key) := grpcs[key]];
    }
    return Some(out);
  }

  lemma NoGrpcs(grpcs: map<int, Grpc>)
    ensures GrpcsLinked({}, grpcs, map[])
  {
  }

  lemma RowsCarried(ids: set<string>, keys: seq<int>, grpcs: map<int, Grpc>, m: map<string, Grpc>)
    requires forall id :: id in ids ==> ParseInt(id).Some? && ParseInt(id).value in keys
    requires forall k :: k in keys ==> exists id :: id in ids && ParseInt(id) == Some(k)
    requires forall key :: key in keys ==> FormatInt(key) in m
    requires forall k :: k in m ==> exists key :: key in keys && Row(key, k, grpcs, m[k])
    ensures GrpcsLinked(ids, grpcs, m)
  {
    hide ParseInt, FormatInt;
    forall k | k in m ensures exists id :: id in ids && Carries(id, k, grpcs, m[k]) {
      var key :| key in keys && Row(key, k, grpcs, m[k]);
      var id :| id in ids && ParseInt(id) == Some(key);
      assert Carries(id, k, grpcs, m[k]);
    }
  }

  /** The maps sent along with the case. */
  datatype Linked = Linked(grpcs: map<string, Grpc>, files: map<string, string>)

  /** Every reference can be resolved; files are asked of the calls as they are after resolving. */
  predicate Linkable(calls: Calls, steps: seq<Step>, t: Tenant, extra: map<string, Http>)
    requires Nodes(steps) <= calls.Keys
  {
    && AllSatisfied(calls, Nodes(steps), t.apis)
    && GrpcsStored(GrpcIds(steps), t.grpcs)
    && (forall ref :: ref in FileRefs(AllResolved(calls, Nodes(steps), t.apis), Nodes(steps)) + ExtraRefs(extra) ==>
        FileFault(ref, t.artifacts).None?)
  }

  lemma OneMoreExtra(m: map<string, Http>, more: map<string, Http>, id: string, h: Http)
    requires id !in m && more == m[id := h]
    ensures ExtraRefs(more) == ExtraRefs(m) + if h.binaryRef == "" then {} else {h.binaryRef}
  {
    assert more[id] == h && forall k :: k in m ==> more[k] == m[k];
  }

  method CollectExtraRefs(extra: map<string, Http>, found: set<string>) returns (refs: set<string>)
    ensures refs == found + ExtraRefs(extra)
  {
    refs := found;
    var ids := extra.Keys;
    while ids != {}
      invariant ids <= extra.Keys
      invariant refs == found + ExtraRefs(extra - ids)
      decreases ids
    {
      var id :| id in ids;
      OneMoreExtra(extra - ids, extra - (ids - {id}), id, extra[id]);
      if extra[id].binaryRef != "" {
        refs := refs + {extra[id].binaryRef};
      }
      ids := ids - {id};
    }
    assert extra - {} == extra;
  }

  method ReadFiles(refs: set<string>, artifacts: map<int, Artifact>) returns (r: Result<map<string, string>, Failed>)
    ensures r.Success? <==> forall ref :: ref in refs ==> FileFault(ref, artifacts).None?
    ensures r.Success? ==> r.value == FilesLinked(refs, artifacts)
    ensures r.Failure? ==> exists ref :: ref in refs && FileFault(ref, artifacts) == Some(r.error)
  {
    var out: map<string, string>, todo := map[], refs;
    while todo != {}
      invariant todo <= refs
      invariant forall ref :: ref in refs - todo ==> FileFault(ref, artifacts).None?
      invariant out == FilesLinked(refs - todo, artifacts)
      decreases todo
    {
      var ref :| ref in todo;
      var id := ArtifactId(ref);
      if id.None? {
        assert FileFault(ref, artifacts) == Some(BadRef);
        return Failure(BadRef);
      }
      if id.value != 0 {
        if id.value !in artifacts {
          assert FileFault(ref, artifacts) == Some(FileMissing);
          return Failure(FileMissing);
        }
        var raw := artifacts[id.value].content;
        if raw.None? {
          assert FileFault(ref, artifacts) == Some(FileUnreadable);
          return Failure(FileUnreadable);
        }
        if |raw.value| > MAX_INLINE_FILE_BYTES {
          assert FileFault(ref, artifacts) == Some(FileTooBig);
          return Failure(FileTooBig);
        }
        out := out[ref := raw.value];
      }
      todo := todo - {ref};
    }
    return Success(out);
  }

  // ---- References by their texts ----

  /** The snapshot's body is the stored file `n`: `artifact:` and the number, or the number alone. */
  predicate RefersTo(h: Http, n: int) {
    n != 0 && MIN64 <= n <= MAX64 && (h.binaryRef == "artifact:" + FormatInt(n) || h.binaryRef == FormatInt(n))
  }

  /** The file is there, readable and within 8 MiB. */
  predicate Sendable(n: int, artifacts: map<int, Artifact>) {
    n in artifacts && artifacts[n].content.Some? && |artifacts[n].content.value| <= 8_388_608
  }

  /** A file referred to is sent under the reference's own text; content given in the reference is not. */
  ghost predicate SnapshotSent(h: Http, artifacts: map<int, Artifact>, files: map<string, string>) {
    && (forall n :: RefersTo(h, n) ==>
          Sendable(n, artifacts) && h.binaryRef in files && files[h.binaryRef] == artifacts[n].content.value)
    && ("base64:" <= h.binaryRef ==> h.binaryRef !in files)
  }

  lemma NumbersStartPlain(n: int)
    ensures !("artifact:" <= FormatInt(n)) && !("base64:" <= FormatInt(n))
  {
    PrintOnlyDigits(if n < 0 then -n else n);
    assert FormatInt(n)[0] == '-' || FormatInt(n)[0] in FormatInt(n);
    assert n >= 0 ==> FormatInt(n)[0] in Print(n);
  }

  /** What becomes of a reference to file `n`, in either spelling. */
  lemma FileOfNumber(h: Http, n: int, artifacts: map<int, Artifact>)
    requires RefersTo(h, n)
    ensures FileFault(h.binaryRef, artifacts) ==
            if n !in artifacts then Some(FileMissing)
            else if artifacts[n].content.None? then Some(FileUnreadable)
            else if !Sendable(n, artifacts) then Some(FileTooBig)
            else None
    ensures Stored(h.binaryRef) && ArtifactId(h.binaryRef) == Some(n)
  {
    FormatThenParse(n);
    NumbersStartPlain(n);
    hide FormatInt, ParseInt;
    if h.binaryRef == "artifact:" + FormatInt(n) {
      assert h.binaryRef[9..] == FormatInt(n);
    }
  }

  /** Content in the reference, and the number zero, need no row; any other text is refused. */
  lemma OtherReferences(text: string, artifacts: map<int, Artifact>)
    ensures FileFault("base64:" + text, artifacts).None? && !Stored("base64:" + text)
    ensures FileFault("artifact:0", artifacts).None? && !Stored("artifact:0")
    ensures ParseInt(text).None? ==> FileFault("artifact:" + text, artifacts) == Some(BadRef)
    ensures ParseInt(text).None? && !("artifact:" <= text) && !("base64:" <= text) ==>
              FileFault(text, artifacts) == Some(BadRef)
  {
    assert ("artifact:" + text)[9..] == text;
    assert "artifact:0"[9..] == FormatInt(0);
    FormatThenParse(0);
    assert "base64:"[0] == 'b' && "artifact:"[0] == 'a';
    hide ParseInt;
  }

  lemma SnapshotIsSent(h: Http, refs: set<string>, artifacts: map<int, Artifact>)
    requires h.binaryRef == "" || h.binaryRef in refs
    requires forall ref :: ref in refs ==> FileFault(ref, artifacts).None?
    ensures SnapshotSent(h, artifacts, FilesLinked(refs, artifacts))
  {
    hide ParseInt, FormatInt;
    forall n | RefersTo(h, n)
      ensures Sendable(n, artifacts) && h.binaryRef in FilesLinked(refs, artifacts)
      ensures FilesLinked(refs, artifacts)[h.binaryRef] == artifacts[n].content.value
    {
      FileOfNumber(h, n, artifacts);
      NotEmptyText(n);
    }
    if "base64:" <= h.binaryRef {
      OtherReferences(h.binaryRef[7..], artifacts);
      assert h.binaryRef == "base64:" + h.binaryRef[7..];
    }
  }

  lemma NotEmptyText(n: int)
    ensures FormatInt(n) != ""
  {
  }

  /** A call that names interface `n` carries that interface's snapshot. */
  ghost predicate NumberResolved(was: ApiCall, now: ApiCall, apis: map<int, Http>) {
    was.inlined.None? ==>
      forall n :: MIN64 <= n <= MAX64 && was.apiId == FormatInt(n) ==> n in apis && now.inlined == Some(apis[n])
  }

  lemma NumberIsResolved(c: ApiCall, apis: map<int, Http>)
    requires Satisfied(c, apis)
    ensures NumberResolved(c, Resolved(c, apis), apis)
  {
    hide FormatInt, ParseInt;
    forall n | MIN64 <= n <= MAX64 && c.apiId == FormatInt(n) && c.inlined.None?
      ensures n in apis && Resolved(c, apis).inlined == Some(apis[n])
    {
      FormatThenParse(n);
      NotEmptyText(n);
    }
  }

  /** A gRPC step that names interface `n` finds it. */
  lemma GrpcByNumber(ids: set<string>, grpcs: map<int, Grpc>, m: map<string, Grpc>, n: int)
    requires GrpcsLinked(ids, grpcs, m) && MIN64 <= n <= MAX64 && FormatInt(n) in ids
    ensures n in grpcs && FormatInt(n) in m && m[FormatInt(n)] == grpcs[n]
  {
    FormatThenParse(n);
    GrpcFoundIffCanonical(ids, grpcs, m, FormatInt(n));
    hide FormatInt, ParseInt, GrpcsLinked;
  }

  // ---- The case being linked ----

  class Case {
    const steps: seq<Step>
    var calls: Calls

    ghost predicate Valid()
      reads this
    {
      Nodes(steps) <= calls.Keys
    }

    constructor (steps: seq<Step>, calls: Calls)
      requires Nodes(steps) <= calls.Keys
      ensures Valid() && this.steps == steps && this.calls == calls
    {
      this.steps, this.calls := steps, calls;
    }

    method CollectApiIds(list: seq<Step>, found: set<string>) returns (ids: set<string>)
      requires Nodes(list) <= calls.Keys
      ensures ids == found + WantedIds(calls, Nodes(list))
      decreases list
    {
      ids := found;
      for i := 0 to |list|
        invariant Nodes(list[..i]) <= calls.Keys
        invariant ids == found + WantedIds(calls, Nodes(list[..i]))
      {
        StepsWithin(list, i);
        ids := CollectApiIdsOf(list[i], ids);
      }
      assert list[..|list|] == list;
    }

    method CollectApiIdsOf(s: Step, found: set<string>) returns (ids: set<string>)
      requires NodesOf(s) <= calls.Keys
      ensures ids == found + WantedIds(calls, NodesOf(s))
      decreases s
    {
      ids := found;
      match s
      case Call(node) =>
        if calls[node].apiId != "" && calls[node].inlined.None? {
          ids := ids + {calls[node].apiId};
        }
      case If(thens, elses) =>
        ids := CollectApiIds(thens, ids);
        ids := CollectApiIds(elses, ids);
      case Loop(body) =>
        ids := CollectApiIds(body, ids);
      case Retry(Some(step)) =>
        ids := CollectApiIdsOf(step, ids);
      case _ =>
    }

    method CollectFileRefs(list: seq<Step>, found: set<string>) returns (refs: set<string>)
      requires Nodes(list) <= calls.Keys
      ensures refs == found + FileRefs(calls, Nodes(list))
      decreases list
    {
      refs := found;
      for i := 0 to |list|
        invariant Nodes(list[..i]) <= calls.Keys
        invariant refs == found + FileRefs(calls, Nodes(list[..i]))
      {
        StepsWithin(list, i);
        refs := CollectFileRefsOf(list[i], refs);
      }
      assert list[..|list|] == list;
    }

    method CollectFileRefsOf(s: Step, found: set<string>) returns (refs: set<string>)
      requires NodesOf(s) <= calls.Keys
      ensures refs == found + FileRefs(calls, NodesOf(s))
      decreases s
    {
      refs := found;
      match s
      case Call(node) =>
        if calls[node].inlined.Some? && calls[node].inlined.value.binaryRef != "" {
          refs := refs + {calls[node].inlined.value.binaryRef};
        }
      case If(thens, elses) =>
        refs := CollectFileRefs(thens, refs);
        refs := CollectFileRefs(elses, refs);
      case Loop(body) =>
        refs := CollectFileRefs(body, refs);
      case Retry(Some(step)) =>
        refs := CollectFileRefsOf(step, refs);
      case _ =>
    }

    method CollectGrpcIds(list: seq<Step>, found: set<string>) returns (ids: set<string>)
      ensures ids == found + GrpcIds(list)
      decreases list
    {
      ids := found;
      for i := 0 to |list|
        invariant ids == found + GrpcIds(list[..i])
      {
        StepsWithin(list, i);
        ids := CollectGrpcIdsOf(list[i], ids);
      }
      assert list[..|list|] == list;
    }

    method CollectGrpcIdsOf(s: Step, found: set<string>) returns (ids: set<string>)
      ensures ids == found + GrpcIdsOf(s)
      decreases s
    {
      ids := found;
      match s
      case GrpcCall(apiId) =>
        if apiId != "" {
          ids := ids + {apiId};
        }
      case If(thens, elses) =>
        ids := CollectGrpcIds(thens, ids);
        ids := CollectGrpcIds(elses, ids);
      case Loop(body) =>
        ids := CollectGrpcIds(body, ids);
      case Retry(Some(step)) =>
        ids := CollectGrpcIdsOf(step, ids);
      case _ =>
    }

    /** Writes snapshots into the calls, in step order; stops at the first interface that is missing. */
    method Fill(list: seq<Step>, apis: map<int, Http>) returns (ok: bool)
      requires Nodes(list) <= calls.Keys
      modifies this`calls
      ensures ok == forall n :: n in Nodes(list) ==> Satisfied(old(calls)[n], apis)
      ensures ok ==> calls == AllResolved(old(calls), Nodes(list), apis)
      ensures PartlyResolved(old(calls), calls, Nodes(list), apis)
      decreases list
    {
      hide Resolved, Satisfied, AllResolved, PartlyResolved;
      NothingResolved(calls, apis);
      for i := 0 to |list|
        invariant old(calls).Keys == calls.Keys
        invariant calls == AllResolved(old(calls), Nodes(list[..i]), apis)
        invariant forall n :: n in Nodes(list[..i]) ==> n in old(calls) && Satisfied(old(calls)[n], apis)
      {
        StepsWithin(list, i);
        ResolvedInTurn(old(calls), Nodes(list[..i]), NodesOf(list[i]), apis);
        ok := FillStep(list[i], apis);
        PartlyInTurn(old(calls), Nodes(list[..i]), calls, NodesOf(list[i]), Nodes(list), apis);
        if !ok {
          return;
        }
      }
      assert list[..|list|] == list;
      ResolvedIsPartly(old(calls), Nodes(list), apis);
      ok := true;
    }

    method FillStep(s: Step, apis: map<int, Http>) returns (ok: bool)
      requires NodesOf(s) <= calls.Keys
      modifies this`calls
      ensures ok == forall n :: n in NodesOf(s) ==> Satisfied(old(calls)[n], apis)
      ensures ok ==> calls == AllResolved(old(calls), NodesOf(s), apis)
      ensures PartlyResolved(old(calls), calls, NodesOf(s), apis)
      decreases s
    {
      ok := true;
      match s
      case Call(node) =>
        var call := calls[node];
        if call.apiId != "" && call.inlined.None? {
          var n := ParseInt(call.apiId);
          if n.None? || n.value !in apis {
            ok := false;
          } else {
            calls := calls[node := call.(inlined := Some(apis[n.value]))];
          }
        }
      case If(thens, elses) =>
        ok := Fill(thens, apis);
        if ok {
          ok := Fill(elses, apis);
        }
      case Loop(body) =>
        ok := Fill(body, apis);
      case Retry(Some(step)) =>
        ok := FillStep(step, apis);
      case _ =>
    }

    method ResolveApiRefs(apis: map<int, Http>) returns (r: Option<Failed>)
      requires Valid()
      modifies this`calls
      ensures r == if !ApiIdsParse(old(calls), Nodes(steps)) then Some(BadApiId)
                   else if !AllSatisfied(old(calls), Nodes(steps), apis) then Some(ApiMissing)
                   else None
      ensures r.None? ==> calls == AllResolved(old(calls), Nodes(steps), apis)
      ensures r.None? <==> old(AllSatisfied(calls, Nodes(steps), apis))
      ensures r == Some(BadApiId) ==> calls == old(calls)
      ensures PartlyResolved(old(calls), calls, Nodes(steps), apis)
    {
      if AllSatisfied(calls, Nodes(steps), apis) {
        SatisfiedIdsParse(calls, Nodes(steps), apis);
      }
      var ids := CollectApiIds(steps, {});
      if ids == {} {
        NothingWanted(calls, Nodes(steps), apis);
        return None;
      }
      var keys := ParseKeys(ids);
      if keys.None? {
        return Some(BadApiId);
      }
      var byId := map k | k in keys.value && k in apis :: apis[k];
      OnlyWantedRows(calls, Nodes(steps), apis, byId, set k | k in keys.value);
      var ok := Fill(steps, byId);
      return if ok then None else Some(ApiMissing);
    }

    method ResolveGrpcRefs(grpcs: map<int, Grpc>) returns (r: Result<map<string, Grpc>, Failed>)
      ensures r.Success? <==> GrpcsStored(GrpcIds(steps), grpcs)
      ensures r.Success? ==> GrpcsLinked(GrpcIds(steps), grpcs, r.value)
      ensures r.Failure? ==> r.error == if GrpcIdsParse(GrpcIds(steps)) then GrpcMissing else BadGrpcId
    {
      hide ParseInt, FormatInt, GrpcIds, Carries, GrpcsLinked;
      var ids := CollectGrpcIds(steps, {});
      assert ids == GrpcIds(steps);
      if ids == {} {
        NoGrpcs(grpcs);
        return Success(map[]);
      }
      var keys := ParseKeys(ids);
      if keys.None? {
        return Failure(BadGrpcId);
      }
      var found := LookUp(keys.value, grpcs);
      if found.None? {
        return Failure(GrpcMissing);
      }
      RowsCarried(ids, keys.value, grpcs, found.value);
      return Success(found.value);
    }

    method ResolveInlineFiles(artifacts: map<int, Artifact>, extra: map<string, Http>)
      returns (r: Result<map<string, string>, Failed>)
      requires Valid()
      ensures r.Success? <==>
        forall ref :: ref in FileRefs(calls, Nodes(steps)) + ExtraRefs(extra) ==> FileFault(ref, artifacts).None?
      ensures r.Success? ==> r.value == FilesLinked(FileRefs(calls, Nodes(steps)) + ExtraRefs(extra), artifacts)
      ensures r.Failure? ==>
        exists ref :: ref in FileRefs(calls, Nodes(steps)) + ExtraRefs(extra) && FileFault(ref, artifacts) == Some(r.error)
    {
      var refs := CollectFileRefs(steps, {});
      refs := CollectExtraRefs(extra, refs);
      assert refs == FileRefs(calls, Nodes(steps)) + ExtraRefs(extra);
      r := ReadFiles(refs, artifacts);
    }

    /**
     * Linking a case: snapshots first, so that the files they bring in are found too. `extra` are the
     * snapshots of a low-code source; a declarative case has none.
     */
    method Materialize(t: Tenant, extra: map<string, Http>) returns (r: Result<Linked, Failed>)
      requires Valid()
      modifies this`calls
      ensures r.Success? <==> Linkable(old(calls), steps, t, extra)
      ensures r.Success? ==> calls == AllResolved(old(calls), Nodes(steps), t.apis)
      ensures r.Success? ==> GrpcsLinked(GrpcIds(steps), t.grpcs, r.value.grpcs)
      ensures r.Success? ==> r.value.files == FilesLinked(FileRefs(calls, Nodes(steps)) + ExtraRefs(extra), t.artifacts)
      ensures PartlyResolved(old(calls), calls, Nodes(steps), t.apis)
      ensures r.Success? ==> forall n :: n in Nodes(steps) ==> n in old(calls) && n in calls && NumberResolved(old(calls)[n], calls[n], t.apis)
      ensures r.Success? ==> forall id :: id in GrpcIds(steps) ==> ForNumber(id, t.grpcs, r.value.grpcs)
      ensures r.Success? ==> forall n :: n in Nodes(steps) && calls[n].inlined.Some? ==>
        SnapshotSent(calls[n].inlined.value, t.artifacts, r.value.files)
      ensures r.Success? ==> forall id :: id in extra ==> SnapshotSent(extra[id], t.artifacts, r.value.files)
    {
      hide ParseInt, FormatInt, FileFault, GrpcsLinked, FilesLinked, Satisfied, Resolved, SnapshotSent, NumberResolved, ForNumber;
      var failed := ResolveApiRefs(t.apis);
      if failed.Some? {
        return Failure(failed.value);
      }
      var grpcs := ResolveGrpcRefs(t.grpcs);
      if grpcs.Failure? {
        return Failure(grpcs.error);
      }
      var files := ResolveInlineFiles(t.artifacts, extra);
      if files.Failure? {
        return Failure(files.error);
      }
      ByTheirTexts(old(calls), steps, t, extra, Linked(grpcs.value, files.value));
      return Success(Linked(grpcs.value, files.value));
    }
  }

  /** A gRPC identifier in the scheduler's own spelling finds the stored interface of its number. */
  ghost predicate ForNumber(id: string, grpcs: map<int, Grpc>, m: map<string, Grpc>) {
    forall n :: MIN64 <= n <= MAX64 && id == FormatInt(n) ==> n in grpcs && id in m && m[id] == grpcs[n]
  }

  lemma ByTheirTexts(calls: Calls, steps: seq<Step>, t: Tenant, extra: map<string, Http>, linked: Linked)
    requires Nodes(steps) <= calls.Keys && Linkable(calls, steps, t, extra)
    requires GrpcsLinked(GrpcIds(steps), t.grpcs, linked.grpcs)
    requires linked.files ==
             FilesLinked(FileRefs(AllResolved(calls, Nodes(steps), t.apis), Nodes(steps)) + ExtraRefs(extra), t.artifacts)
    ensures var after := AllResolved(calls, Nodes(steps), t.apis);
            && (forall n :: n in Nodes(steps) ==> n in after && NumberResolved(calls[n], after[n], t.apis))
            && (forall n :: n in Nodes(steps) && after[n].inlined.Some? ==>
                  SnapshotSent(after[n].inlined.value, t.artifacts, linked.files))
            && (forall id :: id in extra ==> SnapshotSent(extra[id], t.artifacts, linked.files))
            && forall id :: id in GrpcIds(steps) ==> ForNumber(id, t.grpcs, linked.grpcs)
  {
    hide ParseInt, FormatInt, FileFault, FilesLinked, GrpcsLinked, SnapshotSent, NumberResolved, Nodes, GrpcIds;
    var after := AllResolved(calls, Nodes(steps), t.apis);
    var refs := FileRefs(after, Nodes(steps)) + ExtraRefs(extra);
    forall n | n in Nodes(steps) ensures NumberResolved(calls[n], after[n], t.apis) {
      NumberIsResolved(calls[n], t.apis);
    }
    forall n | n in Nodes(steps) && after[n].inlined.Some?
      ensures SnapshotSent(after[n].inlined.value, t.artifacts, linked.files)
    {
      SnapshotIsSent(after[n].inlined.value, refs, t.artifacts);
    }
    forall id | id in extra ensures SnapshotSent(extra[id], t.artifacts, linked.files) {
      SnapshotIsSent(extra[id], refs, t.artifacts);
    }
    forall id | id in GrpcIds(steps) ensures ForNumber(id, t.grpcs, linked.grpcs) {
      forall n | MIN64 <= n <= MAX64 && id == FormatInt(n)
        ensures n in t.grpcs && id in linked.grpcs && linked.grpcs[id] == t.grpcs[n]
      {
        GrpcByNumber(GrpcIds(steps), t.grpcs, linked.grpcs, n);
      }
    }
  }

  // ---- What a linked case guarantees the worker ----

  /** Nothing this step needs has to be looked up in the database any more. */
  predicate StepLinked(s: Step, calls: Calls, linked: Linked) {
    match s
    case Call(node) =>
      && node in calls
      && !Wants(calls[node])
      && (calls[node].inlined.Some? ==>
          var ref := calls[node].inlined.value.binaryRef;
          ref == "" || ArtifactId(ref) == Some(0) || ref in linked.files)
    case GrpcCall(apiId) => apiId == "" || (apiId in linked.grpcs <==> Canonical(apiId))
    case If(thens, elses) => ListLinked(thens, calls, linked) && ListLinked(elses, calls, linked)
    case Loop(body) => ListLinked(body, calls, linked)
    case Retry(Some(step)) => StepLinked(step, calls, linked)
    case _ => true
  }

  predicate ListLinked(list: seq<Step>, calls: Calls, linked: Linked) {
    forall i :: 0 <= i < |list| ==> StepLinked(list[i], calls, linked)
  }

  /** A gRPC step finds its interface exactly when it spells the identifier as the scheduler does. */
  lemma GrpcFoundIffCanonical(ids: set<string>, grpcs: map<int, Grpc>, m: map<string, Grpc>, id: string)
    requires GrpcsLinked(ids, grpcs, m) && id in ids
    ensures id in m <==> Canonical(id)
    ensures id in m ==> Carries(id, id, grpcs, m[id])
  {
    hide ParseInt, FormatInt, GrpcsLinked;
    GrpcListed(ids, grpcs, m, id);
    if id in m {
      var other := GrpcSource(ids, grpcs, m, id);
      FormatThenParse(ParseInt(other).value);
    }
  }

  lemma GrpcListed(ids: set<string>, grpcs: map<int, Grpc>, m: map<string, Grpc>, id: string)
    requires GrpcsLinked(ids, grpcs, m) && id in ids
    ensures ParseInt(id).Some? && FormatInt(ParseInt(id).value) in m
  {
    hide ParseInt, FormatInt;
  }

  lemma GrpcSource(ids: set<string>, grpcs: map<int, Grpc>, m: map<string, Grpc>, k: string) returns (id: string)
    requires GrpcsLinked(ids, grpcs, m) && k in m
    ensures id in ids && Carries(id, k, grpcs, m[k])
  {
    hide ParseInt, FormatInt, Carries;
    id :| id in ids && Carries(id, k, grpcs, m[k]);
  }

  lemma FileRefLinked(calls: Calls, nodes: set<nat>, t: Tenant, refs: set<string>, n: nat)
    requires nodes <= calls.Keys && n in nodes && calls[n].inlined.Some?
    requires FileRefs(calls, nodes) <= refs && forall ref :: ref in refs ==> FileFault(ref, t.artifacts).None?
    ensures var ref := calls[n].inlined.value.binaryRef;
            ref == "" || ArtifactId(ref) == Some(0) || ref in FilesLinked(refs, t.artifacts)
  {
    var ref := calls[n].inlined.value.binaryRef;
    if ref != "" {
      assert ref in FileRefs(calls, nodes);
    }
  }

  /** Facts about all calls and identifiers of a tree reach its steps at every depth. */
  lemma {:induction false} LinkedInside(s: Step, calls: Calls, linked: Linked)
    requires forall n :: n in NodesOf(s) ==> StepLinked(Call(n), calls, linked)
    requires forall id :: id in GrpcIdsOf(s) ==> StepLinked(GrpcCall(id), calls, linked)
    ensures StepLinked(s, calls, linked)
  {
    match s
    case If(thens, elses) =>
      ListLinkedInside(thens, calls, linked);
      ListLinkedInside(elses, calls, linked);
    case Loop(body) => ListLinkedInside(body, calls, linked);
    case Retry(Some(step)) => LinkedInside(step, calls, linked);
    case Call(node) => assert node in NodesOf(s);
    case GrpcCall(id) => assert id != "" ==> id in GrpcIdsOf(s);
    case _ =>
  }

  lemma {:induction false} ListLinkedInside(list: seq<Step>, calls: Calls, linked: Linked)
    requires forall n :: n in Nodes(list) ==> StepLinked(Call(n), calls, linked)
    requires forall id :: id in GrpcIds(list) ==> StepLinked(GrpcCall(id), calls, linked)
    ensures ListLinked(list, calls, linked)
  {
    forall i | 0 <= i < |list| ensures StepLinked(list[i], calls, linked) {
      StepsWithin(list, i);
      LinkedInside(list[i], calls, linked);
    }
  }

  /** Whenever a case links, every step of it is linked, at every depth, and nothing else changed. */
  lemma LinkedAtEveryDepth(calls: Calls, steps: seq<Step>, t: Tenant, extra: map<string, Http>, linked: Linked)
    requires Nodes(steps) <= calls.Keys && Linkable(calls, steps, t, extra)
    requires GrpcsLinked(GrpcIds(steps), t.grpcs, linked.grpcs)
    requires linked.files ==
             FilesLinked(FileRefs(AllResolved(calls, Nodes(steps), t.apis), Nodes(steps)) + ExtraRefs(extra), t.artifacts)
    ensures ListLinked(steps, AllResolved(calls, Nodes(steps), t.apis), linked)
    ensures forall n :: n in calls && (n !in Nodes(steps) || !Wants(calls[n])) ==>
      AllResolved(calls, Nodes(steps), t.apis)[n] == calls[n]
  {
    hide ParseInt, ArtifactId, FileFault, FilesLinked, GrpcsLinked, Canonical, Nodes, GrpcIds;
    var after := AllResolved(calls, Nodes(steps), t.apis);
    forall n | n in Nodes(steps) ensures StepLinked(Call(n), after, linked) {
      assert Satisfied(calls[n], t.apis);
      if after[n].inlined.Some? {
        FileRefLinked(after, Nodes(steps), t, FileRefs(after, Nodes(steps)) + ExtraRefs(extra), n);
      }
    }
    forall id | id in GrpcIds(steps) ensures StepLinked(GrpcCall(id), after, linked) {
      GrpcFoundIffCanonical(GrpcIds(steps), t.grpcs, linked.grpcs, id);
    }
    ListLinkedInside(steps, after, linked);
  }

  /** Any text that reads as the number but is not how it is printed: `007`, or `+7`. */
  lemma OtherSpellingLost(grpcs: map<int, Grpc>, m: map<string, Grpc>, spelling: string)
    requires GrpcsLinked({spelling}, grpcs, m) && !Canonical(spelling)
    ensures spelling !in m && ParseInt(spelling).Some? && FormatInt(ParseInt(spelling).value) in m
  {
    GrpcFoundIffCanonical({spelling}, grpcs, m, spelling);
    GrpcListed({spelling}, grpcs, m, spelling);
  }

  /** `007` is such a text: a case with it links, and the worker looks for it in vain. */
  lemma SevenWithZeros()
    ensures ParseInt("007") == Some(7) && !Canonical("007")
    ensures GrpcsLinked({"007"}, map[7 := Grpc("svc")], map["7" := Grpc("svc")])
  {
    SignedDigits("007");
    assert "007"[..2] == "00" && "00"[..1] == "0" && "0"[..0] == "";
    assert Value("0") == 0 && Value("00") == 0 && Value("007") == 7;
    assert Print(7) == "7";
    assert Carries("007", "7", map[7 := Grpc("svc")], Grpc("svc"));
  }
}
