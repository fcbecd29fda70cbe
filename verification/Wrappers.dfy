/** Names of the Python wrapper classes generated for the interfaces a low-code case uses. */
module Wrappers {
  import opened Decimal
  import opened Prelude
  import opened Text

  const CONSTANTS_AND_OPERATORS := ["False", "None", "True", "and", "in", "is", "lambda", "not", "or"]
  const COMPOUND_STATEMENTS := [
    "as", "async", "class", "def", "elif", "else", "except", "finally", "for", "if", "try", "while", "with"]
  const SIMPLE_STATEMENTS := [
    "assert", "await", "break", "continue", "del", "from", "global", "import", "nonlocal", "pass", "raise",
    "return", "yield"]
  const KEYWORDS := CONSTANTS_AND_OPERATORS + COMPOUND_STATEMENTS + SIMPLE_STATEMENTS

  // ---- Identifiers ----

  predicate IsLetter(c: char) {
    'A' <= c <= 'Z' || 'a' <= c <= 'z'
  }

  predicate IsAlnum(c: char) {
    IsLetter(c) || '0' <= c <= '9'
  }

  predicate IsIdent(s: string) {
    && s != "" && s !in KEYWORDS
    && (s[0] == '_' || IsLetter(s[0]))
    && forall i :: 0 <= i < |s| ==> s[i] == '_' || IsAlnum(s[i])
  }

  predicate HasLetter(s: string) {
    exists c :: c in s && IsLetter(c)
  }

  // ---- The readable alias ----

  function Fields(s: string, current: string): seq<string> {
    if s == [] then if current == "" then [] else [current]
    else if IsAlnum(s[0]) then Fields(s[1..], current + [s[0]])
    else (if current == "" then [] else [current]) + Fields(s[1..], "")
  }

  function DropDigits(f: string): (t: string)
    ensures t != "" ==> IsLetter(t[0]) && t[0] in f
    ensures forall c :: c in t ==> c in f
    ensures HasLetter(f) ==> t != ""
  {
    if f != "" && !IsLetter(f[0]) then
      assert f == [f[0]] + f[1..];
      DropDigits(f[1..])
    else f
  }

  function Word(f: string): string {
    var t := DropDigits(f);
    if t == "" then "" else [UpperChar(t[0])] + ToLower(t[1..])
  }

  function Camel(fields: seq<string>): string {
    if fields == [] then "" else Word(fields[0]) + Camel(fields[1..])
  }

  function ReadableAlias(name: string): string {
    var trimmed := TrimSpace(name);
    if IsIdent(trimmed) then trimmed
    else
      var alias := Camel(Fields(trimmed, ""));
      if alias == "" then ""
      else
        var started := if '0' <= alias[0] <= '9' then "Api" + alias else alias;
        var safe := if started in KEYWORDS then started + "_api" else started;
        if IsIdent(safe) then safe else ""
  }

  // ---- What an alias looks like ----

  predicate Alnum(s: string) {
    forall c :: c in s ==> IsAlnum(c)
  }

  lemma {:induction false} FieldsSplit(s: string, current: string)
    requires Alnum(current)
    ensures forall f :: f in Fields(s, current) ==> Alnum(f)
    ensures HasLetter(s) || HasLetter(current) <==> exists f :: f in Fields(s, current) && HasLetter(f)
  {
    if s == [] {
    } else {
      assert s == [s[0]] + s[1..];
      if IsAlnum(s[0]) {
        FieldsSplit(s[1..], current + [s[0]]);
        var longer := current + [s[0]];
        assert HasLetter(longer) <==> HasLetter(current) || IsLetter(s[0]) by {
          assert IsLetter(s[0]) ==> s[0] in longer;
        }
      } else {
        FieldsSplit(s[1..], "");
      }
    }
  }

  lemma {:induction false} CamelShape(fields: seq<string>)
    requires forall f :: f in fields ==> Alnum(f)
    ensures Alnum(Camel(fields))
    ensures Camel(fields) != "" ==> IsLetter(Camel(fields)[0])
    ensures Camel(fields) != "" <==> exists f :: f in fields && HasLetter(f)
  {
    if fields != [] {
      assert fields == [fields[0]] + fields[1..];
      CamelShape(fields[1..]);
      WordShape(fields[0]);
    }
  }

  lemma WordShape(f: string)
    requires Alnum(f)
    ensures Alnum(Word(f)) && (Word(f) != "" ==> IsLetter(Word(f)[0])) && (Word(f) != "" <==> HasLetter(f))
  {
  }

  predicate EndsLikeAWord(k: string) {
    k != "" && k[|k| - 1] !in "iI" && !('0' <= k[|k| - 1] <= '9')
  }

  lemma OperatorEnds(k: string)
    requires k in CONSTANTS_AND_OPERATORS
    ensures EndsLikeAWord(k)
  {
  }

  lemma CompoundEnds(k: string)
    requires k in COMPOUND_STATEMENTS
    ensures EndsLikeAWord(k)
  {
  }

  lemma SimpleEnds(k: string)
    requires k in SIMPLE_STATEMENTS
    ensures EndsLikeAWord(k)
  {
  }

  /** No keyword can be taken for a name with a suffix. */
  lemma NotKeyword(s: string)
    requires s == "" || s[|s| - 1] in "iI" || '0' <= s[|s| - 1] <= '9'
    ensures s !in KEYWORDS
  {
    hide CONSTANTS_AND_OPERATORS, COMPOUND_STATEMENTS, SIMPLE_STATEMENTS;
    if s in CONSTANTS_AND_OPERATORS {
      OperatorEnds(s);
    } else if s in COMPOUND_STATEMENTS {
      CompoundEnds(s);
    } else if s in SIMPLE_STATEMENTS {
      SimpleEnds(s);
    }
  }

  lemma TrimKeepsLetters(s: string)
    ensures HasLetter(TrimSpace(s)) <==> HasLetter(s)
  {
    TrimLeftKeepsLetters(s);
    TrimRightKeepsLetters(TrimLeft(s));
  }

  lemma {:induction false} TrimLeftKeepsLetters(s: string)
    ensures HasLetter(TrimLeft(s)) <==> HasLetter(s)
  {
    if s != [] && IsSpace(s[0]) {
      assert s == [s[0]] + s[1..];
      TrimLeftKeepsLetters(s[1..]);
    }
  }

  lemma {:induction false} TrimRightKeepsLetters(s: string)
    ensures HasLetter(TrimRight(s)) <==> HasLetter(s)
  {
    if s != [] && IsSpace(s[|s| - 1]) {
      assert s == s[..|s| - 1] + [s[|s| - 1]];
      TrimRightKeepsLetters(s[..|s| - 1]);
    }
  }

  /**
   * Every name with an ASCII letter, and every name that is an identifier as it stands, gets an alias;
   * every alias is an identifier and no keyword.
   */
  lemma AliasExactly(name: string)
    ensures ReadableAlias(name) == "" <==> !HasLetter(name) && !IsIdent(TrimSpace(name))
    ensures ReadableAlias(name) != "" ==> IsIdent(ReadableAlias(name))
  {
    hide KEYWORDS, Fields, Camel, TrimSpace;
    var trimmed := TrimSpace(name);
    TrimKeepsLetters(name);
    if !IsIdent(trimmed) {
      FieldsSplit(trimmed, "");
      var alias := Camel(Fields(trimmed, ""));
      CamelShape(Fields(trimmed, ""));
      if alias in KEYWORDS {
        var safe := alias + "_api";
        NotKeyword(safe);
      }
    }
  }

  // ---- Keeping the names apart ----

  datatype Entry = Entry(id: nat, name: string)

  datatype Spec = Spec(id: nat, grpc: bool, class_: string, alias: string)

  function ClassName(id: nat): string {
    "Api" + Print(id)
  }

  function Suffixed(base: string, n: nat): string {
    base + "_" + Print(n)
  }

  lemma {:induction false} LowerDigits(n: nat)
    ensures ToLower(Print(n)) == Print(n)
  {
    PrintOnlyDigits(n);
    assert forall i :: 0 <= i < |Print(n)| ==> Print(n)[i] in Print(n);
  }

  /** Different suffixes stay different, and different from no suffix, when case is ignored. */
  lemma SuffixesDiffer(base: string, m: nat, n: nat)
    ensures ToLower(Suffixed(base, m)) == ToLower(Suffixed(base, n)) <==> m == n
    ensures ToLower(Suffixed(base, m)) != ToLower(base)
  {
    if ToLower(Suffixed(base, m)) == ToLower(Suffixed(base, n)) {
      LowerSuffix(base, m);
      LowerSuffix(base, n);
      PrintInjective(m, n);
    }
  }

  lemma LowerSuffix(base: string, n: nat)
    ensures ToLower(Suffixed(base, n))[|base| + 1..] == Print(n)
  {
    LowerDigits(n);
    var s := Suffixed(base, n);
    assert s[|base| + 1..] == Print(n);
    assert ToLower(s)[|base| + 1..] == ToLower(Print(n));
  }

  lemma ClassesDiffer(m: nat, n: nat)
    ensures ToLower(ClassName(m)) == ToLower(ClassName(n)) <==> m == n
  {
    if ToLower(ClassName(m)) == ToLower(ClassName(n)) {
      LowerDigits(m);
      LowerDigits(n);
      assert ToLower(ClassName(m))[3..] == ToLower(Print(m));
      assert ToLower(ClassName(n))[3..] == ToLower(Print(n));
      PrintInjective(m, n);
    }
  }

  lemma SuffixedIsIdent(base: string, n: nat)
    requires IsIdent(base)
    ensures IsIdent(Suffixed(base, n))
  {
    hide KEYWORDS;
    PrintOnlyDigits(n);
    var s := Suffixed(base, n);
    assert s[|s| - 1] == Print(n)[|Print(n)| - 1];
    assert Print(n)[|Print(n)| - 1] in Print(n);
    NotKeyword(s);
    forall i | 0 <= i < |s| ensures s[i] == '_' || IsAlnum(s[i]) {
      if i > |base| {
        assert s[i] == Print(n)[i - |base| - 1];
        assert s[i] in Print(n);
      }
    }
  }

  /** `base` itself when it is free, otherwise with the smallest suffix, from 2 on, that is free. */
  ghost predicate FirstFree(base: string, used: set<string>, name: string) {
    ToLower(name) !in used &&
    if ToLower(base) !in used then name == base
    else exists n :: n >= 2 && FirstSuffix(base, used, n) && name == Suffixed(base, n)
  }

  predicate FirstSuffix(base: string, used: set<string>, n: nat) {
    forall m :: 2 <= m < n ==> ToLower(Suffixed(base, m)) in used
  }

  /** What was tried before the `n`-th suffix. */
  ghost predicate Tried(base: string, tried: set<string>, n: int) {
    forall t :: t in tried ==> t == ToLower(base) || exists m: nat :: 2 <= m < n - 1 && t == ToLower(Suffixed(base, m))
  }

  lemma TriedMore(base: string, tried: set<string>, candidate: string, n: nat)
    requires n >= 2 && Tried(base, tried, n) && candidate == if n == 2 then base else Suffixed(base, n - 1)
    ensures Tried(base, tried + {ToLower(candidate)}, n + 1)
    ensures ToLower(Suffixed(base, n)) !in tried + {ToLower(candidate)}
  {
    hide ToLower, Suffixed;
    var taken := tried + {ToLower(candidate)};
    SuffixesDiffer(base, n, n);
    forall t | t in taken ensures t != ToLower(Suffixed(base, n)) {
      if t != ToLower(base) {
        var m: nat :| 2 <= m < n && t == ToLower(Suffixed(base, m));
        SuffixesDiffer(base, m, n);
      }
    }
  }

  lemma NothingTried(base: string)
    ensures Tried(base, {}, 2)
  {
  }

  /** The search ends: each try was taken, and all tries differ. */
  method FreeName(base: string, used: set<string>) returns (candidate: string, tries: nat)
    ensures FirstFree(base, used, candidate)
    ensures candidate == if tries == 1 then base else base + "_" + Print(tries)
    ensures tries <= |used| + 1
  {
    hide ToLower, Tried;
    candidate, tries := base, 1;
    var n := 2;
    NothingTried(base);
    ghost var tried: set<string> := {};
    while ToLower(candidate) in used
      invariant n >= 2 && tries == n - 1 == |tried| + 1 && tried <= used
      invariant candidate == if n == 2 then base else Suffixed(base, n - 1)
      invariant n > 2 ==> ToLower(base) in used && FirstSuffix(base, used, n - 1)
      invariant ToLower(candidate) !in tried
      invariant Tried(base, tried, n)
      decreases |used| - |tried|
    {
      ghost var taken := tried + {ToLower(candidate)};
      SubsetSize(taken, used);
      TriedMore(base, tried, candidate, n);
      tried := taken;
      candidate, tries := Suffixed(base, n), tries + 1;
      n := n + 1;
    }
    SubsetSize(tried, used);
    assert n > 2 ==> n - 1 == tries;
  }

  // ---- All specifications of one case ----

  function BaseAlias(e: Entry): string {
    if ReadableAlias(e.name) == ClassName(e.id) then "" else ReadableAlias(e.name)
  }

  function ClassNames(specs: seq<Spec>): set<string> {
    set i | 0 <= i < |specs| :: ToLower(specs[i].class_)
  }

  function Aliases(specs: seq<Spec>): set<string> {
    set i | 0 <= i < |specs| && specs[i].alias != "" :: ToLower(specs[i].alias)
  }

  /** The wrapper of an entry, given the names given out before it. */
  ghost predicate SpecOf(e: Entry, s: Spec, used: set<string>) {
    && s.id == e.id && s.class_ == ClassName(e.id)
    && if BaseAlias(e) == "" then s.alias == "" else FirstFree(BaseAlias(e), used, s.alias)
  }

  /** The first `n` specifications have their names. */
  ghost predicate BuiltUpTo(entries: seq<Entry>, specs: seq<Spec>, n: nat) {
    && n <= |specs| == |entries|
    && forall i :: 0 <= i < n ==> SpecOf(entries[i], specs[i], ClassNames(specs) + Aliases(specs[..i]))
  }

  ghost predicate Built(entries: seq<Entry>, specs: seq<Spec>) {
    BuiltUpTo(entries, specs, |specs|)
  }

  predicate DistinctIds(entries: seq<Entry>) {
    forall i, j :: 0 <= i < j < |entries| ==> entries[i].id != entries[j].id
  }

  ghost predicate Plain(e: Entry, s: Spec) {
    s.id == e.id && s.class_ == ClassName(e.id) && s.alias == BaseAlias(e)
  }

  /** The aliases as they would be, before any clash is looked for. */
  method PlainSpecs(http: seq<Entry>, grpc: seq<Entry>) returns (specs: seq<Spec>)
    ensures |specs| == |http + grpc|
    ensures forall i :: 0 <= i < |specs| ==> Plain((http + grpc)[i], specs[i]) && specs[i].grpc == (i >= |http|)
  {
    var entries := http + grpc;
    specs := [];
    for i := 0 to |entries|
      invariant |specs| == i
      invariant forall j :: 0 <= j < i ==> Plain(entries[j], specs[j]) && specs[j].grpc == (j >= |http|)
    {
      var class_ := ClassName(entries[i].id);
      var alias := ReadableAlias(entries[i].name);
      if alias == class_ {
        alias := "";
      }
      specs := specs + [Spec(entries[i].id, i >= |http|, class_, alias)];
    }
  }

  /**
   * HTTP interfaces first, then gRPC, in the order given. Class names are all reserved before the
   * first alias is chosen.
   */
  method NameSpecs(http: seq<Entry>, grpc: seq<Entry>) returns (specs: seq<Spec>)
    ensures Built(http + grpc, specs)
    ensures forall i :: 0 <= i < |specs| ==> specs[i].grpc == (i >= |http|)
  {
    hide ClassName, BaseAlias, FirstFree, BuiltUpTo, Aliases, ClassNames;
    specs := PlainSpecs(http, grpc);
    ghost var entries, plain := http + grpc, specs;
    NothingBuilt(entries, specs);
    var used: set<string> := {};
    for i := 0 to |specs|
      invariant used == ClassNames(specs[..i])
    {
      used := used + {ToLower(specs[i].class_)};
      OneMoreClass(specs, i);
    }
    assert specs[..|specs|] == specs;
    for i := 0 to |specs|
      invariant |specs| == |plain|
      invariant forall j :: i <= j < |specs| ==> specs[j] == plain[j]
      invariant forall j :: 0 <= j < |specs| ==> specs[j].grpc == plain[j].grpc
      invariant used == ClassNames(specs) + Aliases(specs[..i])
      invariant BuiltUpTo(entries, specs, i)
    {
      ghost var before, taken := specs, used;
      assert Plain(entries[i], specs[i]);
      if specs[i].alias != "" {
        var candidate, _ := FreeName(specs[i].alias, used);
        specs := specs[i := specs[i].(alias := candidate)];
        used := used + {ToLower(candidate)};
        FreeIsSomething(before[i].alias, taken, candidate);
      }
      OneMoreBuilt(entries, before, specs, i, taken);
    }
  }

  lemma OneMoreClass(specs: seq<Spec>, i: nat)
    requires i < |specs|
    ensures ClassNames(specs[..i + 1]) == ClassNames(specs[..i]) + {ToLower(specs[i].class_)}
  {
    var longer := specs[..i + 1];
    assert forall j :: 0 <= j < i ==> longer[j] == specs[..i][j];
  }

  lemma NothingBuilt(entries: seq<Entry>, specs: seq<Spec>)
    requires |entries| == |specs|
    ensures BuiltUpTo(entries, specs, 0) && Aliases(specs[..0]) == {} && ClassNames(specs[..0]) == {}
  {
  }

  lemma OneMoreBuilt(entries: seq<Entry>, before: seq<Spec>, after: seq<Spec>, i: nat, used: set<string>)
    requires i < |before| == |after| && BuiltUpTo(entries, before, i)
    requires used == ClassNames(before) + Aliases(before[..i]) && Plain(entries[i], before[i])
    requires after == before[i := before[i].(alias := after[i].alias)]
    requires if before[i].alias == "" then after == before
             else after[i].alias != "" && FirstFree(before[i].alias, used, after[i].alias)
    ensures BuiltUpTo(entries, after, i + 1)
    ensures ClassNames(after) + Aliases(after[..i + 1]) ==
            used + if before[i].alias == "" then {} else {ToLower(after[i].alias)}
  {
    hide ClassName, BaseAlias, FirstFree, ClassNames, Aliases;
    Renamed(before, after, i);
    assert after[..i] == before[..i];
    forall j | 0 <= j < i
      ensures SpecOf(entries[j], after[j], ClassNames(after) + Aliases(after[..j]))
    {
      assert after[..j] == before[..j];
      assert SpecOf(entries[j], before[j], ClassNames(before) + Aliases(before[..j]));
    }
    assert SpecOf(entries[i], after[i], ClassNames(after) + Aliases(after[..i]));
  }

  lemma FreeIsSomething(base: string, used: set<string>, name: string)
    requires base != "" && FirstFree(base, used, name)
    ensures name != ""
  {
  }

  lemma Renamed(before: seq<Spec>, after: seq<Spec>, i: nat)
    requires i < |before| == |after| && after == before[i := before[i].(alias := after[i].alias)]
    ensures ClassNames(after) == ClassNames(before)
    ensures forall j :: 0 <= j <= i ==> after[..j] == before[..j]
    ensures Aliases(after[..i + 1]) == Aliases(before[..i]) + if after[i].alias == "" then {} else {ToLower(after[i].alias)}
  {
    assert forall j :: 0 <= j < |before| ==> after[j].class_ == before[j].class_;
    assert after[..i + 1] == before[..i] + [after[i]];
  }

  // ---- From the maps of referenced interfaces ----

  predicate Increasing(ids: seq<int>) {
    forall i, j :: 0 <= i < j < |ids| ==> ids[i] < ids[j]
  }

  /** What is asked of the library's sort. */
  ghost predicate Sorts(sort: seq<int> -> seq<int>) {
    forall s :: multiset(sort(s)) == multiset(s) && forall i, j :: 0 <= i < j < |sort(s)| ==> sort(s)[i] <= sort(s)[j]
  }

  /** The entries of a map, by increasing identifier. */
  ghost predicate Ordered(names: map<nat, string>, entries: seq<Entry>) {
    && (forall i :: 0 <= i < |entries| ==> entries[i].id in names && entries[i].name == names[entries[i].id])
    && (forall i, j :: 0 <= i < j < |entries| ==> entries[i].id < entries[j].id)
    && (forall id :: id in names ==> exists i :: 0 <= i < |entries| && entries[i].id == id)
  }

  method SortedMapKeys(names: map<nat, string>, sort: seq<int> -> seq<int>) returns (ids: seq<int>)
    requires Sorts(sort)
    ensures Increasing(ids) && forall id :: id in ids <==> id in names
    ensures forall i :: 0 <= i < |ids| ==> ids[i] >= 0
  {
    var nums: seq<int> := [];
    var todo := names.Keys;
    while todo != {}
      invariant todo <= names.Keys
      invariant forall id :: id in multiset(nums) <==> id in names && id !in todo
      invariant forall id :: multiset(nums)[id] <= 1
      decreases todo
    {
      var id :| id in todo;
      nums, todo := nums + [id], todo - {id};
    }
    ids := sort(nums);
    OnceEach(ids);
    assert forall id :: id in ids <==> id in multiset(ids);
    forall i | 0 <= i < |ids| ensures ids[i] >= 0 {
      assert ids[i] in names;
    }
  }

  lemma OnceEach(s: seq<int>)
    requires forall x :: multiset(s)[x] <= 1
    requires forall i, j :: 0 <= i < j < |s| ==> s[i] <= s[j]
    ensures Increasing(s)
  {
    forall i, j | 0 <= i < j < |s| ensures s[i] < s[j] {
      var a, b := s[..i + 1], s[i + 1..];
      assert s == a + b;
      assert a[i] in multiset(a) && b[j - i - 1] in multiset(b);
      assert multiset(s)[s[i]] == multiset(a)[s[i]] + multiset(b)[s[i]];
    }
  }

  method EntriesOf(names: map<nat, string>, sort: seq<int> -> seq<int>) returns (entries: seq<Entry>)
    requires Sorts(sort)
    ensures |entries| == |names| && Ordered(names, entries)
  {
    var ids := SortedMapKeys(names, sort);
    hide Sorts;
    entries := [];
    for i := 0 to |ids|
      invariant |entries| == i && forall j :: 0 <= j < i ==> ids[j] in names && entries[j] == Entry(ids[j], names[ids[j]])
    {
      assert ids[i] in ids;
      entries := entries + [Entry(ids[i], names[ids[i]])];
    }
    DistinctSize(ids, names.Keys);
    forall id | id in names ensures exists i :: 0 <= i < |entries| && entries[i].id == id {
      IndexOf(ids, id);
    }
  }

  /** `entries` is the order the specifications come in: HTTP before gRPC, each by increasing identifier. */
  method BuildWrapperSpecs(http: map<nat, string>, grpc: map<nat, string>, sort: seq<int> -> seq<int>)
    returns (specs: seq<Spec>, ghost entries: seq<Entry>)
    requires Sorts(sort)
    ensures |http| <= |entries| && Ordered(http, entries[..|http|]) && Ordered(grpc, entries[|http|..])
    ensures Built(entries, specs)
    ensures forall i :: 0 <= i < |specs| ==> specs[i].grpc == (i >= |http|)
    ensures forall i :: 0 <= i < |specs| ==> specs[i].class_ == "Api" + Print(specs[i].id)
  {
    var hs := EntriesOf(http, sort);
    var gs := EntriesOf(grpc, sort);
    hide Built, Sorts, Ordered;
    specs := NameSpecs(hs, gs);
    entries := hs + gs;
    assert entries[..|http|] == hs && entries[|http|..] == gs;
    ClassesSpelled(entries, specs);
  }

  lemma ClassesSpelled(entries: seq<Entry>, specs: seq<Spec>)
    requires Built(entries, specs)
    ensures forall i :: 0 <= i < |specs| ==> specs[i].class_ == "Api" + Print(specs[i].id)
  {
    hide FirstFree, BaseAlias;
    assert forall i :: 0 <= i < |specs| ==> SpecOf(entries[i], specs[i], ClassNames(specs) + Aliases(specs[..i]));
  }

  lemma IndexOf(ids: seq<int>, id: int)
    requires id in ids
    ensures exists i :: 0 <= i < |ids| && ids[i] == id
  {
  }

  lemma {:induction false} DistinctSize(ids: seq<int>, keys: set<nat>)
    requires Increasing(ids) && forall id :: id in ids <==> id in keys
    ensures |ids| == |keys|
  {
    if ids == [] {
      assert keys == {};
    } else {
      var n := |ids| - 1;
      assert ids == ids[..n] + [ids[n]];
      assert ids[n] in ids;
      DistinctSize(ids[..n], keys - {ids[n]});
    }
  }

  lemma OrderedParts(names: map<nat, string>, entries: seq<Entry>)
    requires Ordered(names, entries)
    ensures DistinctIds(entries) && forall e :: e in entries ==> e.id in names
  {
  }

  /** An identifier that is both is refused beforehand, so the entries have distinct identifiers. */
  lemma OrderedDistinct(http: map<nat, string>, grpc: map<nat, string>, entries: seq<Entry>)
    requires http.Keys !! grpc.Keys && |http| <= |entries|
    requires Ordered(http, entries[..|http|]) && Ordered(grpc, entries[|http|..])
    ensures DistinctIds(entries)
  {
    hide Ordered;
    var n := |http|;
    var hs, gs := entries[..n], entries[n..];
    OrderedParts(http, hs);
    OrderedParts(grpc, gs);
    assert entries == hs + gs;
    forall i, j | 0 <= i < j < |entries| ensures entries[i].id != entries[j].id {
      if i < n <= j {
        assert hs[i] in hs && gs[j - n] in gs;
      }
    }
  }

  /** A name the generated file defines: of entry `i`, its class or its alias. */
  datatype Slot = Slot(i: nat, isAlias: bool)

  predicate Named(specs: seq<Spec>, s: Slot) {
    s.i < |specs| && (s.isAlias ==> specs[s.i].alias != "")
  }

  function NameOf(specs: seq<Spec>, s: Slot): string
    requires Named(specs, s)
  {
    if s.isAlias then specs[s.i].alias else specs[s.i].class_
  }

  /**
   * All class names and aliases differ, even when case is ignored. The names the generated file imports
   * are not among them.
   */
  lemma NamesDiffer(entries: seq<Entry>, specs: seq<Spec>, a: Slot, b: Slot)
    requires Built(entries, specs) && DistinctIds(entries) && Named(specs, a) && Named(specs, b)
    ensures ToLower(NameOf(specs, a)) == ToLower(NameOf(specs, b)) <==> a == b
  {
    if a.isAlias && (!b.isAlias || b.i < a.i) {
      AliasIsNew(entries, specs, a, b);
    } else if b.isAlias && (!a.isAlias || a.i < b.i) {
      AliasIsNew(entries, specs, b, a);
    } else if !a.isAlias {
      assert SpecOf(entries[a.i], specs[a.i], ClassNames(specs) + Aliases(specs[..a.i]));
      assert SpecOf(entries[b.i], specs[b.i], ClassNames(specs) + Aliases(specs[..b.i]));
      ClassesDiffer(entries[a.i].id, entries[b.i].id);
    }
  }

  lemma AliasIsNew(entries: seq<Entry>, specs: seq<Spec>, a: Slot, b: Slot)
    requires Built(entries, specs) && Named(specs, a) && Named(specs, b) && a.isAlias && (!b.isAlias || b.i < a.i)
    ensures ToLower(NameOf(specs, a)) != ToLower(NameOf(specs, b))
  {
    var used := ClassNames(specs) + Aliases(specs[..a.i]);
    assert SpecOf(entries[a.i], specs[a.i], used);
    if b.isAlias {
      assert specs[..a.i][b.i] == specs[b.i];
    }
    assert ToLower(NameOf(specs, b)) in used;
  }

  /** Every alias in the file is an ASCII identifier and no keyword. */
  lemma AliasesAreIdentifiers(entries: seq<Entry>, specs: seq<Spec>, i: nat)
    requires Built(entries, specs) && i < |specs| && specs[i].alias != ""
    ensures IsIdent(specs[i].alias)
  {
    hide KEYWORDS;
    assert SpecOf(entries[i], specs[i], ClassNames(specs) + Aliases(specs[..i]));
    AliasExactly(entries[i].name);
    var base := BaseAlias(entries[i]);
    if specs[i].alias != base {
      var n :| n >= 2 && specs[i].alias == Suffixed(base, n);
      SuffixedIsIdent(base, n);
    }
  }

  // ---- The imported base classes ----

  const HTTP_BASE := "HttpAPI"
  const GRPC_BASE := "GrpcAPI"

  predicate IsBase(name: string) {
    name == HTTP_BASE || name == GRPC_BASE
  }

  /** No class name and no suffixed name is a base class, even when case is ignored. */
  lemma BasesStandApart(base: string, id: nat, other: string, n: nat)
    requires IsBase(base)
    ensures ToLower(ClassName(id)) != ToLower(base)
    ensures ToLower(Suffixed(other, n)) != ToLower(base)
  {
    assert ToLower(ClassName(id))[0] == 'a' && ToLower(base)[0] != 'a';
    PrintOnlyDigits(n);
    var s := Suffixed(other, n);
    assert s[|s| - 1] == Print(n)[|Print(n)| - 1];
    assert Print(n)[|Print(n)| - 1] in Print(n);
    assert ToLower(s)[|s| - 1] == s[|s| - 1] && ToLower(base)[|base| - 1] == 'i';
  }

  /** Some entry before `i` has a readable alias that differs from the base class in case at most. */
  predicate BaseTakenBefore(entries: seq<Entry>, i: nat, base: string)
    requires i <= |entries|
  {
    exists j :: 0 <= j < i && ToLower(BaseAlias(entries[j])) == ToLower(base)
  }

  /** The lower-case base class name is in use before entry `i` exactly when an earlier entry asked for it. */
  lemma {:induction false} BaseInUse(entries: seq<Entry>, specs: seq<Spec>, i: nat, base: string)
    requires Built(entries, specs) && i <= |specs| == |entries| && IsBase(base)
    ensures ToLower(base) in ClassNames(specs) + Aliases(specs[..i]) <==> BaseTakenBefore(entries, i, base)
  {
    hide BaseAlias, ClassName, ClassNames, Aliases, Built, FirstFree;
    if i == 0 {
      NoBaseAmongClasses(entries, specs, base);
    } else {
      BaseInUse(entries, specs, i - 1, base);
      AliasesOneMore(specs, i - 1);
      BaseChosen(entries, specs, i - 1, base);
      assert BaseTakenBefore(entries, i, base) <==>
             BaseTakenBefore(entries, i - 1, base) || ToLower(BaseAlias(entries[i - 1])) == ToLower(base);
    }
  }

  lemma NoBaseAmongClasses(entries: seq<Entry>, specs: seq<Spec>, base: string)
    requires Built(entries, specs) && IsBase(base)
    ensures ToLower(base) !in ClassNames(specs) && Aliases(specs[..0]) == {}
  {
    forall j | 0 <= j < |specs| ensures ToLower(specs[j].class_) != ToLower(base) {
      assert SpecOf(entries[j], specs[j], ClassNames(specs) + Aliases(specs[..j]));
      BasesStandApart(base, entries[j].id, "", 0);
    }
  }

  lemma AliasesOneMore(specs: seq<Spec>, i: nat)
    requires i < |specs|
    ensures Aliases(specs[..i + 1]) == Aliases(specs[..i]) + if specs[i].alias == "" then {} else {ToLower(specs[i].alias)}
  {
    assert specs[..i + 1] == specs[..i] + [specs[i]];
  }

  /** An entry's alias spells the base class in some case exactly when its readable alias does and was free. */
  lemma BaseChosen(entries: seq<Entry>, specs: seq<Spec>, i: nat, base: string)
    requires Built(entries, specs) && i < |specs| && IsBase(base)
    ensures var used := ClassNames(specs) + Aliases(specs[..i]);
            ToLower(specs[i].alias) == ToLower(base) <==>
            ToLower(BaseAlias(entries[i])) == ToLower(base) && ToLower(base) !in used
    ensures ToLower(specs[i].alias) == ToLower(base) ==> specs[i].alias == BaseAlias(entries[i])
  {
    hide BaseAlias, ClassName, ClassNames, Aliases;
    var used := ClassNames(specs) + Aliases(specs[..i]);
    var asked := BaseAlias(entries[i]);
    assert SpecOf(entries[i], specs[i], used);
    if asked != "" && ToLower(asked) in used {
      var n :| n >= 2 && FirstSuffix(asked, used, n) && specs[i].alias == Suffixed(asked, n);
      BasesStandApart(base, 0, asked, n);
    }
  }

  /**
   * An interface's alias is the name of a base class exactly when that is its readable alias and no
   * earlier interface asked for it, in whatever case.
   */
  lemma BaseShadowedBy(entries: seq<Entry>, specs: seq<Spec>, i: nat, base: string)
    requires Built(entries, specs) && i < |specs| && IsBase(base)
    ensures specs[i].alias == base <==> BaseAlias(entries[i]) == base && !BaseTakenBefore(entries, i, base)
  {
    BaseInUse(entries, specs, i, base);
    BaseChosen(entries, specs, i, base);
  }

  // ---- Running the generated file ----

  /** What a name stands for: an imported class, or the class of the k-th specification. */
  datatype Meaning = Imported(name: string) | Defined(k: nat)

  type Names = map<string, Meaning>

  function BaseOf(s: Spec): string {
    if s.grpc then GRPC_BASE else HTTP_BASE
  }

  /** The import line: the bases of the kinds that occur. */
  function ImportedNames(specs: seq<Spec>): Names {
    map name | name in {HTTP_BASE, GRPC_BASE} && exists k :: 0 <= k < |specs| && BaseOf(specs[k]) == name :: Imported(name)
  }

  /** The names after the first `n` classes and their aliases. */
  function NamesAfter(specs: seq<Spec>, n: nat): Names
    requires n <= |specs|
  {
    if n == 0 then ImportedNames(specs)
    else
      var before := NamesAfter(specs, n - 1);
      var s := specs[n - 1];
      var defined := before[s.class_ := Defined(n - 1)];
      if s.alias == "" then defined else defined[s.alias := Defined(n - 1)]
  }

  lemma {:induction false} BaseMeans(entries: seq<Entry>, specs: seq<Spec>, n: nat, base: string)
    requires Built(entries, specs) && DistinctIds(entries) && n <= |specs| && IsBase(base)
    ensures forall i :: 0 <= i < n && specs[i].alias == base ==> base in NamesAfter(specs, n) && NamesAfter(specs, n)[base] == Defined(i)
    ensures (forall i :: 0 <= i < n ==> specs[i].alias != base) ==>
      (base in NamesAfter(specs, n) <==> base in ImportedNames(specs))
      && (base in NamesAfter(specs, n) ==> NamesAfter(specs, n)[base] == Imported(base))
  {
    hide Built, BaseAlias, ClassName;
    if n > 0 {
      BaseMeans(entries, specs, n - 1, base);
      ClassIsNoBase(entries, specs, n - 1, base);
      forall i | 0 <= i < n - 1 && specs[i].alias == base && specs[n - 1].alias != ""
        ensures specs[n - 1].alias != base
      {
        NamesDiffer(entries, specs, Slot(i, true), Slot(n - 1, true));
      }
    }
  }

  lemma ClassIsNoBase(entries: seq<Entry>, specs: seq<Spec>, i: nat, base: string)
    requires Built(entries, specs) && i < |specs| && IsBase(base)
    ensures specs[i].class_ != base
  {
    assert SpecOf(entries[i], specs[i], ClassNames(specs) + Aliases(specs[..i]));
    BasesStandApart(base, entries[i].id, "", 0);
  }

  /**
   * The class of specification `j` is derived from that of an earlier `i`, instead of the imported one,
   * exactly when `i` is the first interface whose readable alias is the base class's name in some case,
   * and it is that name letter for letter.
   */
  lemma RebasedExactly(entries: seq<Entry>, specs: seq<Spec>, i: nat, j: nat)
    requires Built(entries, specs) && DistinctIds(entries) && i < j < |specs|
    ensures var base := BaseOf(specs[j]);
            && base in NamesAfter(specs, j)
            && (NamesAfter(specs, j)[base] == Defined(i) <==>
                BaseAlias(entries[i]) == base && !BaseTakenBefore(entries, i, base))
  {
    var base := BaseOf(specs[j]);
    hide Built, BaseAlias, ClassName;
    BaseShadowedBy(entries, specs, i, base);
    BaseMeans(entries, specs, j, base);
    assert base in ImportedNames(specs);
    if k :| 0 <= k < j && specs[k].alias == base {
      assert NamesAfter(specs, j)[base] == Defined(k);
      if specs[i].alias == base {
        assert NamesAfter(specs, j)[base] == Defined(i);
      }
    }
  }

  /** And it keeps its imported base exactly when there is no such interface before it. */
  lemma BaseKeptExactly(entries: seq<Entry>, specs: seq<Spec>, j: nat)
    requires Built(entries, specs) && DistinctIds(entries) && j < |specs|
    ensures var base := BaseOf(specs[j]);
            && base in NamesAfter(specs, j)
            && (NamesAfter(specs, j)[base] == Imported(base) <==>
                forall i :: 0 <= i < j ==> !(BaseAlias(entries[i]) == base && !BaseTakenBefore(entries, i, base)))
  {
    var base := BaseOf(specs[j]);
    hide Built, BaseAlias, ClassName;
    BaseMeans(entries, specs, j, base);
    assert base in ImportedNames(specs);
    forall i | 0 <= i < j
      ensures specs[i].alias == base <==> BaseAlias(entries[i]) == base && !BaseTakenBefore(entries, i, base)
    {
      BaseShadowedBy(entries, specs, i, base);
    }
  }

  lemma IdentIsItsAlias(id: nat, name: string)
    requires IsIdent(name) && Trimmed(name) && name[0] != 'A'
    ensures BaseAlias(Entry(id, name)) == name
  {
    hide KEYWORDS;
    TrimIsTrimmed(name);
    assert ClassName(id)[0] == 'A';
  }

  lemma HttpApiIsIdent()
    ensures IsIdent("HttpAPI") && Trimmed("HttpAPI")
  {
    hide KEYWORDS;
    NotKeyword("HttpAPI");
  }

  lemma LowerHttpApiIsIdent()
    ensures IsIdent("httpapi") && Trimmed("httpapi") && ToLower("httpapi") == ToLower("HttpAPI")
  {
    hide KEYWORDS;
    NotKeyword("httpapi");
  }

  /** Two HTTP interfaces, the first called `HttpAPI`: the wrapper of the second inherits from that of the first. */
  lemma SecondInheritsFromFirst(entries: seq<Entry>, specs: seq<Spec>)
    requires Built(entries, specs) && DistinctIds(entries) && |entries| == 2 && entries[0].name == HTTP_BASE
    requires !specs[1].grpc
    ensures HTTP_BASE in NamesAfter(specs, 1) && NamesAfter(specs, 1)[HTTP_BASE] == Defined(0)
  {
    hide BaseAlias, IsIdent, SpecOf;
    HttpApiIsIdent();
    IdentIsItsAlias(entries[0].id, HTTP_BASE);
    assert entries[0] == Entry(entries[0].id, HTTP_BASE);
    RebasedExactly(entries, specs, 0, 1);
  }

  /** When an interface called `httpapi` comes first, the one called `HttpAPI` gets a suffix and rebinds nothing. */
  lemma EarlierSpellingProtects(entries: seq<Entry>, specs: seq<Spec>)
    requires Built(entries, specs) && DistinctIds(entries) && |entries| == 3
    requires entries[0].name == "httpapi" && entries[1].name == HTTP_BASE && !specs[2].grpc
    ensures specs[1].alias != HTTP_BASE && (BaseAlias(entries[1]) == HTTP_BASE)
    ensures HTTP_BASE in NamesAfter(specs, 2) && NamesAfter(specs, 2)[HTTP_BASE] == Imported(HTTP_BASE)
  {
    hide BaseAlias, IsIdent, SpecOf;
    LowerHttpApiIsIdent();
    HttpApiIsIdent();
    IdentIsItsAlias(entries[0].id, "httpapi");
    IdentIsItsAlias(entries[1].id, HTTP_BASE);
    assert entries[0] == Entry(entries[0].id, "httpapi") && entries[1] == Entry(entries[1].id, HTTP_BASE);
    assert ToLower(BaseAlias(entries[0])) == ToLower(HTTP_BASE);
    assert BaseTakenBefore(entries, 1, HTTP_BASE);
    BaseShadowedBy(entries, specs, 1, HTTP_BASE);
    BaseShadowedBy(entries, specs, 0, HTTP_BASE);
    BaseKeptExactly(entries, specs, 2);
  }
}
