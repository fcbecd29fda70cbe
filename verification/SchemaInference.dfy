/** Inferring a JSON Schema from an example document, and merging schemas of array items. */
module SchemaInference {
  import opened Prelude

  datatype Json =
    | Null
    | Bool(b: bool)
    | Int(i: int)
    | Float(x: real)
    | Str(s: string)
    | Arr(items: seq<Json>)
    | Obj(fields: map<string, Json>)

  datatype Schema =
    | Any
    | Boolean
    | Integer
    | Number
    | Text
    | Array(items: Schema)
    | Object(properties: map<string, Schema>)

  // ---- What a schema says about a document ----

  /**
   * Validation as in JSON Schema draft-07, sections 6.1.1, 6.4.1 and 6.5.4, with `any` accepting all:
   * an integer is a number without fraction, and only properties that are present are checked.
   */
  predicate Conforms(v: Json, s: Schema)
    decreases s
  {
    match s
    case Any => true
    case Boolean => v.Bool?
    case Integer => v.Int? || (v.Float? && v.x == v.x.Floor as real)
    case Number => v.Int? || v.Float?
    case Text => v.Str?
    case Array(items) => v.Arr? && forall j :: 0 <= j < |v.items| ==> Conforms(v.items[j], items)
    case Object(properties) =>
      v.Obj? && forall k :: k in properties && k in v.fields ==> Conforms(v.fields[k], properties[k])
  }

  /** The stricter reading the inference aims at: no field is undeclared, and number types are not mixed. */
  predicate Describes(s: Schema, v: Json)
    decreases s
  {
    match s
    case Any => true
    case Boolean => v.Bool?
    case Integer => v.Int?
    case Number => v.Float?
    case Text => v.Str?
    case Array(items) => v.Arr? && forall j :: 0 <= j < |v.items| ==> Describes(items, v.items[j])
    case Object(properties) =>
      v.Obj? && forall k :: k in v.fields ==> k in properties && Describes(properties[k], v.fields[k])
  }

  lemma {:induction false} DescribedConforms(s: Schema, v: Json)
    requires Describes(s, v)
    ensures Conforms(v, s)
    decreases s
  {
    match s
    case Array(items) =>
      forall j | 0 <= j < |v.items| ensures Conforms(v.items[j], items) {
        DescribedConforms(items, v.items[j]);
      }
    case Object(properties) =>
      forall k | k in properties && k in v.fields ensures Conforms(v.fields[k], properties[k]) {
        DescribedConforms(properties[k], v.fields[k]);
      }
    case _ =>
  }

  /** `a` is at least as strict as `b`: the same type and, inside, below; or `b` says nothing. */
  predicate Below(a: Schema, b: Schema)
    decreases b
  {
    b.Any? ||
    (match a
     case Array(items) => b.Array? && Below(items, b.items)
     case Object(properties) =>
       b.Object? && forall k :: k in properties ==> k in b.properties && Below(properties[k], b.properties[k])
     case _ => a == b)
  }

  lemma {:induction false} BelowDescribes(a: Schema, b: Schema, v: Json)
    requires Below(a, b) && Describes(a, v)
    ensures Describes(b, v)
    decreases b
  {
    match b
    case Array(items) =>
      forall j | 0 <= j < |v.items| ensures Describes(items, v.items[j]) {
        BelowDescribes(a.items, items, v.items[j]);
      }
    case Object(properties) =>
      forall k | k in v.fields ensures k in properties && Describes(properties[k], v.fields[k]) {
        BelowDescribes(a.properties[k], properties[k], v.fields[k]);
      }
    case _ =>
  }

  /** A document of `a` that `b` does not describe. */
  lemma {:induction false} Separated(a: Schema, b: Schema) returns (v: Json)
    requires !Below(a, b)
    ensures Describes(a, v) && !Describes(b, v)
    decreases b
  {
    match a
    case Any => v := if b.Boolean? then Null else Bool(true);
    case Boolean => v := Bool(true);
    case Integer => v := Int(0);
    case Number => v := Float(0.5);
    case Text => v := Str("");
    case Array(items) =>
      v := Arr([]);
      if b.Array? {
        var inner := Separated(items, b.items);
        v := Arr([inner]);
        assert v.items[0] == inner;
      }
    case Object(properties) =>
      v := Obj(map[]);
      if b.Object? {
        var k :| k in properties && !(k in b.properties && Below(properties[k], b.properties[k]));
        var inner;
        if k in b.properties {
          inner := Separated(properties[k], b.properties[k]);
        } else {
          inner := Inhabitant(properties[k]);
        }
        v := Obj(map[k := inner]);
        assert v.fields[k] == inner;
      }
  }

  lemma Inhabitant(s: Schema) returns (v: Json)
    ensures Describes(s, v)
  {
    match s
    case Any => v := Null;
    case Boolean => v := Bool(true);
    case Integer => v := Int(0);
    case Number => v := Float(0.5);
    case Text => v := Str("");
    case Array(_) => v := Arr([]);
    case Object(_) => v := Obj(map[]);
  }

  /** The structural order is inclusion of the documents described. */
  lemma BelowExactly(a: Schema, b: Schema)
    ensures Below(a, b) <==> forall v :: Describes(a, v) ==> Describes(b, v)
  {
    if Below(a, b) {
      forall v | Describes(a, v) ensures Describes(b, v) {
        BelowDescribes(a, b, v);
      }
    } else {
      var v := Separated(a, b);
      assert Describes(a, v) && !Describes(b, v);
    }
  }

  // ---- Merging two schemas ----

  predicate SameType(a: Schema, b: Schema) {
    match a
    case Array(_) => b.Array?
    case Object(_) => b.Object?
    case _ => a == b
  }

  /** Two schemas for one place. Of two arrays the first is kept. */
  function Merged(a: Schema, b: Schema): Schema
    decreases b
  {
    if a.Object? && b.Object? then
      Object(map k | k in a.properties.Keys + b.properties.Keys ::
               if k !in b.properties then a.properties[k]
               else if k !in a.properties then b.properties[k]
               else Merged(a.properties[k], b.properties[k]))
    else if SameType(a, b) then a
    else Any
  }

  lemma {:induction false} MergedIdempotent(a: Schema)
    ensures Merged(a, a) == a
  {
    if a.Object? {
      forall k | k in a.properties
        ensures Merged(a.properties[k], a.properties[k]) == a.properties[k]
      {
        MergedIdempotent(a.properties[k]);
      }
      assert Merged(a, a).properties == a.properties;
    }
  }

  lemma {:induction false} MergedAssociative(a: Schema, b: Schema, c: Schema)
    ensures Merged(Merged(a, b), c) == Merged(a, Merged(b, c))
    decreases c
  {
    if a.Object? && b.Object? && c.Object? {
      var l, r := Merged(Merged(a, b), c), Merged(a, Merged(b, c));
      forall k | k in l.properties ensures l.properties[k] == r.properties[k] {
        if k in a.properties && k in b.properties && k in c.properties {
          MergedAssociative(a.properties[k], b.properties[k], c.properties[k]);
        }
      }
      assert l.properties == r.properties;
    }
  }

  /** Two arrays with different items meet somewhere. */
  predicate Clash(a: Schema, b: Schema)
    decreases b
  {
    (a.Array? && b.Array? && a.items != b.items) ||
    (a.Object? && b.Object? &&
     exists k :: k in a.properties && k in b.properties && Clash(a.properties[k], b.properties[k]))
  }

  /** The order of the two matters exactly when different arrays meet. */
  lemma {:induction false} MergedCommutes(a: Schema, b: Schema)
    ensures Merged(a, b) == Merged(b, a) <==> !Clash(a, b)
    decreases b
  {
    if a.Object? && b.Object? {
      var l, r := Merged(a, b).properties, Merged(b, a).properties;
      forall k | k in a.properties && k in b.properties
        ensures l[k] == r[k] <==> !Clash(a.properties[k], b.properties[k])
      {
        MergedCommutes(a.properties[k], b.properties[k]);
      }
      if !Clash(a, b) {
        assert l == r;
      } else {
        var k :| k in a.properties && k in b.properties && Clash(a.properties[k], b.properties[k]);
        assert l[k] != r[k];
      }
    }
  }

  /** Somewhere an array meets one whose items it does not cover, and those items are dropped. */
  predicate Drops(a: Schema, b: Schema)
    decreases b
  {
    (a.Array? && b.Array? && !Below(b.items, a.items)) ||
    (a.Object? && b.Object? &&
     exists k :: k in a.properties && k in b.properties && Drops(a.properties[k], b.properties[k]))
  }

  lemma {:induction false} BelowItself(a: Schema)
    ensures Below(a, a)
  {
    match a
    case Array(items) => BelowItself(items);
    case Object(properties) =>
      forall k | k in properties ensures Below(properties[k], properties[k]) {
        BelowItself(properties[k]);
      }
    case _ =>
  }

  /** A merge is above its first argument, and above the second exactly when nothing is dropped. */
  lemma {:induction false} MergedIsAbove(a: Schema, b: Schema)
    ensures Below(a, Merged(a, b))
    ensures Below(b, Merged(a, b)) <==> !Drops(a, b)
    decreases b
  {
    if a.Object? && b.Object? {
      var m := Merged(a, b);
      forall k | k in a.properties ensures Below(a.properties[k], m.properties[k]) {
        if k in b.properties {
          MergedIsAbove(a.properties[k], b.properties[k]);
        } else {
          BelowItself(a.properties[k]);
        }
      }
      forall k | k in b.properties
        ensures k in a.properties ==>
          (Below(b.properties[k], m.properties[k]) <==> !Drops(a.properties[k], b.properties[k]))
        ensures k !in a.properties ==> Below(b.properties[k], m.properties[k])
      {
        if k in a.properties {
          MergedIsAbove(a.properties[k], b.properties[k]);
        } else {
          BelowItself(b.properties[k]);
        }
      }
    } else {
      BelowItself(a);
    }
  }

  /** Nothing below the merge covers both: it is a least upper bound. */
  lemma {:induction false} MergedIsLeast(a: Schema, b: Schema, y: Schema)
    requires Below(a, y) && Below(b, y)
    ensures Below(Merged(a, b), y)
    decreases b
  {
    if a.Object? && b.Object? && y.Object? {
      var m := Merged(a, b);
      forall k | k in m.properties ensures k in y.properties && Below(m.properties[k], y.properties[k]) {
        if k in a.properties && k in b.properties {
          MergedIsLeast(a.properties[k], b.properties[k], y.properties[k]);
        }
      }
    }
  }

  /** Said of documents: merging keeps describing everything either side did, unless items are dropped. */
  lemma MergeKeepsDocuments(a: Schema, b: Schema)
    ensures (forall v :: Describes(a, v) || Describes(b, v) ==> Describes(Merged(a, b), v)) <==> !Drops(a, b)
  {
    MergedIsAbove(a, b);
    hide *;
    BelowExactly(a, Merged(a, b));
    BelowExactly(b, Merged(a, b));
    if Drops(a, b) {
      var v :| Describes(b, v) && !Describes(Merged(a, b), v);
    }
  }

  // ---- The same question for validation, which leaves unlisted fields unchecked ----

  /** Every document that conforms to `a` conforms to `b`, structurally. */
  predicate Admits(a: Schema, b: Schema)
    decreases b
  {
    b.Any? ||
    (match a
     case Integer => b.Integer? || b.Number?
     case Array(items) => b.Array? && Admits(items, b.items)
     case Object(properties) =>
       b.Object? && forall k :: k in b.properties ==>
         b.properties[k].Any? || (k in properties && Admits(properties[k], b.properties[k]))
     case _ => a == b)
  }

  lemma {:induction false} AdmitsConforming(a: Schema, b: Schema, v: Json)
    requires Admits(a, b) && Conforms(v, a)
    ensures Conforms(v, b)
    decreases b
  {
    match b
    case Array(items) =>
      forall j | 0 <= j < |v.items| ensures Conforms(v.items[j], items) {
        AdmitsConforming(a.items, items, v.items[j]);
      }
    case Object(properties) =>
      forall k | k in properties && k in v.fields ensures Conforms(v.fields[k], properties[k]) {
        if !properties[k].Any? {
          AdmitsConforming(a.properties[k], properties[k], v.fields[k]);
        }
      }
    case _ =>
  }

  /** A document that conforms to `a` and not to `b`. */
  lemma {:induction false} NotAdmitted(a: Schema, b: Schema) returns (v: Json)
    requires !Admits(a, b)
    ensures Conforms(v, a) && !Conforms(v, b)
    decreases b
  {
    match a
    case Any => v := if b.Boolean? then Null else Bool(true);
    case Boolean => v := Bool(true);
    case Integer => v := Int(0);
    case Number => v := Float(0.5);
    case Text => v := Str("");
    case Array(items) =>
      v := Arr([]);
      if b.Array? {
        var inner := NotAdmitted(items, b.items);
        v := Arr([inner]);
        assert v.items[0] == inner;
      }
    case Object(properties) =>
      v := Obj(map[]);
      if b.Object? {
        var k :| k in b.properties && !b.properties[k].Any?
                 && !(k in properties && Admits(properties[k], b.properties[k]));
        var inner := NotAdmitted(if k in properties then properties[k] else Any, b.properties[k]);
        v := Obj(map[k := inner]);
        assert v.fields[k] == inner;
      }
  }

  lemma AdmitsExactly(a: Schema, b: Schema)
    ensures Admits(a, b) <==> forall v :: Conforms(v, a) ==> Conforms(v, b)
  {
    if Admits(a, b) {
      forall v | Conforms(v, a) ensures Conforms(v, b) {
        AdmitsConforming(a, b, v);
      }
    } else {
      var v := NotAdmitted(a, b);
      assert Conforms(v, a) && !Conforms(v, b);
    }
  }

  /** Arrays that meet lose nothing, and a property only one side lists is unrestricted there. */
  predicate LosesNothing(a: Schema, b: Schema)
    decreases b
  {
    && (a.Array? && b.Array? ==> Admits(b.items, a.items))
    && (a.Object? && b.Object? ==>
        && (forall k :: k in a.properties && k in b.properties ==> LosesNothing(a.properties[k], b.properties[k]))
        && (forall k :: k in a.properties && k !in b.properties ==> a.properties[k].Any?)
        && (forall k :: k in b.properties && k !in a.properties ==> b.properties[k].Any?))
  }

  lemma {:induction false} AdmitsItself(a: Schema)
    ensures Admits(a, a)
  {
    match a
    case Array(items) => AdmitsItself(items);
    case Object(properties) =>
      forall k | k in properties ensures Admits(properties[k], properties[k]) {
        AdmitsItself(properties[k]);
      }
    case _ =>
  }

  lemma {:induction false} MergedAdmits(a: Schema, b: Schema)
    ensures Admits(a, Merged(a, b)) && Admits(b, Merged(a, b)) <==> LosesNothing(a, b)
    decreases b
  {
    AdmitsItself(a);
    if a.Object? && b.Object? {
      var m := Merged(a, b).properties;
      forall k | k in m
        ensures (m[k].Any? || (k in a.properties && Admits(a.properties[k], m[k])))
                && (m[k].Any? || (k in b.properties && Admits(b.properties[k], m[k])))
                <==> if k in a.properties && k in b.properties then LosesNothing(a.properties[k], b.properties[k])
                     else m[k].Any?
      {
        if k in a.properties && k in b.properties {
          MergedAdmits(a.properties[k], b.properties[k]);
        } else if k in a.properties {
          AdmitsItself(a.properties[k]);
        } else {
          AdmitsItself(b.properties[k]);
        }
      }
    }
  }

  /** A merge keeps every conforming document exactly then. */
  lemma MergeKeepsConforming(a: Schema, b: Schema)
    ensures (forall v :: Conforms(v, a) || Conforms(v, b) ==> Conforms(v, Merged(a, b))) <==> LosesNothing(a, b)
  {
    MergedAdmits(a, b);
    hide *;
    AdmitsExactly(a, Merged(a, b));
    AdmitsExactly(b, Merged(a, b));
    if !LosesNothing(a, b) {
      if !Admits(a, Merged(a, b)) {
        var v :| Conforms(v, a) && !Conforms(v, Merged(a, b));
      } else {
        var v :| Conforms(v, b) && !Conforms(v, Merged(a, b));
      }
    }
  }

  /** Without any array: a field that was unlisted, hence unchecked, becomes checked. */
  lemma UnlistedFieldLost()
    ensures var a, b, v := Object(map[]), Object(map["x" := Integer]), Obj(map["x" := Str("s")]);
            && !Drops(a, b) && !LosesNothing(a, b)
            && Conforms(v, a) && !Conforms(v, Merged(a, b))
  {
    var a, b, v := Object(map[]), Object(map["x" := Integer]), Obj(map["x" := Str("s")]);
    assert Merged(a, b).properties["x"] == Integer;
    assert "x" in b.properties && !b.properties["x"].Any?;
    assert !Conforms(v.fields["x"], Integer);
  }

  // ---- Merging a list ----

  function Folded(schemas: seq<Schema>): Schema
    requires schemas != []
  {
    var n := |schemas| - 1;
    if n == 0 then schemas[0] else Merged(Folded(schemas[..n]), schemas[n])
  }

  /** All of one type that is not an object: the first stands for all; a second type makes it `any`. */
  lemma {:induction false} FoldedByType(schemas: seq<Schema>)
    requires schemas != [] && !(forall j :: 0 <= j < |schemas| ==> schemas[j].Object?)
    ensures Folded(schemas) ==
            if forall j :: 0 <= j < |schemas| ==> SameType(schemas[j], schemas[0]) then schemas[0] else Any
  {
    var n := |schemas| - 1;
    if n > 0 {
      var init := schemas[..n];
      if forall j :: 0 <= j < n ==> init[j].Object? {
        FoldedObjects(init);
        assert init[0] == schemas[0];
        assert schemas[n] == schemas[n];
      } else {
        FoldedByType(init);
        if forall j :: 0 <= j < |schemas| ==> SameType(schemas[j], schemas[0]) {
          assert forall j :: 0 <= j < n ==> init[j] == schemas[j];
        }
        assert forall j :: 0 <= j < n ==> init[j] == schemas[j];
      }
    }
  }

  lemma {:induction false} FoldedObjects(schemas: seq<Schema>)
    requires schemas != [] && forall j :: 0 <= j < |schemas| ==> schemas[j].Object?
    ensures Folded(schemas).Object?
  {
    if |schemas| > 1 {
      FoldedObjects(schemas[..|schemas| - 1]);
    }
  }

  /** Property by property, in whatever order the properties come. */
  lemma MergedProperties(a: map<string, Schema>, b: map<string, Schema>, m: map<string, Schema>)
    requires m.Keys == a.Keys + b.Keys
    requires forall k :: k in a && k !in b ==> m[k] == a[k]
    requires forall k :: k in b ==> m[k] == if k in a then Merged(a[k], b[k]) else b[k]
    ensures Merged(Object(a), Object(b)) == Object(m)
  {
    assert Merged(Object(a), Object(b)).properties == m;
  }

  lemma FoldedPair(a: Schema, b: Schema)
    ensures Folded([a, b]) == Merged(a, b)
  {
    assert [a, b][..1] == [a];
  }

  lemma FoldedOneMore(schemas: seq<Schema>, i: nat)
    requires 0 < i < |schemas|
    ensures Folded(schemas[..i + 1]) == Merged(Folded(schemas[..i]), schemas[i])
  {
    assert schemas[..i + 1][..i] == schemas[..i];
  }

  /** The list merge: objects property by property, anything else by comparing types. */
  method MergeSchemas(schemas: seq<Schema>) returns (r: Option<Schema>)
    ensures r == if schemas == [] then None else Some(Folded(schemas))
    decreases |schemas| != 2, if |schemas| == 2 then schemas[1] else Any
  {
    if schemas == [] {
      return None;
    }
    var first := schemas[0];
    if forall j :: 0 <= j < |schemas| ==> schemas[j].Object? {
      assert schemas[..1] == [first];
      hide Merged, Below;
      var properties := first.properties;
      var i := 1;
      while i < |schemas|
        invariant 1 <= i <= |schemas|
        invariant Object(properties) == Folded(schemas[..i])
      {
        ghost var before := properties;
        var next := schemas[i].properties;
        var todo := next.Keys;
        while todo != {}
          invariant todo <= next.Keys
          invariant properties.Keys == before.Keys + (next.Keys - todo)
          invariant forall k :: k in before && k !in next.Keys - todo ==> properties[k] == before[k]
          invariant forall k :: k in next && k !in todo ==>
            properties[k] == if k in before then Merged(before[k], next[k]) else next[k]
          decreases todo
        {
          var k :| k in todo;
          if k in properties {
            var pair := [properties[k], next[k]];
            var merged := MergeSchemas(pair);
            FoldedPair(pair[0], pair[1]);
            properties := properties[k := merged.value];
          } else {
            properties := properties[k := next[k]];
          }
          todo := todo - {k};
        }
        MergedProperties(before, next, properties);
        FoldedOneMore(schemas, i);
        i := i + 1;
      }
      assert schemas[..i] == schemas;
      return Some(Object(properties));
    }
    FoldedByType(schemas);
    if forall j :: 0 <= j < |schemas| ==> SameType(schemas[j], first) {
      return Some(first);
    }
    return Some(Any);
  }

  // ---- Inferring ----

  function Inferred(v: Json): Schema {
    match v
    case Null => Any
    case Bool(_) => Boolean
    case Int(_) => Integer
    case Float(_) => Number
    case Str(_) => Text
    case Arr(items) => Array(if items == [] then Any else Folded(ItemSchemas(items)))
    case Obj(fields) => Object(map k | k in fields :: Inferred(fields[k]))
  }

  function ItemSchemas(items: seq<Json>): (r: seq<Schema>)
    ensures |r| == |items| && forall j :: 0 <= j < |r| ==> r[j] == Inferred(items[j])
  {
    seq(|items|, j requires 0 <= j < |items| => Inferred(items[j]))
  }

  /** In no array does an item lose what its own inner arrays would have said. */
  predicate Lossless(v: Json) {
    match v
    case Arr(items) =>
      && (forall j :: 0 <= j < |items| ==> Lossless(items[j]))
      && (forall j :: 0 < j < |items| ==> !Drops(Folded(ItemSchemas(items)[..j]), Inferred(items[j])))
    case Obj(fields) => forall k :: k in fields ==> Lossless(fields[k])
    case _ => true
  }

  lemma {:induction false} BelowTransitive(a: Schema, b: Schema, c: Schema)
    requires Below(a, b) && Below(b, c)
    ensures Below(a, c)
  {
    BelowExactly(a, b);
    BelowExactly(b, c);
    BelowExactly(a, c);
  }

  lemma {:induction false} FoldedIsAbove(schemas: seq<Schema>, j: nat)
    requires j < |schemas|
    requires forall i :: 0 < i < |schemas| ==> !Drops(Folded(schemas[..i]), schemas[i])
    ensures Below(schemas[j], Folded(schemas))
  {
    var n := |schemas| - 1;
    if n == 0 {
      BelowItself(schemas[0]);
    } else {
      var init := schemas[..n];
      MergedIsAbove(Folded(init), schemas[n]);
      hide Merged, Drops, Below;
      if j < n {
        forall i | 0 < i < n ensures !Drops(Folded(init[..i]), init[i]) {
          assert init[..i] == schemas[..i];
        }
        FoldedIsAbove(init, j);
        BelowTransitive(schemas[j], Folded(init), Folded(schemas));
      }
    }
  }

  lemma ItemDescribed(items: seq<Json>, j: nat)
    requires j < |items| && Lossless(Arr(items)) && Describes(Inferred(items[j]), items[j])
    ensures Describes(Folded(ItemSchemas(items)), items[j])
  {
    var schemas := ItemSchemas(items);
    FoldedIsAbove(schemas, j);
    BelowDescribes(schemas[j], Folded(schemas), items[j]);
  }

  /** A document conforms to the schema inferred from it, unless items of an inner array were dropped. */
  lemma {:induction false} InferredDescribes(v: Json)
    requires Lossless(v)
    ensures Describes(Inferred(v), v) && Conforms(v, Inferred(v))
  {
    hide Folded, Drops, Conforms;
    match v {
    case Arr(items) =>
      forall j | 0 <= j < |items| ensures Describes(Inferred(v).items, items[j]) {
        InferredDescribes(items[j]);
        ItemDescribed(items, j);
      }
    case Obj(fields) =>
      forall k | k in fields ensures Describes(Inferred(v).properties[k], fields[k]) {
        InferredDescribes(fields[k]);
      }
    case _ =>
    }
    DescribedConforms(Inferred(v), v);
  }

  // ---- Nothing weaker is inferred ----

  /** Every array has an item: of an empty one nothing is known about items. */
  predicate Filled(v: Json) {
    match v
    case Arr(items) => items != [] && forall j :: 0 <= j < |items| ==> Filled(items[j])
    case Obj(fields) => forall k :: k in fields ==> Filled(fields[k])
    case _ => true
  }

  lemma {:induction false} FoldedIsLeast(schemas: seq<Schema>, y: Schema)
    requires schemas != [] && forall j :: 0 <= j < |schemas| ==> Below(schemas[j], y)
    ensures Below(Folded(schemas), y)
  {
    var n := |schemas| - 1;
    if n > 0 {
      FoldedIsLeast(schemas[..n], y);
      MergedIsLeast(Folded(schemas[..n]), schemas[n], y);
    }
  }

  /** Whatever schema describes a document without empty arrays, the inferred one is at least as strict. */
  lemma {:induction false} InferredIsLeast(v: Json, s: Schema)
    requires Filled(v) && Describes(s, v)
    ensures Below(Inferred(v), s)
  {
    hide Folded;
    match v
    case Arr(items) =>
      if s.Array? {
        forall j | 0 <= j < |items| ensures Below(ItemSchemas(items)[j], s.items) {
          InferredIsLeast(items[j], s.items);
        }
        FoldedIsLeast(ItemSchemas(items), s.items);
      }
    case Obj(fields) =>
      if s.Object? {
        forall k | k in fields ensures Below(Inferred(fields[k]), s.properties[k]) {
          InferredIsLeast(fields[k], s.properties[k]);
        }
      }
    case _ =>
  }

  /**
   * Under draft-07 the schema of a document that is not null admits documents of its own type only: a
   * whole number stands for whole numbers, however written, any other number for all numbers. It lists
   * an object's fields and no others.
   */
  lemma OtherTypesRejected(v: Json, w: Json)
    requires !v.Null?
    ensures Conforms(w, Inferred(v)) ==>
              && (v.Bool? <==> w.Bool?) && (v.Str? <==> w.Str?) && (v.Arr? <==> w.Arr?) && (v.Obj? <==> w.Obj?)
              && (v.Int? && w.Float? ==> w.x == w.x.Floor as real)
    ensures (v.Bool? && w.Bool?) || (v.Str? && w.Str?) || (v.Int? && w.Int?) || (v.Float? && (w.Int? || w.Float?)) ==>
              Conforms(w, Inferred(v))
    ensures v.Obj? ==> Inferred(v).Object? && Inferred(v).properties.Keys == v.fields.Keys
    ensures v.Arr? && v.items == [] && w.Arr? ==> Conforms(w, Inferred(v))
  {
  }

  // ---- Exactly when a document conforms ----

  /** The values a list of objects has under one key. */
  function Column(vs: seq<Json>, k: string): seq<Json> {
    if vs == [] then []
    else
      var n := |vs| - 1;
      Column(vs[..n], k) + if vs[n].Obj? && k in vs[n].fields then [vs[n].fields[k]] else []
  }

  /**
   * Of the values `vs`, all standing in one place with schema `s`: wherever several arrays meet, the
   * items of all but the first conform to what was made of the first one's items.
   */
  predicate LaterArraysFit(s: Schema, vs: seq<Json>) {
    match s
    case Array(items) =>
      vs != [] && vs[0].Arr? ==>
        && LaterArraysFit(items, vs[0].items)
        && forall i, j :: 0 < i < |vs| && vs[i].Arr? && 0 <= j < |vs[i].items| ==> Conforms(vs[i].items[j], items)
    case Object(properties) => forall k :: k in properties ==> LaterArraysFit(properties[k], Column(vs, k))
    case _ => true
  }

  ghost predicate AllConform(s: Schema, vs: seq<Json>) {
    forall i :: 0 <= i < |vs| ==> Conforms(vs[i], s)
  }

  lemma {:induction false} ColumnHas(vs: seq<Json>, k: string)
    ensures forall v :: v in Column(vs, k) <==> exists i :: 0 <= i < |vs| && vs[i].Obj? && k in vs[i].fields && vs[i].fields[k] == v
  {
    if vs != [] {
      var n := |vs| - 1;
      ColumnHas(vs[..n], k);
      forall v
        ensures v in Column(vs, k) <==> exists i :: 0 <= i < |vs| && vs[i].Obj? && k in vs[i].fields && vs[i].fields[k] == v
      {
        if i :| 0 <= i < n && vs[i].Obj? && k in vs[i].fields && vs[i].fields[k] == v {
          assert vs[..n][i] == vs[i];
        }
      }
    }
  }

  lemma ItemSchemasOneMore(vs: seq<Json>)
    requires vs != []
    ensures ItemSchemas(vs)[..|vs| - 1] == ItemSchemas(vs[..|vs| - 1])
  {
  }

  /** Of objects, the merged schema has under each key the merge of that key's column. */
  lemma {:induction false} FoldedColumns(vs: seq<Json>)
    requires vs != [] && forall i :: 0 <= i < |vs| ==> vs[i].Obj?
    ensures var s := Folded(ItemSchemas(vs));
            && s.Object?
            && forall k :: (k in s.properties <==> Column(vs, k) != [])
                           && (k in s.properties ==> s.properties[k] == Folded(ItemSchemas(Column(vs, k))))
  {
    var n := |vs| - 1;
    var s := Folded(ItemSchemas(vs));
    var last := Inferred(vs[n]);
    if n > 0 {
      FoldedColumns(vs[..n]);
      ItemSchemasOneMore(vs);
    }
    forall k
      ensures k in s.properties <==> Column(vs, k) != []
      ensures k in s.properties ==> s.properties[k] == Folded(ItemSchemas(Column(vs, k)))
    {
      var before := Column(vs[..n], k);
      assert n == 0 ==> before == [];
      if k in vs[n].fields {
        FoldedItemsOneMore(before, vs[n].fields[k]);
        assert last.properties[k] == Inferred(vs[n].fields[k]);
      } else {
        assert Column(vs, k) == before;
      }
    }
  }

  lemma FoldedItemsOneMore(vs: seq<Json>, v: Json)
    ensures Folded(ItemSchemas(vs + [v])) ==
            if vs == [] then Inferred(v) else Merged(Folded(ItemSchemas(vs)), Inferred(v))
  {
    var more := vs + [v];
    ItemSchemasOneMore(more);
    assert more[..|more| - 1] == vs;
  }

  lemma ArraysConform(s: Schema, vs: seq<Json>)
    requires vs != [] && s.Array? && forall i :: 0 <= i < |vs| ==> vs[i].Arr?
    ensures AllConform(s, vs) <==>
            && AllConform(s.items, vs[0].items)
            && forall i, j :: 0 < i < |vs| && 0 <= j < |vs[i].items| ==> Conforms(vs[i].items[j], s.items)
  {
    if AllConform(s, vs) {
      assert Conforms(vs[0], s);
      forall i, j | 0 < i < |vs| && 0 <= j < |vs[i].items| ensures Conforms(vs[i].items[j], s.items) {
        assert Conforms(vs[i], s);
      }
    }
  }

  /** Values all conform to their merged schema exactly when later arrays fit the first. */
  lemma {:induction false} ConformExactly(s: Schema, vs: seq<Json>)
    requires vs != [] && s == Folded(ItemSchemas(vs))
    ensures AllConform(s, vs) <==> LaterArraysFit(s, vs)
    decreases s
  {
    if forall i :: 0 <= i < |vs| ==> vs[i].Obj? {
      FoldedColumns(vs);
      ObjectsConform(s, vs);
      hide Folded, Column, Conforms, AllConform;
      forall k | k in s.properties
        ensures AllConform(s.properties[k], Column(vs, k)) <==> LaterArraysFit(s.properties[k], Column(vs, k))
      {
        ConformExactly(s.properties[k], Column(vs, k));
      }
    } else {
      var schemas := ItemSchemas(vs);
      assert exists i :: 0 <= i < |vs| && !schemas[i].Object?;
      FoldedByType(schemas);
      hide Folded, ItemSchemas;
      if s.Array? {
        assert forall i :: 0 <= i < |vs| ==> SameType(schemas[i], schemas[0]) && vs[i].Arr?;
        if vs[0].items != [] {
          ConformExactly(s.items, vs[0].items);
        }
        ArraysConform(s, vs);
      } else if !s.Any? {
        assert forall i :: 0 <= i < |vs| ==> SameType(schemas[i], schemas[0]);
      }
    }
  }

  lemma ColumnConforms(t: Schema, vs: seq<Json>, k: string)
    ensures AllConform(t, Column(vs, k)) <==>
            forall i :: 0 <= i < |vs| && vs[i].Obj? && k in vs[i].fields ==> Conforms(vs[i].fields[k], t)
  {
    ColumnHas(vs, k);
    hide Conforms, Column;
    var column := Column(vs, k);
    forall i | 0 <= i < |vs| && vs[i].Obj? && k in vs[i].fields ensures vs[i].fields[k] in column {
    }
    if !AllConform(t, column) {
      var j :| 0 <= j < |column| && !Conforms(column[j], t);
      assert column[j] in column;
    }
  }

  lemma ObjectsConform(s: Schema, vs: seq<Json>)
    requires s.Object? && forall i :: 0 <= i < |vs| ==> vs[i].Obj?
    ensures AllConform(s, vs) <==> forall k :: k in s.properties ==> AllConform(s.properties[k], Column(vs, k))
  {
    forall k | k in s.properties
      ensures AllConform(s.properties[k], Column(vs, k)) <==>
              forall i :: 0 <= i < |vs| && k in vs[i].fields ==> Conforms(vs[i].fields[k], s.properties[k])
    {
      ColumnConforms(s.properties[k], vs, k);
    }
    hide Column;
    if AllConform(s, vs) {
      forall k | k in s.properties ensures AllConform(s.properties[k], Column(vs, k)) {
        assert forall i :: 0 <= i < |vs| && k in vs[i].fields ==> Conforms(vs[i], s);
      }
    } else {
      var i :| 0 <= i < |vs| && !Conforms(vs[i], s);
      var k :| k in s.properties && k in vs[i].fields && !Conforms(vs[i].fields[k], s.properties[k]);
      assert !AllConform(s.properties[k], Column(vs, k));
    }
  }

  /** A document conforms to the schema inferred from it if and only if, in it, later arrays fit the first. */
  lemma InferredConformsExactly(v: Json)
    ensures Conforms(v, Inferred(v)) <==> LaterArraysFit(Inferred(v), [v])
  {
    FoldedItemsOneMore([], v);
    assert [] + [v] == [v];
    ConformExactly(Inferred(v), [v]);
    assert AllConform(Inferred(v), [v]) <==> Conforms([v][0], Inferred(v));
  }

  /** `[[1], ["a"]]` does not conform to the schema inferred from it. */
  lemma DroppedItems()
    ensures var v := Arr([Arr([Int(1)]), Arr([Str("a")])]);
            !Lossless(v) && !Conforms(v, Inferred(v))
  {
    var v := Arr([Arr([Int(1)]), Arr([Str("a")])]);
    var schemas := ItemSchemas(v.items);
    assert Inferred(v.items[0]) == Array(Integer) by {
      assert ItemSchemas([Int(1)]) == [Integer];
    }
    assert Inferred(v.items[1]) == Array(Text) by {
      assert ItemSchemas([Str("a")]) == [Text];
    }
    assert schemas == [Array(Integer), Array(Text)];
    assert schemas[..1] == [Array(Integer)];
    assert Folded(schemas) == Array(Integer);
    assert !Conforms(v.items[1].items[0], Integer);
  }
}
