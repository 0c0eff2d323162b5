/**
 * Facts about the walk that splits a hash into its field tree and its transforms: plain data goes
 * through whole, every leaf of the data is in the field tree at its own path and nothing else is,
 * the transforms are exactly the sentinels reachable through hashes, in insertion order, and the walk
 * fails exactly when a sentinel sits under an array.
 */
module WalkFacts {
  import opened Values
  import opened FieldPaths
  import opened Locations
  import opened Convert
  import opened EncodeFacts

  /** A value that the field tree holds as it is: a scalar, an array, or an empty hash. */
  predicate Leaf(v: Value) {
    v.Raw? || v.Arr? || v == Map([])
  }

  /** An encoded value that the field tree holds as a leaf. */
  predicate DataLeaf(d: Data) {
    !d.MapValue? || d == MapValue([])
  }

  // ---------------------------------------------------------------------------------------------
  // Plain data

  /** A field holding a plain value is kept whole and yields no transform. */
  lemma {:induction false} WalkFieldDecoded(key: string, d: Data, prefix: FieldPath)
    decreases d
    ensures WalkField(key, Decode(d), prefix) == Success(Split([DataField(key, d)], []))
  {
    match d
    case ScalarValue(_) =>
    case ArrayValue(ds) => EncodeDecodeElements(ds);
    case MapValue(gs) =>
      if gs != [] {
        WalkFieldsDecoded(gs, prefix + [key]);
      }
  }

  /** A plain hash is walked into itself: its field tree is the hash encoded whole, with no transforms. */
  lemma {:induction false} WalkFieldsDecoded(ds: seq<DataField>, prefix: FieldPath)
    decreases ds
    ensures WalkFields(DecodeFields(ds), prefix) == Success(Split(ds, []))
  {
    if ds != [] {
      var fs := DecodeFields(ds);
      assert |fs| == |Keys(fs)| == |ds|;
      assert fs[0] == Field(ds[0].key, Decode(ds[0].value));
      assert fs[1..] == DecodeFields(ds[1..]);
      WalkFieldDecoded(ds[0].key, ds[0].value, prefix);
      WalkFieldsDecoded(ds[1..], prefix);
      WalkFieldsCons(fs, prefix);
      assert [DataField(ds[0].key, ds[0].value)] + ds[1..] == ds;
      var none: seq<PathTransform> := [];
      assert none + none == none;
    }
  }

  // ---------------------------------------------------------------------------------------------
  // Insertion order

  /** The result of walking two runs of fields one after the other: the first error, or both field
      trees and both transform lists, the first run's first. */
  function Join(a: Result<Split>, b: Result<Split>): Result<Split> {
    match a
    case Failure(e) => Failure(e)
    case Success(x) =>
      match b
      case Failure(e) => Failure(e)
      case Success(y) => Success(Split(x.fields + y.fields, x.transforms + y.transforms))
  }

  lemma JoinAssociative(a: Result<Split>, b: Result<Split>, c: Result<Split>)
    ensures Join(a, Join(b, c)) == Join(Join(a, b), c)
  {
    if a.Success? && b.Success? && c.Success? {
      var x, y, z := a.value, b.value, c.value;
      assert x.fields + (y.fields + z.fields) == (x.fields + y.fields) + z.fields;
      assert x.transforms + (y.transforms + z.transforms) == (x.transforms + y.transforms) + z.transforms;
    }
  }

  lemma WalkFieldsCons(fs: seq<Field>, prefix: FieldPath)
    requires fs != []
    ensures WalkFields(fs, prefix) == Join(WalkField(fs[0].key, fs[0].value, prefix), WalkFields(fs[1..], prefix))
  {
  }

  lemma WalkFieldsNil(prefix: FieldPath)
    ensures WalkFields([], prefix) == Success(Split([], []))
  {
  }

  /** Walking two runs of fields one after the other is walking each and joining the results: the
      field tree and transforms of the first run come first, and an error in the first run wins. */
  lemma {:induction false} WalkFieldsAppend(f1: seq<Field>, f2: seq<Field>, prefix: FieldPath)
    decreases f1
    ensures WalkFields(f1 + f2, prefix) == Join(WalkFields(f1, prefix), WalkFields(f2, prefix))
  {
    if f1 == [] {
      assert f1 + f2 == f2;
      var b := WalkFields(f2, prefix);
      if b.Success? {
        assert [] + b.value.fields == b.value.fields;
        assert [] + b.value.transforms == b.value.transforms;
      }
    } else {
      var f := f1 + f2;
      assert f[0] == f1[0];
      assert f[1..] == f1[1..] + f2;
      var head := WalkField(f1[0].key, f1[0].value, prefix);
      WalkFieldsCons(f, prefix);
      WalkFieldsAppend(f1[1..], f2, prefix);
      JoinAssociative(head, WalkFields(f1[1..], prefix), WalkFields(f2, prefix));
      WalkFieldsCons(f1, prefix);
    }
  }

  // ---------------------------------------------------------------------------------------------
  // The field tree

  lemma {:induction false} DataAtAppend(a: seq<DataField>, b: seq<DataField>, q: FieldPath, d: Data)
    decreases |a|
    ensures DataAt(a + b, q, d) <==> DataAt(a, q, d) || DataAt(b, q, d)
  {
    if a == [] {
      assert a + b == b;
    } else {
      assert (a + b)[0] == a[0];
      assert (a + b)[1..] == a[1..] + b;
      DataAtAppend(a[1..], b, q, d);
    }
  }

  /** How `v` sits at `q` below a field `key: v0`. */
  predicate AtField(key: string, v0: Value, q: FieldPath, v: Value) {
    && q != []
    && q[0] == key
    && if |q| == 1 then v0 == v else v0.Map? && ValueAt(v0.fields, q[1..], v)
  }

  lemma ValueAtCons(fs: seq<Field>, q: FieldPath, v: Value)
    requires fs != []
    ensures ValueAt(fs, q, v) <==> AtField(fs[0].key, fs[0].value, q, v) || ValueAt(fs[1..], q, v)
  {
  }

  /** A leaf of the data is in the field tree at the same path, encoded. */
  lemma {:induction false} WalkFieldsKeepsLeaf(fs: seq<Field>, prefix: FieldPath, q: FieldPath, v: Value)
    decreases fs
    requires WalkFields(fs, prefix).Success?
    requires ValueAt(fs, q, v) && Leaf(v)
    ensures EncodeElement(v).Success?
    ensures DataAt(WalkFields(fs, prefix).value.fields, q, EncodeElement(v).value)
  {
    var head := WalkField(fs[0].key, fs[0].value, prefix).value;
    var tail := WalkFields(fs[1..], prefix).value;
    ValueAtCons(fs, q, v);
    if AtField(fs[0].key, fs[0].value, q, v) {
      WalkFieldKeepsLeaf(fs[0].key, fs[0].value, prefix, q, v);
      DataAtAppend(head.fields, tail.fields, q, EncodeElement(v).value);
    } else {
      WalkFieldsKeepsLeaf(fs[1..], prefix, q, v);
      DataAtAppend(head.fields, tail.fields, q, EncodeElement(v).value);
    }
  }

  lemma {:induction false} WalkFieldKeepsLeaf(key: string, v0: Value, prefix: FieldPath, q: FieldPath, v: Value)
    decreases v0
    requires WalkField(key, v0, prefix).Success?
    requires AtField(key, v0, q, v) && Leaf(v)
    ensures EncodeElement(v).Success?
    ensures DataAt(WalkField(key, v0, prefix).value.fields, q, EncodeElement(v).value)
  {
    var kept := WalkField(key, v0, prefix).value.fields;
    if |q| == 1 {
      match v0
      case Raw(_) =>
      case Arr(xs) =>
      case Map(gs) => assert gs == [];
    } else {
      var gs := v0.fields;
      assert gs != [];
      var nested := WalkFields(gs, prefix + [key]).value;
      WalkFieldsKeepsLeaf(gs, prefix + [key], q[1..], v);
      assert nested.fields != [];
      assert kept == [DataField(key, MapValue(nested.fields))];
    }
  }

  /** Every leaf of the field tree comes from the same path in the data, and decodes to what is there. */
  lemma {:induction false} WalkFieldsLeafFromData(fs: seq<Field>, prefix: FieldPath, q: FieldPath, d: Data)
    decreases fs
    requires WalkFields(fs, prefix).Success?
    requires DataAt(WalkFields(fs, prefix).value.fields, q, d) && DataLeaf(d)
    ensures ValueAt(fs, q, Decode(d))
  {
    var head := WalkField(fs[0].key, fs[0].value, prefix).value;
    var tail := WalkFields(fs[1..], prefix).value;
    DataAtAppend(head.fields, tail.fields, q, d);
    ValueAtCons(fs, q, Decode(d));
    if DataAt(head.fields, q, d) {
      WalkFieldLeafFromData(fs[0].key, fs[0].value, prefix, q, d);
    } else {
      WalkFieldsLeafFromData(fs[1..], prefix, q, d);
    }
  }

  lemma {:induction false} WalkFieldLeafFromData(key: string, v0: Value, prefix: FieldPath, q: FieldPath, d: Data)
    decreases v0
    requires WalkField(key, v0, prefix).Success?
    requires DataAt(WalkField(key, v0, prefix).value.fields, q, d) && DataLeaf(d)
    ensures AtField(key, v0, q, Decode(d))
  {
    var kept := WalkField(key, v0, prefix).value.fields;
    assert |kept| == 1 && kept[0].key == key;
    assert DataAt(kept[1..], q, d) == false;
    match v0
    case Raw(_) =>
    case Arr(xs) =>
    case Map(gs) =>
      if gs != [] {
        var nested := WalkFields(gs, prefix + [key]).value;
        assert kept == [DataField(key, MapValue(nested.fields))];
        if |q| > 1 {
          WalkFieldsLeafFromData(gs, prefix + [key], q[1..], d);
        }
      }
  }

  // ---------------------------------------------------------------------------------------------
  // The transforms

  /** Every transform collected sits, as a sentinel, at its path in the data. */
  lemma {:induction false} WalkFieldsTransformsFound(fs: seq<Field>, prefix: FieldPath)
    decreases fs
    requires WalkFields(fs, prefix).Success?
    ensures var pts := WalkFields(fs, prefix).value.transforms;
      forall j :: 0 <= j < |pts| ==> ValueAt(fs, pts[j].path[|prefix|..], Sentinel(pts[j].transform))
  {
    if fs != [] {
      var head := WalkField(fs[0].key, fs[0].value, prefix).value;
      var tail := WalkFields(fs[1..], prefix).value;
      var pts := head.transforms + tail.transforms;
      assert pts == WalkFields(fs, prefix).value.transforms;
      WalkFieldTransformsFound(fs[0].key, fs[0].value, prefix);
      WalkFieldsTransformsFound(fs[1..], prefix);
      forall j | 0 <= j < |pts|
        ensures ValueAt(fs, pts[j].path[|prefix|..], Sentinel(pts[j].transform))
      {
        var q, s := pts[j].path[|prefix|..], Sentinel(pts[j].transform);
        ValueAtCons(fs, q, s);
        if j < |head.transforms| {
          assert pts[j] == head.transforms[j];
        } else {
          assert pts[j] == tail.transforms[j - |head.transforms|];
        }
      }
    }
  }

  lemma {:induction false} WalkFieldTransformsFound(key: string, v0: Value, prefix: FieldPath)
    decreases v0
    requires WalkField(key, v0, prefix).Success?
    ensures var pts := WalkField(key, v0, prefix).value.transforms;
      forall j :: 0 <= j < |pts| ==> AtField(key, v0, pts[j].path[|prefix|..], Sentinel(pts[j].transform))
  {
    match v0
    case Map(gs) =>
      if gs != [] {
        var pts := WalkFields(gs, prefix + [key]).value.transforms;
        WalkFieldsTransformsFound(gs, prefix + [key]);
        forall j | 0 <= j < |pts|
          ensures AtField(key, v0, pts[j].path[|prefix|..], Sentinel(pts[j].transform))
        {
          var p := pts[j].path;
          assert |p| > |prefix| + 1;
          assert p[|prefix|..][1..] == p[|prefix| + 1..];
          assert |prefix + [key]| == |prefix| + 1;
        }
      }
    case Sentinel(t) =>
      assert (prefix + [key])[|prefix|..] == [key];
    case _ =>
  }

  /** Every sentinel reachable through hashes is collected, at its path. */
  lemma {:induction false} WalkFieldsTransformsComplete(fs: seq<Field>, prefix: FieldPath, q: FieldPath, t: Transform)
    decreases fs
    requires WalkFields(fs, prefix).Success?
    requires ValueAt(fs, q, Sentinel(t))
    ensures PathTransform(prefix + q, t) in WalkFields(fs, prefix).value.transforms
  {
    var head := WalkField(fs[0].key, fs[0].value, prefix).value;
    var tail := WalkFields(fs[1..], prefix).value;
    ValueAtCons(fs, q, Sentinel(t));
    if AtField(fs[0].key, fs[0].value, q, Sentinel(t)) {
      WalkFieldTransformsComplete(fs[0].key, fs[0].value, prefix, q, t);
    } else {
      WalkFieldsTransformsComplete(fs[1..], prefix, q, t);
    }
    assert WalkFields(fs, prefix).value.transforms == head.transforms + tail.transforms;
  }

  lemma {:induction false} WalkFieldTransformsComplete(key: string, v0: Value, prefix: FieldPath, q: FieldPath, t: Transform)
    decreases v0
    requires WalkField(key, v0, prefix).Success?
    requires AtField(key, v0, q, Sentinel(t))
    ensures PathTransform(prefix + q, t) in WalkField(key, v0, prefix).value.transforms
  {
    if |q| == 1 {
      assert q == [key];
      assert v0 == Sentinel(t);
    } else {
      var gs := v0.fields;
      assert gs != [];
      WalkFieldMapTransforms(key, gs, prefix);
      WalkFieldsTransformsComplete(gs, prefix + [key], q[1..], t);
      ExtendedPath(prefix, q);
    }
  }

  /** The transforms of a non-empty hash field are those of its fields, one level down. */
  lemma WalkFieldMapTransforms(key: string, gs: seq<Field>, prefix: FieldPath)
    requires gs != []
    requires WalkField(key, Map(gs), prefix).Success?
    ensures WalkFields(gs, prefix + [key]).Success?
    ensures WalkField(key, Map(gs), prefix).value.transforms == WalkFields(gs, prefix + [key]).value.transforms
  {
  }

  lemma ExtendedPath(prefix: FieldPath, q: FieldPath)
    requires q != []
    ensures prefix + [q[0]] + q[1..] == prefix + q
  {
    assert q == [q[0]] + q[1..];
  }

  // ---------------------------------------------------------------------------------------------
  // What the field tree and the transform list have between them

  /** A field that carries no data, when it is walked without error, yields a transform. */
  lemma {:induction false} NonCarryingFieldYieldsTransform(key: string, v: Value, prefix: FieldPath)
    decreases v
    requires WalkField(key, v, prefix).Success?
    requires !CarriesData(v)
    ensures WalkField(key, v, prefix).value.transforms != []
  {
    match v
    case Map(gs) =>
      assert !CarriesData(gs[0].value);
      NonCarryingFieldsYieldTransform(gs, prefix + [key]);
    case Sentinel(_) =>
  }

  lemma {:induction false} NonCarryingFieldsYieldTransform(fs: seq<Field>, prefix: FieldPath)
    decreases fs
    requires WalkFields(fs, prefix).Success?
    requires fs != [] && !CarriesData(fs[0].value)
    ensures WalkFields(fs, prefix).value.transforms != []
  {
    NonCarryingFieldYieldsTransform(fs[0].key, fs[0].value, prefix);
  }

  /** A non-empty hash walked without error leaves something: a field tree entry or a transform. */
  lemma NonEmptyLeavesSomething(fs: seq<Field>, prefix: FieldPath)
    requires WalkFields(fs, prefix).Success?
    requires fs != []
    ensures WalkFields(fs, prefix).value.fields != [] || WalkFields(fs, prefix).value.transforms != []
  {
    if !CarriesData(fs[0].value) {
      NonCarryingFieldsYieldTransform(fs, prefix);
    }
  }

  // ---------------------------------------------------------------------------------------------
  // Failure

  lemma DeleteCons(fs: seq<Field>)
    requires fs != []
    ensures ContainsDelete(Map(fs)) <==> ContainsDelete(fs[0].value) || ContainsDelete(Map(fs[1..]))
  {
    if ContainsDelete(Map(fs[1..])) {
      var i :| 0 <= i < |fs[1..]| && ContainsDelete(fs[1..][i].value);
      assert fs[i + 1] == fs[1..][i];
    }
    if ContainsDelete(Map(fs)) {
      var i :| 0 <= i < |fs| && ContainsDelete(fs[i].value);
      if i > 0 { assert fs[i] == fs[1..][i - 1]; }
    }
  }

  lemma NestedCons(fs: seq<Field>, t: Transform)
    requires fs != []
    ensures NestedUnderArray(Map(fs), t) <==> NestedUnderArray(fs[0].value, t) || NestedUnderArray(Map(fs[1..]), t)
  {
    if NestedUnderArray(Map(fs[1..]), t) {
      var i :| 0 <= i < |fs[1..]| && NestedUnderArray(fs[1..][i].value, t);
      assert fs[i + 1] == fs[1..][i];
    }
    if NestedUnderArray(Map(fs), t) {
      var i :| 0 <= i < |fs| && NestedUnderArray(fs[i].value, t);
      if i > 0 { assert fs[i] == fs[1..][i - 1]; }
    }
  }

  /** Without deletes, a walk fails exactly when a sentinel sits under an array, and its message names
      such a sentinel. */
  lemma {:induction false} WalkFieldsFailure(fs: seq<Field>, prefix: FieldPath)
    decreases fs
    requires !ContainsDelete(Map(fs))
    ensures WalkFields(fs, prefix).Failure? <==> exists t :: NestedUnderArray(Map(fs), t)
    ensures WalkFields(fs, prefix).Failure? ==>
      exists t :: NestedUnderArray(Map(fs), t) && WalkFields(fs, prefix).error.message == NestedMessage(t)
  {
    if fs != [] {
      DeleteCons(fs);
      WalkFieldFailure(fs[0].key, fs[0].value, prefix);
      WalkFieldsFailure(fs[1..], prefix);
      var r := WalkFields(fs, prefix);
      if WalkField(fs[0].key, fs[0].value, prefix).Failure? {
        var t :| NestedUnderArray(fs[0].value, t) && r.error.message == NestedMessage(t);
        NestedCons(fs, t);
      } else if WalkFields(fs[1..], prefix).Failure? {
        var t :| NestedUnderArray(Map(fs[1..]), t) && r.error.message == NestedMessage(t);
        NestedCons(fs, t);
      } else if exists t :: NestedUnderArray(Map(fs), t) {
        var t :| NestedUnderArray(Map(fs), t);
        NestedCons(fs, t);
        assert false;
      }
    }
  }

  lemma {:induction false} WalkFieldFailure(key: string, v: Value, prefix: FieldPath)
    decreases v
    requires !ContainsDelete(v)
    ensures WalkField(key, v, prefix).Failure? <==> exists t :: NestedUnderArray(v, t)
    ensures WalkField(key, v, prefix).Failure? ==>
      exists t :: NestedUnderArray(v, t) && WalkField(key, v, prefix).error.message == NestedMessage(t)
  {
    match v
    case Raw(_) =>
    case Arr(xs) =>
      EncodeElementsSucceedIffPlain(xs);
      if EncodeElements(xs).Failure? {
        var i := EncodeElementsFailure(xs);
        assert !ContainsDelete(xs[i]);
        var t :| ContainsSentinel(xs[i], t) && EncodeElements(xs).error.message == NestedMessage(t);
        assert NestedUnderArray(v, t);
      } else if exists t :: NestedUnderArray(v, t) {
        var t :| NestedUnderArray(v, t);
        var i :| 0 <= i < |xs| && ContainsSentinel(xs[i], t);
        assert EncodeElements(xs).Success?;
        assert Plain(xs[i]);
        PlainIffNoMarkers(xs[i]);
        assert ContainsSentinel(xs[i], t);
        assert false;
      }
    case Map(gs) =>
      if gs != [] {
        WalkFieldsFailure(gs, prefix + [key]);
      }
    case Sentinel(_) =>
  }
}
