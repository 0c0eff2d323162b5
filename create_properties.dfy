/**
 * What Convert.writes_for_create promises, stated over all inputs: when it fails and with which
 * message, how many writes it returns and which preconditions they carry, what the update write's
 * field tree holds, which field transforms the transform write lists, and in what order.
 */
module CreateProperties {
  import opened Values
  import opened Writes
  import opened FieldPaths
  import opened Locations
  import opened Convert
  import opened EncodeFacts
  import opened WalkFacts

  /** The field tree of the update write among `w`, or nothing when there is none. */
  function FieldsOf(w: seq<Write>): seq<DataField> {
    if w != [] && w[0].UpdateWrite? then w[0].update.fields else []
  }

  /** The field transforms of the transform write among `w`, or none when there is none. */
  function FieldTransformsOf(w: seq<Write>): seq<FieldTransform> {
    if w != [] && w[|w| - 1].TransformWrite? then w[|w| - 1].transform.fieldTransforms else []
  }

  /** Two sentinels of the same type (their operands aside). */
  predicate SameKind(t1: Transform, t2: Transform) {
    match (t1, t2)
    case (ServerTime, ServerTime) => true
    case (ArrayUnion(_), ArrayUnion(_)) => true
    case (ArrayDelete(_), ArrayDelete(_)) => true
    case (Increment(_), Increment(_)) => true
    case (Maximum(_), Maximum(_)) => true
    case (Minimum(_), Minimum(_)) => true
    case _ => false
  }

  /** Some sentinel sits in `data` at a path through hashes only. */
  ghost predicate SentinelReachable(data: seq<Field>) {
    exists q, t :: ValueAt(data, q, Sentinel(t))
  }

  /** `ft` is what the sentinel at the path it names holds, reachable through hashes only. */
  ghost predicate TransformFromData(data: seq<Field>, ft: FieldTransform) {
    exists q :: Dotted(q) == ft.fieldPath && ValueAt(data, q, Sentinel(FromWire(ft.op)))
  }

  lemma SplitOf(documentPath: string, data: seq<Field>)
    requires WritesForCreate(documentPath, data).Success?
    ensures !ContainsDelete(Map(data)) && WalkFields(data, []).Success?
    ensures WritesForCreate(documentPath, data).value == Assemble(documentPath, WalkFields(data, []).value)
  {
  }

  // ---------------------------------------------------------------------------------------------
  // Errors

  /** The two error messages tell every cause apart: a nesting message is never the delete message,
      and two nesting messages are equal exactly when they name sentinels of the same type. */
  lemma {:induction false} MessagesIdentifyCause(t1: Transform, t2: Transform)
    ensures NestedMessage(t1) != DeleteMessage
    ensures NestedMessage(t1) == NestedMessage(t2) <==> SameKind(t1, t2)
  {
    var m1, m2 := NestedMessage(t1), NestedMessage(t2);
    assert m1[..6] == "cannot";
    assert DeleteMessage[..6] == "DELETE";
    if m1 == m2 {
      var n := |"cannot nest "|;
      assert |TypeName(t1)| == |TypeName(t2)|;
      assert m1[n..n + |TypeName(t1)|] == TypeName(t1);
      assert m2[n..n + |TypeName(t2)|] == TypeName(t2);
    }
  }

  /** A create fails exactly when the data holds a delete anywhere or a sentinel under an array. A
      delete anywhere fails with the delete message; otherwise the message names a sentinel that sits
      under an array. */
  lemma CreateFailure(documentPath: string, data: seq<Field>)
    ensures WritesForCreate(documentPath, data).Failure? <==>
      ContainsDelete(Map(data)) || exists t :: NestedUnderArray(Map(data), t)
    ensures ContainsDelete(Map(data)) ==>
      WritesForCreate(documentPath, data).error.message == DeleteMessage
    ensures WritesForCreate(documentPath, data).Failure? && !ContainsDelete(Map(data)) ==>
      exists t :: NestedUnderArray(Map(data), t) && WritesForCreate(documentPath, data).error.message == NestedMessage(t)
  {
    if !ContainsDelete(Map(data)) {
      WalkFieldsFailure(data, []);
    }
  }

  // ---------------------------------------------------------------------------------------------
  // Plain data

  /** Plain data, however nested: one update write that holds exactly that data, with the create
      precondition, and no transform write. */
  lemma PlainDocument(documentPath: string, tree: seq<DataField>)
    ensures WritesForCreate(documentPath, DecodeFields(tree)) ==
      Success([UpdateWrite(Document(documentPath, tree), Some(Exists(false)))])
  {
    var data := DecodeFields(tree);
    EncodeDecode(MapValue(tree));
    assert Decode(MapValue(tree)) == Map(data);
    EncodeSucceedsIffPlain(Map(data));
    PlainIffNoMarkers(Map(data));
    assert !ContainsDelete(Map(data));
    WalkFieldsDecoded(tree, []);
    var none: seq<PathTransform> := [];
    assert Assemble(documentPath, Split(tree, none)) ==
      [UpdateWrite(Document(documentPath, tree), Some(Exists(false)))];
  }

  /** The same, from the caller's side: data with no sentinel and no delete is written whole, and
      its field tree reads back as the data. */
  lemma PlainData(documentPath: string, data: seq<Field>)
    requires forall i :: 0 <= i < |data| ==> Plain(data[i].value)
    ensures EncodeFields(data).Success?
    ensures WritesForCreate(documentPath, data) ==
      Success([UpdateWrite(Document(documentPath, EncodeFields(data).value), Some(Exists(false)))])
    ensures DecodeFields(EncodeFields(data).value) == data
  {
    EncodeFieldsSucceedIffPlain(data);
    PlainDocument(documentPath, EncodeFields(data).value);
  }

  /** Empty data: one update write with no fields and the create precondition. */
  lemma EmptyDocument(documentPath: string)
    ensures WritesForCreate(documentPath, []) ==
      Success([UpdateWrite(Document(documentPath, []), Some(Exists(false)))])
  {
    PlainDocument(documentPath, []);
  }

  // ---------------------------------------------------------------------------------------------
  // Write count and preconditions

  /** The update write is there exactly when the data is empty or some field carries data. */
  lemma UpdateWritePresent(documentPath: string, data: seq<Field>)
    requires WritesForCreate(documentPath, data).Success?
    ensures WritesForCreate(documentPath, data).value[0].UpdateWrite? <==>
      data == [] || exists i :: 0 <= i < |data| && CarriesData(data[i].value)
  {
    SplitOf(documentPath, data);
    var split := WalkFields(data, []).value;
    CarryingKeysEmpty(data);
    assert split.fields == [] <==> CarryingKeys(data) == [] by {
      assert |DataKeys(split.fields)| == |split.fields|;
    }
    if data != [] {
      NonEmptyLeavesSomething(data, []);
    }
  }

  /** The walk collects some transform exactly when a sentinel is reachable through hashes. */
  lemma TransformsCollected(data: seq<Field>)
    requires WalkFields(data, []).Success?
    ensures WalkFields(data, []).value.transforms != [] <==> SentinelReachable(data)
  {
    var pts := WalkFields(data, []).value.transforms;
    if pts != [] {
      WalkFieldsTransformsFound(data, []);
      var pt := pts[0];
      assert pt.path[0..] == pt.path;
      assert ValueAt(data, pt.path, Sentinel(pt.transform));
    }
    if SentinelReachable(data) {
      var q, t :| ValueAt(data, q, Sentinel(t));
      WalkFieldsTransformsComplete(data, [], q, t);
    }
  }

  /** The transform write is there exactly when a sentinel is reachable through hashes. */
  lemma TransformWritePresent(documentPath: string, data: seq<Field>)
    requires WritesForCreate(documentPath, data).Success?
    ensures var w := WritesForCreate(documentPath, data).value;
      w[|w| - 1].TransformWrite? <==> SentinelReachable(data)
  {
    SplitOf(documentPath, data);
    TransformsCollected(data);
  }

  /** One or two writes, all for the document. The update write is there exactly when the data is
      empty or some field carries data; the transform write exactly when a sentinel is reachable
      through hashes. The first write carries the create precondition; a transform write after an
      update write carries none. */
  lemma CreateWrites(documentPath: string, data: seq<Field>)
    requires WritesForCreate(documentPath, data).Success?
    ensures var w := WritesForCreate(documentPath, data).value;
      && 1 <= |w| <= 2
      && w[0].currentDocument == Some(Exists(false))
      && (|w| == 2 ==> w[0].UpdateWrite? && w[1].TransformWrite? && w[1].currentDocument == None)
    ensures var w := WritesForCreate(documentPath, data).value;
      w[0].UpdateWrite? <==> data == [] || exists i :: 0 <= i < |data| && CarriesData(data[i].value)
    ensures var w := WritesForCreate(documentPath, data).value;
      w[|w| - 1].TransformWrite? <==> SentinelReachable(data)
    ensures var w := WritesForCreate(documentPath, data).value;
      forall j :: 0 <= j < |w| && w[j].UpdateWrite? ==> w[j].update.name == documentPath
    ensures var w := WritesForCreate(documentPath, data).value;
      forall j :: 0 <= j < |w| && w[j].TransformWrite? ==> w[j].transform.document == documentPath
  {
    SplitOf(documentPath, data);
    UpdateWritePresent(documentPath, data);
    TransformWritePresent(documentPath, data);
  }

  /** The update write is there exactly when the field tree is non-empty or the data itself is empty:
      a non-empty document made only of sentinels gets no empty update write. */
  lemma UpdateWriteRule(documentPath: string, data: seq<Field>)
    requires WritesForCreate(documentPath, data).Success?
    ensures var w := WritesForCreate(documentPath, data).value;
      w[0].UpdateWrite? <==> FieldsOf(w) != [] || data == []
  {
    SplitOf(documentPath, data);
    if data != [] {
      NonEmptyLeavesSomething(data, []);
    }
  }

  // ---------------------------------------------------------------------------------------------
  // Contents

  /** The update write's field tree: its top-level keys are, verbatim and in order, the keys of the
      fields that carry data; every leaf of the data (scalar, array, empty hash) is in it at the same
      path, encoded; and every leaf in it is what the data holds at that path. */
  lemma CreateFieldTree(documentPath: string, data: seq<Field>)
    requires WritesForCreate(documentPath, data).Success?
    ensures var fields := FieldsOf(WritesForCreate(documentPath, data).value);
      && DataKeys(fields) == CarryingKeys(data)
      && (forall q, v :: ValueAt(data, q, v) && Leaf(v) ==>
            EncodeElement(v).Success? && DataAt(fields, q, EncodeElement(v).value))
      && (forall q, d :: DataAt(fields, q, d) && DataLeaf(d) ==> ValueAt(data, q, Decode(d)))
  {
    SplitOf(documentPath, data);
    var split := WalkFields(data, []).value;
    assert FieldsOf(WritesForCreate(documentPath, data).value) == split.fields;
    forall q, v | ValueAt(data, q, v) && Leaf(v)
      ensures EncodeElement(v).Success? && DataAt(split.fields, q, EncodeElement(v).value)
    {
      WalkFieldsKeepsLeaf(data, [], q, v);
    }
    forall q, d | DataAt(split.fields, q, d) && DataLeaf(d)
      ensures ValueAt(data, q, Decode(d))
    {
      WalkFieldsLeafFromData(data, [], q, d);
    }
  }

  /** The transform write's field transforms: each one is, at its dotted path, a sentinel of the data
      reachable through hashes, with its operand passed through; and every such sentinel is listed. */
  lemma CreateFieldTransforms(documentPath: string, data: seq<Field>)
    requires WritesForCreate(documentPath, data).Success?
    ensures var fts := FieldTransformsOf(WritesForCreate(documentPath, data).value);
      && (forall j :: 0 <= j < |fts| ==> TransformFromData(data, fts[j]))
      && (forall q, t :: ValueAt(data, q, Sentinel(t)) ==> FieldTransform(Dotted(q), ToWire(t)) in fts)
  {
    SplitOf(documentPath, data);
    var split := WalkFields(data, []).value;
    var fts := FieldTransformsOf(WritesForCreate(documentPath, data).value);
    assert fts == Render(split.transforms);
    WalkFieldsTransformsFound(data, []);
    forall j | 0 <= j < |fts|
      ensures TransformFromData(data, fts[j])
    {
      var pt := split.transforms[j];
      assert pt.path[0..] == pt.path;
      assert ValueAt(data, pt.path, Sentinel(pt.transform));
      assert Dotted(pt.path) == fts[j].fieldPath && FromWire(fts[j].op) == pt.transform;
      assert Dotted(pt.path) == fts[j].fieldPath && ValueAt(data, pt.path, Sentinel(FromWire(fts[j].op)));
    }
    forall q, t | ValueAt(data, q, Sentinel(t))
      ensures FieldTransform(Dotted(q), ToWire(t)) in fts
    {
      WalkFieldsTransformsComplete(data, [], q, t);
      var j :| 0 <= j < |split.transforms| && split.transforms[j] == PathTransform([] + q, t);
      assert [] + q == q;
      assert fts[j] == FieldTransform(Dotted(q), ToWire(t));
    }
  }

  // ---------------------------------------------------------------------------------------------
  // Order

  lemma DeleteAppend(f1: seq<Field>, f2: seq<Field>)
    ensures ContainsDelete(Map(f1 + f2)) <==> ContainsDelete(Map(f1)) || ContainsDelete(Map(f2))
  {
    var f := f1 + f2;
    if ContainsDelete(Map(f)) {
      var i :| 0 <= i < |f| && ContainsDelete(f[i].value);
      if i < |f1| { assert f[i] == f1[i]; } else { assert f[i] == f2[i - |f1|]; }
    }
    if ContainsDelete(Map(f1)) {
      var i :| 0 <= i < |f1| && ContainsDelete(f1[i].value);
      assert f[i] == f1[i];
    }
    if ContainsDelete(Map(f2)) {
      var i :| 0 <= i < |f2| && ContainsDelete(f2[i].value);
      assert f[i + |f1|] == f2[i];
    }
  }

  lemma RenderAppend(a: seq<PathTransform>, b: seq<PathTransform>)
    ensures Render(a + b) == Render(a) + Render(b)
  {
    assert |Render(a + b)| == |Render(a) + Render(b)|;
    forall j | 0 <= j < |a + b| ensures Render(a + b)[j] == (Render(a) + Render(b))[j] {
      if j < |a| { assert (a + b)[j] == a[j]; } else { assert (a + b)[j] == b[j - |a|]; }
    }
  }

  lemma AssembledParts(documentPath: string, split: Split)
    ensures FieldsOf(Assemble(documentPath, split)) == split.fields
    ensures FieldTransformsOf(Assemble(documentPath, split)) == Render(split.transforms)
  {
  }

  /** Insertion order: creating the fields `f1` followed by the fields `f2` succeeds exactly when each
      run alone would, and then its field tree and its field transforms are those of `f1` followed by
      those of `f2`. */
  lemma CreateConcatenation(documentPath: string, f1: seq<Field>, f2: seq<Field>)
    ensures WritesForCreate(documentPath, f1 + f2).Success? <==>
      WritesForCreate(documentPath, f1).Success? && WritesForCreate(documentPath, f2).Success?
    ensures WritesForCreate(documentPath, f1 + f2).Success? ==>
      && FieldsOf(WritesForCreate(documentPath, f1 + f2).value) ==
           FieldsOf(WritesForCreate(documentPath, f1).value) + FieldsOf(WritesForCreate(documentPath, f2).value)
      && FieldTransformsOf(WritesForCreate(documentPath, f1 + f2).value) ==
           FieldTransformsOf(WritesForCreate(documentPath, f1).value) + FieldTransformsOf(WritesForCreate(documentPath, f2).value)
  {
    DeleteAppend(f1, f2);
    WalkFieldsAppend(f1, f2, []);
    var r1, r2 := WalkFields(f1, []), WalkFields(f2, []);
    if !ContainsDelete(Map(f1 + f2)) && r1.Success? && r2.Success? {
      var a, b := r1.value, r2.value;
      AssembledParts(documentPath, a);
      AssembledParts(documentPath, b);
      AssembledParts(documentPath, Split(a.fields + b.fields, a.transforms + b.transforms));
      RenderAppend(a.transforms, b.transforms);
    }
  }
}
