/**
 * The documented create scenarios, one lemma each: the exact writes (or the exact error) that
 * Convert.writes_for_create returns for each example document. The sentinel scenarios are stated
 * once for an arbitrary sentinel, so they cover server time, array union, array delete, increment,
 * maximum and minimum alike; the operands the examples use are checked separately.
 */
module CreateScenarios {
  import opened Values
  import opened Writes
  import opened FieldPaths
  import opened Convert
  import opened WalkFacts
  import opened CreateProperties

  const DocumentPath := "projects/projectID/databases/(default)/documents/C/d"

  function Int(n: int): Value { Raw(IntegerValue(n)) }

  function IntData(n: int): Data { ScalarValue(IntegerValue(n)) }

  /** The create precondition: the document must not exist yet. */
  const MustNotExist: Option<Precondition> := Some(Exists(false))

  /** A create whose data holds no delete is the assembly of its walk. */
  lemma CreateFromWalk(data: seq<Field>, split: Split)
    requires !ContainsDelete(Map(data))
    requires WalkFields(data, []) == Success(split)
    ensures WritesForCreate(DocumentPath, data) == Success(Assemble(DocumentPath, split))
  {
  }

  lemma WalkSingle(f: Field, prefix: FieldPath)
    ensures WalkFields([f], prefix) == WalkField(f.key, f.value, prefix)
  {
    WalkFieldsCons([f], prefix);
    assert [f][1..] == [];
    WalkFieldsNil(prefix);
    var r := WalkField(f.key, f.value, prefix);
    if r.Success? {
      var none: seq<DataField> := [];
      var nothing: seq<PathTransform> := [];
      assert r.value.fields + none == r.value.fields;
      assert r.value.transforms + nothing == r.value.transforms;
    }
  }

  /** Fields and transforms both: the update write first, with the precondition, then the transform write. */
  lemma AssembleBoth(fields: seq<DataField>, pts: seq<PathTransform>)
    requires fields != [] && pts != []
    ensures Assemble(DocumentPath, Split(fields, pts)) ==
      [UpdateWrite(Document(DocumentPath, fields), MustNotExist),
       TransformWrite(DocumentTransform(DocumentPath, Render(pts)), None)]
  {
  }

  lemma WalkPair(f1: Field, f2: Field, prefix: FieldPath)
    ensures WalkFields([f1, f2], prefix) == Join(WalkField(f1.key, f1.value, prefix), WalkField(f2.key, f2.value, prefix))
  {
    WalkFieldsCons([f1, f2], prefix);
    assert [f1, f2][1..] == [f2];
    WalkSingle(f2, prefix);
  }

  lemma RenderOne(path: FieldPath, t: Transform)
    ensures Render([PathTransform(path, t)]) == [FieldTransform(Dotted(path), ToWire(t))]
  {
  }

  lemma RenderTwo(p1: FieldPath, p2: FieldPath, t: Transform)
    ensures Render([PathTransform(p1, t), PathTransform(p2, t)]) ==
      [FieldTransform(Dotted(p1), ToWire(t)), FieldTransform(Dotted(p2), ToWire(t))]
  {
  }

  /** Joining the walk of a plain field with a walk that kept no fields. */
  lemma JoinPlainWithTransforms(fields: seq<DataField>, pts: seq<PathTransform>)
    ensures Join(Success(Split(fields, [])), Success(Split([], pts))) == Success(Split(fields, pts))
  {
    var none: seq<DataField> := [];
    var nothing: seq<PathTransform> := [];
    assert fields + none == fields;
    assert nothing + pts == pts;
  }

  /** The walk of `key: 1` at the root. */
  lemma WalkOne(key: string)
    ensures WalkField(key, Int(1), []) == Success(Split([DataField(key, IntData(1))], []))
  {
  }

  /** The walk of `key: t` at `prefix`. */
  lemma WalkSentinel(key: string, t: Transform, prefix: FieldPath)
    ensures WalkField(key, Sentinel(t), prefix) == Success(Split([], [PathTransform(prefix + [key], t)]))
  {
  }

  /** The walk of `key: {inner: t}` at the root: nothing is kept, the transform is at `key.inner`. */
  lemma WalkNestedSentinel(key: string, inner: string, t: Transform)
    ensures WalkField(key, Map([Field(inner, Sentinel(t))]), []) ==
      Success(Split([], [PathTransform([key, inner], t)]))
  {
    var prefix: FieldPath := [] + [key];
    assert prefix == [key];
    WalkSingle(Field(inner, Sentinel(t)), prefix);
    WalkSentinel(inner, t, prefix);
    assert prefix + [inner] == [key, inner];
    var none: seq<DataField> := [];
    assert WalkFields([Field(inner, Sentinel(t))], prefix) == Success(Split(none, [PathTransform([key, inner], t)]));
  }

  lemma BasicCreate()
    ensures WritesForCreate(DocumentPath, [Field("a", Int(1))]) ==
      Success([UpdateWrite(Document(DocumentPath, [DataField("a", IntData(1))]), MustNotExist)])
  {
    var tree := [DataField("a", IntData(1))];
    DecodeFieldsAt(tree);
    assert DecodeFields(tree) == [Field("a", Int(1))];
    PlainDocument(DocumentPath, tree);
  }

  /** `{ a: [1, 2.5], b: { c: ["three", { d: true }] } }`: arrays and nested hashes are written whole. */
  lemma ComplexCreate()
    ensures WritesForCreate(DocumentPath, [
        Field("a", Arr([Int(1), Raw(DoubleValue("2.5"))])),
        Field("b", Map([Field("c", Arr([Raw(StringValue("three")), Map([Field("d", Raw(BooleanValue(true)))])]))]))
      ]) ==
      Success([UpdateWrite(Document(DocumentPath, [
        DataField("a", ArrayValue([IntData(1), ScalarValue(DoubleValue("2.5"))])),
        DataField("b", MapValue([DataField("c", ArrayValue([
          ScalarValue(StringValue("three")),
          MapValue([DataField("d", ScalarValue(BooleanValue(true)))])]))]))
      ]), MustNotExist)])
  {
    var d := [DataField("d", ScalarValue(BooleanValue(true)))];
    DecodeFieldsAt(d);
    assert DecodeFields(d) == [Field("d", Raw(BooleanValue(true)))];
    var c := [ScalarValue(StringValue("three")), MapValue(d)];
    DecodeElementsAt(c);
    assert DecodeElements(c) == [Raw(StringValue("three")), Map([Field("d", Raw(BooleanValue(true)))])];
    var b := [DataField("c", ArrayValue(c))];
    DecodeFieldsAt(b);
    assert DecodeFields(b) == [Field("c", Arr([Raw(StringValue("three")), Map([Field("d", Raw(BooleanValue(true)))])]))];
    var a := [IntData(1), ScalarValue(DoubleValue("2.5"))];
    DecodeElementsAt(a);
    assert DecodeElements(a) == [Int(1), Raw(DoubleValue("2.5"))];
    var tree := [DataField("a", ArrayValue(a)), DataField("b", MapValue(b))];
    DecodeFieldsAt(tree);
    assert DecodeFields(tree) == [
      Field("a", Arr([Int(1), Raw(DoubleValue("2.5"))])),
      Field("b", Map([Field("c", Arr([Raw(StringValue("three")), Map([Field("d", Raw(BooleanValue(true)))])]))]))
    ];
    PlainDocument(DocumentPath, tree);
  }

  lemma EmptyCreate()
    ensures WritesForCreate(DocumentPath, []) == Success([UpdateWrite(Document(DocumentPath, []), MustNotExist)])
  {
    EmptyDocument(DocumentPath);
  }

  /** Keys are taken verbatim: a dot in a key is not a path separator. */
  lemma DottedKeysNotSplit()
    ensures WritesForCreate(DocumentPath, [Field("a.b", Map([Field("c.d", Int(1))])), Field("e", Int(2))]) ==
      Success([UpdateWrite(Document(DocumentPath,
        [DataField("a.b", MapValue([DataField("c.d", IntData(1))])), DataField("e", IntData(2))]), MustNotExist)])
  {
    var inner := [DataField("c.d", IntData(1))];
    var tree := [DataField("a.b", MapValue(inner)), DataField("e", IntData(2))];
    DecodeFieldsAt(inner);
    assert DecodeFields(inner) == [Field("c.d", Int(1))];
    DecodeFieldsAt(tree);
    assert DecodeFields(tree) == [Field("a.b", Map([Field("c.d", Int(1))])), Field("e", Int(2))];
    PlainDocument(DocumentPath, tree);
  }

  lemma NonAlphaKeys()
    ensures WritesForCreate(DocumentPath, [Field("*", Map([Field(".", Int(1))])), Field("~", Int(2))]) ==
      Success([UpdateWrite(Document(DocumentPath,
        [DataField("*", MapValue([DataField(".", IntData(1))])), DataField("~", IntData(2))]), MustNotExist)])
  {
    var inner := [DataField(".", IntData(1))];
    var tree := [DataField("*", MapValue(inner)), DataField("~", IntData(2))];
    DecodeFieldsAt(inner);
    assert DecodeFields(inner) == [Field(".", Int(1))];
    DecodeFieldsAt(tree);
    assert DecodeFields(tree) == [Field("*", Map([Field(".", Int(1))])), Field("~", Int(2))];
    PlainDocument(DocumentPath, tree);
  }

  lemma DeleteInData()
    ensures WritesForCreate(DocumentPath, [Field("a", Int(1)), Field("b", Delete)]) ==
      Failure(ArgumentError("DELETE not allowed on create"))
  {
    var data := [Field("a", Int(1)), Field("b", Delete)];
    assert ContainsDelete(data[1].value);
  }

  lemma SentinelAlone(t: Transform)
    ensures WritesForCreate(DocumentPath, [Field("a", Sentinel(t))]) ==
      Success([TransformWrite(DocumentTransform(DocumentPath, [FieldTransform("a", ToWire(t))]), MustNotExist)])
  {
    var data := [Field("a", Sentinel(t))];
    assert !ContainsDelete(data[0].value);
    WalkSingle(data[0], []);
    var none: seq<DataField> := [];
    var split := Split(none, [PathTransform(["a"], t)]);
    assert [] + ["a"] == ["a"];
    assert !ContainsDelete(Map(data));
    assert WalkField("a", Sentinel(t), []) == Success(split);
    CreateFromWalk(data, split);
    RenderOne(["a"], t);
    assert Dotted(["a"]) == "a";
    assert Assemble(DocumentPath, split) ==
      [TransformWrite(DocumentTransform(DocumentPath, [FieldTransform("a", ToWire(t))]), MustNotExist)];
  }

  lemma SentinelWithData(t: Transform)
    ensures WritesForCreate(DocumentPath, [Field("a", Int(1)), Field("b", Sentinel(t))]) ==
      Success([
        UpdateWrite(Document(DocumentPath, [DataField("a", IntData(1))]), MustNotExist),
        TransformWrite(DocumentTransform(DocumentPath, [FieldTransform("b", ToWire(t))]), None)])
  {
    var data := [Field("a", Int(1)), Field("b", Sentinel(t))];
    assert !ContainsDelete(data[0].value) && !ContainsDelete(data[1].value);
    assert !ContainsDelete(Map(data));
    WalkPair(data[0], data[1], []);
    WalkOne("a");
    WalkSentinel("b", t, []);
    assert [] + ["b"] == ["b"];
    var split := Split([DataField("a", IntData(1))], [PathTransform(["b"], t)]);
    JoinPlainWithTransforms(split.fields, split.transforms);
    assert WalkFields(data, []) == Success(split);
    CreateFromWalk(data, split);
    AssembleBoth(split.fields, split.transforms);
    RenderOne(["b"], t);
    assert Dotted(["b"]) == "b";
  }

  function MultipleData(t: Transform): seq<Field> {
    [Field("a", Int(1)), Field("b", Sentinel(t)), Field("c", Map([Field("d", Sentinel(t))]))]
  }

  lemma WalkMultiple(t: Transform)
    ensures !ContainsDelete(Map(MultipleData(t)))
    ensures WalkFields(MultipleData(t), []) ==
      Success(Split([DataField("a", IntData(1))], [PathTransform(["b"], t), PathTransform(["c", "d"], t)]))
  {
    var data := MultipleData(t);
    assert !ContainsDelete(data[2].value.fields[0].value);
    assert !ContainsDelete(data[0].value) && !ContainsDelete(data[1].value) && !ContainsDelete(data[2].value);
    var pts := [PathTransform(["b"], t), PathTransform(["c", "d"], t)];
    var none: seq<DataField> := [];
    assert WalkFields(data[1..], []) == Success(Split(none, pts)) by {
      assert data[1..] == [data[1], data[2]];
      WalkPair(data[1], data[2], []);
      WalkSentinel("b", t, []);
      assert [] + ["b"] == ["b"];
      WalkNestedSentinel("c", "d", t);
      assert none + none == none;
      assert [PathTransform(["b"], t)] + [PathTransform(["c", "d"], t)] == pts;
    }
    WalkFieldsCons(data, []);
    WalkOne("a");
    JoinPlainWithTransforms([DataField("a", IntData(1))], pts);
  }

  /** The transforms are listed in the order the sentinels appear, depth first; `c` holds only a
      sentinel and so is not in the field tree. */
  lemma MultipleSentinels(t: Transform)
    ensures WritesForCreate(DocumentPath, MultipleData(t)) ==
      Success([
        UpdateWrite(Document(DocumentPath, [DataField("a", IntData(1))]), MustNotExist),
        TransformWrite(DocumentTransform(DocumentPath,
          [FieldTransform("b", ToWire(t)), FieldTransform("c.d", ToWire(t))]), None)])
  {
    var data := MultipleData(t);
    var pts := [PathTransform(["b"], t), PathTransform(["c", "d"], t)];
    var split := Split([DataField("a", IntData(1))], pts);
    WalkMultiple(t);
    CreateFromWalk(data, split);
    AssembleBoth(split.fields, pts);
    RenderTwo(["b"], ["c", "d"], t);
    assert Dotted(["b"]) == "b";
    assert Dotted(["c", "d"]) == "c.d";
  }

  lemma NestedSentinel(t: Transform)
    ensures WritesForCreate(DocumentPath, [Field("a", Int(1)), Field("b", Map([Field("c", Sentinel(t))]))]) ==
      Success([
        UpdateWrite(Document(DocumentPath, [DataField("a", IntData(1))]), MustNotExist),
        TransformWrite(DocumentTransform(DocumentPath, [FieldTransform("b.c", ToWire(t))]), None)])
  {
    var data := [Field("a", Int(1)), Field("b", Map([Field("c", Sentinel(t))]))];
    assert !ContainsDelete(data[1].value.fields[0].value);
    assert !ContainsDelete(data[0].value) && !ContainsDelete(data[1].value);
    assert !ContainsDelete(Map(data));
    WalkPair(data[0], data[1], []);
    WalkOne("a");
    WalkNestedSentinel("b", "c", t);
    var split := Split([DataField("a", IntData(1))], [PathTransform(["b", "c"], t)]);
    JoinPlainWithTransforms(split.fields, split.transforms);
    assert WalkFields(data, []) == Success(split);
    CreateFromWalk(data, split);
    AssembleBoth(split.fields, split.transforms);
    RenderOne(["b", "c"], t);
    assert Dotted(["b", "c"]) == "b.c";
  }

  lemma SentinelInsideArrayElement(t: Transform)
    ensures WritesForCreate(DocumentPath, [Field("a", Arr([Int(1), Map([Field("b", Sentinel(t))])]))]) ==
      Failure(ArgumentError(NestedMessage(t)))
  {
    var inner := [Field("b", Sentinel(t))];
    var xs := [Int(1), Map(inner)];
    var data := [Field("a", Arr(xs))];
    assert !ContainsDelete(inner[0].value);
    assert !ContainsDelete(xs[0]) && !ContainsDelete(xs[1]);
    assert !ContainsDelete(data[0].value);
    assert !ContainsDelete(Map(data));
    assert EncodeFields(inner) == Failure(ArgumentError(NestedMessage(t)));
    assert xs[1..] == [Map(inner)];
    assert EncodeElements(xs[1..]) == Failure(ArgumentError(NestedMessage(t)));
    assert EncodeElements(xs) == Failure(ArgumentError(NestedMessage(t)));
    WalkSingle(data[0], []);
    assert WalkFields(data, []) == Failure(ArgumentError(NestedMessage(t)));
  }

  lemma SentinelInArray(t: Transform)
    ensures WritesForCreate(DocumentPath, [Field("a", Arr([Int(1), Int(2), Sentinel(t)]))]) ==
      Failure(ArgumentError(NestedMessage(t)))
  {
    var xs := [Int(1), Int(2), Sentinel(t)];
    var data := [Field("a", Arr(xs))];
    assert !ContainsDelete(xs[0]) && !ContainsDelete(xs[1]) && !ContainsDelete(xs[2]);
    assert !ContainsDelete(data[0].value);
    assert !ContainsDelete(Map(data));
    assert xs[1..] == [Int(2), Sentinel(t)];
    assert xs[1..][1..] == [Sentinel(t)];
    assert EncodeElements([Sentinel(t)]) == Failure(ArgumentError(NestedMessage(t)));
    assert EncodeElements(xs[1..]) == Failure(ArgumentError(NestedMessage(t)));
    assert EncodeElements(xs) == Failure(ArgumentError(NestedMessage(t)));
    WalkSingle(data[0], []);
    assert WalkFields(data, []) == Failure(ArgumentError(NestedMessage(t)));
  }

  /** The operations the example sentinels become: server time, the union of 1, 2 and 3, the removal
      of 7, 8 and 9, and increment, maximum and minimum by 1. */
  lemma ExampleOperations()
    ensures ToWire(ServerTime) == SetToServerValue(RequestTime)
    ensures ToWire(ArrayUnion([IntData(1), IntData(2), IntData(3)])) ==
      AppendMissingElements([IntData(1), IntData(2), IntData(3)])
    ensures ToWire(ArrayDelete([IntData(7), IntData(8), IntData(9)])) ==
      RemoveAllFromArray([IntData(7), IntData(8), IntData(9)])
    ensures ToWire(Increment(IntData(1))) == IncrementBy(IntData(1))
    ensures ToWire(Maximum(IntData(1))) == MaximumOf(IntData(1))
    ensures ToWire(Minimum(IntData(1))) == MinimumOf(IntData(1))
  {
  }

  /** The exact messages for each kind of sentinel nested under an array. */
  lemma ServerTimeMessage()
    ensures NestedMessage(ServerTime) == "cannot nest server_time under arrays"
  {
  }

  lemma ArrayUnionMessage(elements: seq<Data>)
    ensures NestedMessage(ArrayUnion(elements)) == "cannot nest array_union under arrays"
  {
  }

  lemma ArrayDeleteMessage(elements: seq<Data>)
    ensures NestedMessage(ArrayDelete(elements)) == "cannot nest array_delete under arrays"
  {
  }

  lemma IncrementMessage(operand: Data)
    ensures NestedMessage(Increment(operand)) == "cannot nest increment under arrays"
  {
  }

  lemma MaximumMessage(operand: Data)
    ensures NestedMessage(Maximum(operand)) == "cannot nest maximum under arrays"
  {
  }

  lemma MinimumMessage(operand: Data)
    ensures NestedMessage(Minimum(operand)) == "cannot nest minimum under arrays"
  {
  }
}
