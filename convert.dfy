/**
 * The create conversion, Convert.writes_for_create(document_path, data): it splits the caller's
 * data into a field tree of plain data and a list of field transforms, and assembles at most two
 * writes from them.
 */
module Convert {
  import opened Values
  import opened Writes
  import opened FieldPaths
  import opened Locations

  /** The ArgumentError a create raises, with its message. */
  datatype ArgumentError = ArgumentError(message: string)

  datatype Result<+T> = Success(value: T) | Failure(error: ArgumentError) {
    predicate IsFailure() { Failure? }

    function PropagateFailure<U>(): Result<U>
      requires Failure?
    {
      Failure(error)
    }

    function Extract(): T
      requires Success?
    {
      value
    }
  }

  const DeleteMessage: string := "DELETE not allowed on create"

  /** The sentinel's type as it appears in error messages. */
  function TypeName(t: Transform): string
  {
    match t
    case ServerTime => "server_time"
    case ArrayUnion(_) => "array_union"
    case ArrayDelete(_) => "array_delete"
    case Increment(_) => "increment"
    case Maximum(_) => "maximum"
    case Minimum(_) => "minimum"
  }

  function NestedMessage(t: Transform): string
  {
    "cannot nest " + TypeName(t) + " under arrays"
  }

  /** The delete check made over the whole data before anything else: a delete at any depth,
      inside arrays too. */
  predicate ContainsDelete(v: Value)
    decreases v
  {
    match v
    case Delete => true
    case Arr(xs) => exists i :: 0 <= i < |xs| && ContainsDelete(xs[i])
    case Map(fs) => exists i :: 0 <= i < |fs| && ContainsDelete(fs[i].value)
    case _ => false
  }

  /** Encodes a value found inside an array. A sentinel there is refused with the first one met in a
      depth-first scan; a hash is encoded whole. What is encoded decodes back to the value. */
  function EncodeElement(v: Value): (r: Result<Data>)
    decreases v
    ensures r.Success? ==> Decode(r.value) == v
  {
    match v
    case Raw(s) => Success(ScalarValue(s))
    case Arr(xs) =>
      var ds :- EncodeElements(xs);
      Success(ArrayValue(ds))
    case Map(fs) =>
      var ds :- EncodeFields(fs);
      Success(MapValue(ds))
    case Delete => Failure(ArgumentError(DeleteMessage))
    case Sentinel(t) => Failure(ArgumentError(NestedMessage(t)))
  }

  function EncodeElements(xs: seq<Value>): (r: Result<seq<Data>>)
    decreases xs
    ensures r.Success? ==> DecodeElements(r.value) == xs
  {
    if xs == [] then Success([])
    else
      var d :- EncodeElement(xs[0]);
      var ds :- EncodeElements(xs[1..]);
      Success([d] + ds)
  }

  function EncodeFields(fs: seq<Field>): (r: Result<seq<DataField>>)
    decreases fs
    ensures r.Success? ==> DecodeFields(r.value) == fs
  {
    if fs == [] then Success([])
    else
      var d :- EncodeElement(fs[0].value);
      var ds :- EncodeFields(fs[1..]);
      Success([DataField(fs[0].key, d)] + ds)
  }

  /** A transform found at a field path, before the path is rendered. */
  datatype PathTransform = PathTransform(path: FieldPath, transform: Transform)

  /** What the walk collects: the field tree and the transforms in the order they were met. */
  datatype Split = Split(fields: seq<DataField>, transforms: seq<PathTransform>)

  /** Every path in `pts` lies strictly below `prefix`. */
  predicate Below(prefix: FieldPath, pts: seq<PathTransform>) {
    forall j :: 0 <= j < |pts| ==> |prefix| < |pts[j].path| && pts[j].path[..|prefix|] == prefix
  }

  lemma BelowExtended(prefix: FieldPath, key: string, pts: seq<PathTransform>)
    requires Below(prefix + [key], pts)
    ensures Below(prefix, pts)
    ensures forall j :: 0 <= j < |pts| ==> pts[j].path[|prefix|] == key
  {
    forall j | 0 <= j < |pts|
      ensures |prefix| < |pts[j].path| && pts[j].path[..|prefix|] == prefix && pts[j].path[|prefix|] == key
    {
      var p := pts[j].path;
      assert p[..|prefix| + 1] == prefix + [key];
      assert p[..|prefix|] == p[..|prefix| + 1][..|prefix|];
      assert p[|prefix|] == p[..|prefix| + 1][|prefix|];
    }
  }

  /** Walks the field `key: v` of a hash at `prefix`. A scalar or array is kept (an array is
      encoded whole, after its sentinel check); a sentinel is collected at `prefix + [key]`; an
      empty hash is kept; a non-empty hash is walked and kept only when something of it remains. */
  function WalkField(key: string, v: Value, prefix: FieldPath): (r: Result<Split>)
    decreases v
    ensures r.Success? ==> DataKeys(r.value.fields) == if CarriesData(v) then [key] else []
    ensures r.Success? ==> Below(prefix, r.value.transforms)
    ensures r.Success? ==> forall j :: 0 <= j < |r.value.transforms| ==> r.value.transforms[j].path[|prefix|] == key
  {
    match v
    case Raw(s) => Success(Split([DataField(key, ScalarValue(s))], []))
    case Arr(xs) =>
      var ds :- EncodeElements(xs);
      Success(Split([DataField(key, ArrayValue(ds))], []))
    case Map(fs) =>
      if fs == [] then Success(Split([DataField(key, MapValue([]))], []))
      else
        var nested :- WalkFields(fs, prefix + [key]);
        CarryingKeysEmpty(fs);
        BelowExtended(prefix, key, nested.transforms);
        var kept := if nested.fields == [] then [] else [DataField(key, MapValue(nested.fields))];
        Success(Split(kept, nested.transforms))
    case Delete => Failure(ArgumentError(DeleteMessage))
    case Sentinel(t) => Success(Split([], [PathTransform(prefix + [key], t)]))
  }

  /** Walks the fields of a hash at `prefix`, in insertion order; the first error met wins. */
  function WalkFields(fs: seq<Field>, prefix: FieldPath): (r: Result<Split>)
    decreases fs
    ensures r.Success? ==> DataKeys(r.value.fields) == CarryingKeys(fs)
    ensures r.Success? ==> Below(prefix, r.value.transforms)
  {
    if fs == [] then Success(Split([], []))
    else
      var head :- WalkField(fs[0].key, fs[0].value, prefix);
      var tail :- WalkFields(fs[1..], prefix);
      DataKeysAppend(head.fields, tail.fields);
      Success(Split(head.fields + tail.fields, head.transforms + tail.transforms))
  }

  /** The field transforms of a transform write, paths rendered with dots. */
  function Render(pts: seq<PathTransform>): (fts: seq<FieldTransform>)
    ensures |fts| == |pts|
    ensures forall j :: 0 <= j < |pts| ==>
      fts[j].fieldPath == Dotted(pts[j].path) && FromWire(fts[j].op) == pts[j].transform
  {
    seq(|pts|, j requires 0 <= j < |pts| => FieldTransform(Dotted(pts[j].path), ToWire(pts[j].transform)))
  }

  /** Emits the update write when there is plain data or nothing at all to write, then the transform
      write when there are transforms. The first write carries the create precondition; a transform
      write that follows an update write carries none. */
  function Assemble(documentPath: string, split: Split): (w: seq<Write>)
    ensures 1 <= |w| <= 2
    ensures w[0].currentDocument == Some(Exists(false))
    ensures |w| == 2 ==> w[0].UpdateWrite? && w[1].TransformWrite? && w[1].currentDocument == None
    ensures w[0].UpdateWrite? <==> split.fields != [] || split.transforms == []
    ensures w[0].UpdateWrite? ==> w[0].update == Document(documentPath, split.fields)
    ensures w[|w| - 1].TransformWrite? <==> split.transforms != []
    ensures w[|w| - 1].TransformWrite? ==>
      w[|w| - 1].transform == DocumentTransform(documentPath, Render(split.transforms))
  {
    var updates :=
      if split.fields != [] || split.transforms == [] then
        [UpdateWrite(Document(documentPath, split.fields), Some(Exists(false)))]
      else [];
    var transforms :=
      if split.transforms == [] then []
      else [TransformWrite(DocumentTransform(documentPath, Render(split.transforms)),
                           if updates == [] then Some(Exists(false)) else None)];
    updates + transforms
  }

  /** Convert.writes_for_create(document_path, data). */
  function WritesForCreate(documentPath: string, data: seq<Field>): (r: Result<seq<Write>>)
    ensures ContainsDelete(Map(data)) ==> r == Failure(ArgumentError(DeleteMessage))
    ensures r.Success? ==> 1 <= |r.value| <= 2 && r.value[0].currentDocument == Some(Exists(false))
  {
    if ContainsDelete(Map(data)) then Failure(ArgumentError(DeleteMessage))
    else
      var split :- WalkFields(data, []);
      Success(Assemble(documentPath, split))
  }
}
