/**
 * The two value models of the create conversion: the caller's data (`Value`, a Ruby Hash / Array /
 * scalar / FieldValue sentinel) and the encoded wire value (`Data`, a Google::Firestore::V1::Value).
 */
module Values {

  /** A scalar as the value encoder receives it. Its wire encoding is taken as given: a double is
      kept as its literal text and never computed with. */
  datatype Scalar =
    | IntegerValue(integer: int)
    | DoubleValue(literal: string)
    | StringValue(text: string)
    | BooleanValue(boolean: bool)
    | NullValue

  /** An encoded value: a scalar, an array value or a map value. Map fields keep their insertion order. */
  datatype Data =
    | ScalarValue(scalar: Scalar)
    | ArrayValue(values: seq<Data>)
    | MapValue(fields: seq<DataField>)

  datatype DataField = DataField(key: string, value: Data)

  /** The transform sentinels (FieldValue.server_time, array_union, array_delete, increment, maximum,
      minimum). Their operands are already encoded and are passed through unchanged. */
  datatype Transform =
    | ServerTime
    | ArrayUnion(elements: seq<Data>)
    | ArrayDelete(elements: seq<Data>)
    | Increment(operand: Data)
    | Maximum(operand: Data)
    | Minimum(operand: Data)

  /** A value in the caller's data: a scalar, an array, a nested hash, FieldValue.delete, or a
      transform sentinel. */
  datatype Value =
    | Raw(scalar: Scalar)
    | Arr(elements: seq<Value>)
    | Map(fields: seq<Field>)
    | Delete
    | Sentinel(transform: Transform)

  /** One key/value pair of a hash; a sequence of them keeps the hash's insertion order. */
  datatype Field = Field(key: string, value: Value)

  function Keys(fs: seq<Field>): (r: seq<string>)
    ensures |r| == |fs|
    ensures forall i :: 0 <= i < |fs| ==> r[i] == fs[i].key
  {
    if fs == [] then [] else [fs[0].key] + Keys(fs[1..])
  }

  /** The same as `Keys`, for the fields of a wire map: the two field types differ in their value type. */
  function DataKeys(ds: seq<DataField>): (r: seq<string>)
    ensures |r| == |ds|
    ensures forall i :: 0 <= i < |ds| ==> r[i] == ds[i].key
  {
    if ds == [] then [] else [ds[0].key] + DataKeys(ds[1..])
  }

  lemma DataKeysAppend(a: seq<DataField>, b: seq<DataField>)
    ensures DataKeys(a + b) == DataKeys(a) + DataKeys(b)
  {
    assert |DataKeys(a + b)| == |DataKeys(a) + DataKeys(b)|;
    forall i | 0 <= i < |a + b| ensures DataKeys(a + b)[i] == (DataKeys(a) + DataKeys(b))[i] {
      if i < |a| { assert (a + b)[i] == a[i]; } else { assert (a + b)[i] == b[i - |a|]; }
    }
  }

  /** Reads an encoded value back as caller data; the inverse of encoding a sentinel-free value. */
  function Decode(d: Data): Value
    decreases d
  {
    match d
    case ScalarValue(s) => Raw(s)
    case ArrayValue(ds) => Arr(DecodeElements(ds))
    case MapValue(fs) => Map(DecodeFields(fs))
  }

  function DecodeElements(ds: seq<Data>): (r: seq<Value>)
    decreases ds
    ensures |r| == |ds|
  {
    if ds == [] then [] else [Decode(ds[0])] + DecodeElements(ds[1..])
  }

  function DecodeFields(ds: seq<DataField>): (r: seq<Field>)
    decreases ds
    ensures Keys(r) == DataKeys(ds)
  {
    if ds == [] then [] else [Field(ds[0].key, Decode(ds[0].value))] + DecodeFields(ds[1..])
  }

  /** Decoding works element by element. */
  lemma {:induction false} DecodeElementsAt(ds: seq<Data>)
    decreases ds
    ensures forall i :: 0 <= i < |ds| ==> DecodeElements(ds)[i] == Decode(ds[i])
  {
    if ds != [] {
      DecodeElementsAt(ds[1..]);
      assert forall i :: 1 <= i < |ds| ==> ds[i] == ds[1..][i - 1];
    }
  }

  lemma {:induction false} DecodeFieldsAt(ds: seq<DataField>)
    decreases ds
    ensures forall i :: 0 <= i < |ds| ==> DecodeFields(ds)[i] == Field(ds[i].key, Decode(ds[i].value))
  {
    if ds != [] {
      DecodeFieldsAt(ds[1..]);
      assert |DecodeFields(ds)| == |Keys(DecodeFields(ds))| == |ds|;
      assert forall i :: 1 <= i < |ds| ==> ds[i] == ds[1..][i - 1];
    }
  }
}
