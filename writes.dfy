/**
 * The write records a create produces (Google::Firestore::V1::Write and the messages it carries),
 * as plain values.
 */
module Writes {
  import opened Values

  datatype Option<+T> = None | Some(value: T)

  /** A precondition on the target document; create uses `Exists(false)`: the document must not exist. */
  datatype Precondition = Exists(exists_: bool)

  datatype ServerValue = RequestTime

  /** The operation of one DocumentTransform::FieldTransform. */
  datatype TransformOp =
    | SetToServerValue(serverValue: ServerValue)
    | AppendMissingElements(appended: seq<Data>)
    | RemoveAllFromArray(removed: seq<Data>)
    | IncrementBy(increment: Data)
    | MaximumOf(maximum: Data)
    | MinimumOf(minimum: Data)

  /** A field transform: the rendered field path and its operation. */
  datatype FieldTransform = FieldTransform(fieldPath: string, op: TransformOp)

  datatype Document = Document(name: string, fields: seq<DataField>)

  datatype DocumentTransform = DocumentTransform(document: string, fieldTransforms: seq<FieldTransform>)

  datatype Write =
    | UpdateWrite(update: Document, currentDocument: Option<Precondition>)
    | TransformWrite(transform: DocumentTransform, currentDocument: Option<Precondition>)

  /** The wire operation a transform sentinel becomes; its operand is passed through unchanged. */
  function ToWire(t: Transform): (op: TransformOp)
    ensures FromWire(op) == t
  {
    match t
    case ServerTime => SetToServerValue(RequestTime)
    case ArrayUnion(xs) => AppendMissingElements(xs)
    case ArrayDelete(xs) => RemoveAllFromArray(xs)
    case Increment(n) => IncrementBy(n)
    case Maximum(n) => MaximumOf(n)
    case Minimum(n) => MinimumOf(n)
  }

  /** The sentinel a wire operation was made from. */
  function FromWire(op: TransformOp): (t: Transform)
  {
    match op
    case SetToServerValue(_) => ServerTime
    case AppendMissingElements(xs) => ArrayUnion(xs)
    case RemoveAllFromArray(xs) => ArrayDelete(xs)
    case IncrementBy(n) => Increment(n)
    case MaximumOf(n) => Maximum(n)
    case MinimumOf(n) => Minimum(n)
  }

  /** Every wire operation is the image of exactly one sentinel. */
  lemma ToWireFromWire(op: TransformOp)
    ensures ToWire(FromWire(op)) == op
  {
  }
}
