# Firestore create conversion, modelled in Dafny

This project models `Google::Cloud::Firestore::Convert.writes_for_create(document_path, data)` from the
Ruby Firestore client. The function turns a hash of user data into the list of protobuf `Write`
records that create a document:

- The update write holds the document's plain data as a field tree. Keys are kept verbatim, never
  split on dots.
- Field-value sentinels (`server_time`, `array_union`, `array_delete`, `increment`, `maximum`,
  `minimum`) are taken out of the data and become field transforms, at their dotted field paths, in one
  transform write.
- The first write carries the precondition "the document must not exist".
- A `delete` sentinel anywhere in the data is refused with `DELETE not allowed on create`.
- A sentinel inside an array is refused with `cannot nest <type> under arrays`.

The model is pure, like the conversion: datatypes for the input values (`Values.Value`), for the wire
values (`Values.Data`) and for the write records (`Writes`), and total functions returning a `Result`
whose failure is an `ArgumentError` with the exact message.

Modules:

- `Values`: input values, wire values, and decoding of wire values back into input values.
- `Writes`: the `Write`, `Document`, `DocumentTransform` and `FieldTransform` records, and the sentinel-to-operation mapping.
- `FieldPaths`: field paths and their dotted rendering.
- `Locations`: reference predicates for "what sits where" in the data and in the field tree.
- `Convert`: the conversion itself.
- `EncodeFacts`: facts about encoding values found inside arrays.
- `WalkFacts`: facts about the walk that splits the data into fields and transforms.
- `CreateProperties`: the conversion's promises, stated over all inputs.
- `CreateScenarios`: each documented example, with its exact result.

## Model

| member | source | states |
|---|---|---|
| Convert.WritesForCreate | google-cloud-firestore/test/google/cloud/firestore/convert/writes_for_create_test.rb:139-203 | data with a delete anywhere fails with exactly `DELETE not allowed on create`; a success is one or two writes, the first carrying the not-exists precondition |
| Convert.Assemble | google-cloud-firestore/test/google/cloud/firestore/convert/writes_for_create_test.rb:150-203 | one or two writes: an update write exactly when there are fields or no transforms; a transform write exactly when there are transforms; the update comes first; only the first write carries the precondition |
| Convert.Render | google-cloud-firestore/test/google/cloud/firestore/convert/writes_for_create_test.rb:205-238 | one field transform per collected sentinel, in order, with the dotted path and an operation that maps back to the sentinel |
| Convert.WalkField | google-cloud-firestore/test/google/cloud/firestore/convert/writes_for_create_test.rb:240-270 | a field leaves its key in the tree exactly when it carries data; every transform it yields lies below the current path, under its key |
| Convert.WalkFields | google-cloud-firestore/test/google/cloud/firestore/convert/writes_for_create_test.rb:205-238 | the tree's keys are, in order, the keys of the fields that carry data; every transform lies below the current path |
| Convert.EncodeElement | google-cloud-firestore/test/google/cloud/firestore/convert/writes_for_create_test.rb:46-75 | a value inside an array is encoded whole, and what is encoded decodes back to the value |
| Convert.EncodeElements | google-cloud-firestore/test/google/cloud/firestore/convert/writes_for_create_test.rb:281-288 | an encoded array decodes back to its elements |
| Convert.EncodeFields | google-cloud-firestore/test/google/cloud/firestore/convert/writes_for_create_test.rb:272-279 | a hash inside an array is encoded whole and decodes back to its fields |
| Writes.ToWire | google-cloud-firestore/test/google/cloud/firestore/convert/writes_for_create_test.rb:292-321 | each sentinel becomes the operation of its kind with its operands passed through; mapping back gives the sentinel |
| Writes.ToWireFromWire | google-cloud-firestore/test/google/cloud/firestore/convert/writes_for_create_test.rb:292-321 | every operation is the image of the sentinel it maps back to |
| FieldPaths.Dotted | google-cloud-firestore/test/google/cloud/firestore/convert/writes_for_create_test.rb:150-171 | a top-level sentinel's path renders as its key |
| FieldPaths.SplitDotted | google-cloud-firestore/test/google/cloud/firestore/convert/writes_for_create_test.rb:205-238 | for dot-free segments, splitting a dotted path such as `c.d` at its dots gives back the path |
| Locations.CarryingKeysEmpty | google-cloud-firestore/test/google/cloud/firestore/convert/writes_for_create_test.rb:150-171 | no field key is kept exactly when no field carries data |
| EncodeFacts.EncodeDecode | google-cloud-firestore/test/google/cloud/firestore/convert/writes_for_create_test.rb:46-75 | encoding the decoding of any wire value gives back that wire value |
| EncodeFacts.EncodeDecodeElements | google-cloud-firestore/test/google/cloud/firestore/convert/writes_for_create_test.rb:46-75 | the same for an array's elements |
| EncodeFacts.EncodeDecodeFields | google-cloud-firestore/test/google/cloud/firestore/convert/writes_for_create_test.rb:46-75 | the same for a hash's fields |
| EncodeFacts.EncodeSucceedsIffPlain | google-cloud-firestore/test/google/cloud/firestore/convert/writes_for_create_test.rb:272-288 | encoding a value inside an array succeeds exactly when it holds no sentinel and no delete |
| EncodeFacts.EncodeElementsSucceedIffPlain | google-cloud-firestore/test/google/cloud/firestore/convert/writes_for_create_test.rb:281-288 | encoding an array succeeds exactly when every element is plain |
| EncodeFacts.EncodeFieldsSucceedIffPlain | google-cloud-firestore/test/google/cloud/firestore/convert/writes_for_create_test.rb:272-279 | encoding a hash succeeds exactly when every field value is plain |
| EncodeFacts.EncodeFailure | google-cloud-firestore/test/google/cloud/firestore/convert/writes_for_create_test.rb:272-288 | a refused value is refused for a delete it holds, or with the message naming a sentinel it holds |
| EncodeFacts.EncodeElementsFailure | google-cloud-firestore/test/google/cloud/firestore/convert/writes_for_create_test.rb:281-288 | a refused array names an element that holds the refused delete or sentinel |
| EncodeFacts.EncodeFieldsFailure | google-cloud-firestore/test/google/cloud/firestore/convert/writes_for_create_test.rb:272-279 | a refused hash names a field that holds the refused delete or sentinel |
| EncodeFacts.PlainIffNoMarkers | google-cloud-firestore/test/google/cloud/firestore/convert/writes_for_create_test.rb:139-146 | a value is plain exactly when it holds neither a delete nor any sentinel |
| WalkFacts.WalkFieldDecoded | google-cloud-firestore/test/google/cloud/firestore/convert/writes_for_create_test.rb:46-75 | a plain field is kept exactly as encoded and yields no transform |
| WalkFacts.WalkFieldsDecoded | google-cloud-firestore/test/google/cloud/firestore/convert/writes_for_create_test.rb:46-75 | plain fields are kept exactly as encoded, in order, and yield no transform |
| WalkFacts.WalkFieldsAppend | google-cloud-firestore/test/google/cloud/firestore/convert/writes_for_create_test.rb:205-238 | walking two runs of fields gives the first run's fields and transforms followed by the second's; the first error wins |
| WalkFacts.DataAtAppend | google-cloud-firestore/test/google/cloud/firestore/convert/writes_for_create_test.rb:205-238 | a tree entry sits in a concatenation of trees exactly when it sits in one of them |
| WalkFacts.WalkFieldsKeepsLeaf | google-cloud-firestore/test/google/cloud/firestore/convert/writes_for_create_test.rb:173-203 | every scalar, array or empty hash of the data sits at the same path in the field tree, encoded |
| WalkFacts.WalkFieldKeepsLeaf | google-cloud-firestore/test/google/cloud/firestore/convert/writes_for_create_test.rb:173-203 | the same for one field |
| WalkFacts.WalkFieldsLeafFromData | google-cloud-firestore/test/google/cloud/firestore/convert/writes_for_create_test.rb:240-270 | every leaf of the field tree is what the data holds at that path, so nothing foreign enters the tree |
| WalkFacts.WalkFieldLeafFromData | google-cloud-firestore/test/google/cloud/firestore/convert/writes_for_create_test.rb:240-270 | the same for one field |
| WalkFacts.WalkFieldsTransformsFound | google-cloud-firestore/test/google/cloud/firestore/convert/writes_for_create_test.rb:205-238 | every collected transform is a sentinel of the data at its path |
| WalkFacts.WalkFieldTransformsFound | google-cloud-firestore/test/google/cloud/firestore/convert/writes_for_create_test.rb:205-238 | the same for one field |
| WalkFacts.WalkFieldsTransformsComplete | google-cloud-firestore/test/google/cloud/firestore/convert/writes_for_create_test.rb:205-238 | every sentinel reachable through hashes is collected at its full path |
| WalkFacts.WalkFieldTransformsComplete | google-cloud-firestore/test/google/cloud/firestore/convert/writes_for_create_test.rb:205-238 | the same for one field |
| WalkFacts.NonCarryingFieldYieldsTransform | google-cloud-firestore/test/google/cloud/firestore/convert/writes_for_create_test.rb:240-270 | a field that carries no data yields at least one transform |
| WalkFacts.NonCarryingFieldsYieldTransform | google-cloud-firestore/test/google/cloud/firestore/convert/writes_for_create_test.rb:240-270 | a hash with fields none of which carries data yields at least one transform |
| WalkFacts.NonEmptyLeavesSomething | google-cloud-firestore/test/google/cloud/firestore/convert/writes_for_create_test.rb:150-171 | non-empty data leaves some field or some transform |
| WalkFacts.WalkFieldsFailure | google-cloud-firestore/test/google/cloud/firestore/convert/writes_for_create_test.rb:272-288 | without deletes, the walk fails exactly when a sentinel sits under an array, and the message names such a sentinel |
| WalkFacts.WalkFieldFailure | google-cloud-firestore/test/google/cloud/firestore/convert/writes_for_create_test.rb:272-288 | the same for one field |
| CreateProperties.MessagesIdentifyCause | google-cloud-firestore/test/google/cloud/firestore/convert/writes_for_create_test.rb:272-288 | a nesting message is never the delete message; two nesting messages agree exactly when the sentinels are of the same kind |
| CreateProperties.CreateFailure | google-cloud-firestore/test/google/cloud/firestore/convert/writes_for_create_test.rb:139-146 | a create fails exactly when the data holds a delete anywhere or a sentinel under an array; a delete gives the delete message, otherwise the message names a sentinel under an array |
| CreateProperties.PlainDocument | google-cloud-firestore/test/google/cloud/firestore/convert/writes_for_create_test.rb:46-75 | plain data of any shape gives exactly one update write holding that data, with the precondition |
| CreateProperties.PlainData | google-cloud-firestore/test/google/cloud/firestore/convert/writes_for_create_test.rb:92-136 | sentinel-free and delete-free data is written whole and reads back as the input |
| CreateProperties.EmptyDocument | google-cloud-firestore/test/google/cloud/firestore/convert/writes_for_create_test.rb:77-90 | empty data gives one update write with no fields, with the precondition |
| CreateProperties.UpdateWritePresent | google-cloud-firestore/test/google/cloud/firestore/convert/writes_for_create_test.rb:150-203 | the update write is present exactly when the data is empty or some field carries data |
| CreateProperties.TransformsCollected | google-cloud-firestore/test/google/cloud/firestore/convert/writes_for_create_test.rb:205-238 | the walk collects some transform exactly when some sentinel is reachable through hashes |
| CreateProperties.TransformWritePresent | google-cloud-firestore/test/google/cloud/firestore/convert/writes_for_create_test.rb:150-203 | the transform write is present exactly when some sentinel is reachable through hashes |
| CreateProperties.CreateWrites | google-cloud-firestore/test/google/cloud/firestore/convert/writes_for_create_test.rb:150-203 | one or two writes, all for the document; the update comes first; the precondition is on the first write only; each write is present under the conditions above |
| CreateProperties.UpdateWriteRule | google-cloud-firestore/test/google/cloud/firestore/convert/writes_for_create_test.rb:150-171 | the update write is present exactly when the field tree is non-empty or the data is empty |
| CreateProperties.CreateFieldTree | google-cloud-firestore/test/google/cloud/firestore/convert/writes_for_create_test.rb:240-270 | the tree's top-level keys are the carrying keys in order; every leaf of the data is in the tree at its path; every leaf of the tree comes from the data |
| CreateProperties.CreateFieldTransforms | google-cloud-firestore/test/google/cloud/firestore/convert/writes_for_create_test.rb:205-238 | every listed field transform is a sentinel of the data at its dotted path; every sentinel reachable through hashes is listed |
| CreateProperties.CreateConcatenation | google-cloud-firestore/test/google/cloud/firestore/convert/writes_for_create_test.rb:205-238 | creating `f1` then `f2` succeeds exactly when each alone succeeds; its tree and its transforms are those of `f1` followed by those of `f2` |
| CreateScenarios.BasicCreate | google-cloud-firestore/test/google/cloud/firestore/convert/writes_for_create_test.rb:26-44 | `{a: 1}` gives one update write with `a: 1` and the precondition |
| CreateScenarios.ComplexCreate | google-cloud-firestore/test/google/cloud/firestore/convert/writes_for_create_test.rb:46-75 | arrays and nested hashes are written whole |
| CreateScenarios.EmptyCreate | google-cloud-firestore/test/google/cloud/firestore/convert/writes_for_create_test.rb:77-90 | `{}` gives one update write with no fields |
| CreateScenarios.DottedKeysNotSplit | google-cloud-firestore/test/google/cloud/firestore/convert/writes_for_create_test.rb:92-113 | keys `a.b` and `c.d` are kept verbatim |
| CreateScenarios.NonAlphaKeys | google-cloud-firestore/test/google/cloud/firestore/convert/writes_for_create_test.rb:115-136 | keys `*`, `.` and `~` are kept verbatim |
| CreateScenarios.DeleteInData | google-cloud-firestore/test/google/cloud/firestore/convert/writes_for_create_test.rb:139-146 | `{a: 1, b: delete}` fails with `DELETE not allowed on create` |
| CreateScenarios.SentinelAlone | google-cloud-firestore/test/google/cloud/firestore/convert/writes_for_create_test.rb:150-171 | `{a: t}` gives only a transform write at `a`, carrying the precondition; stated for every sentinel `t`, so also the tests at 294-321, 468-495, 642-663, 786-807 and 930-951 |
| CreateScenarios.SentinelWithData | google-cloud-firestore/test/google/cloud/firestore/convert/writes_for_create_test.rb:173-203 | `{a: 1, b: t}` gives the update with `a`, then a transform at `b` without a precondition; also 323-359, 497-533, 665-695, 809-839 and 953-983 |
| CreateScenarios.MultipleSentinels | google-cloud-firestore/test/google/cloud/firestore/convert/writes_for_create_test.rb:205-238 | `{a: 1, b: t, c: {d: t}}` gives the update with `a` only, then transforms at `b` and `c.d` in that order; also 361-406, 535-580, 697-730, 841-874 and 985-1018 |
| CreateScenarios.NestedSentinel | google-cloud-firestore/test/google/cloud/firestore/convert/writes_for_create_test.rb:240-270 | `{a: 1, b: {c: t}}` gives the update with `a` only, then a transform at `b.c`; also 408-444, 582-618, 732-762, 876-906 and 1020-1050 |
| CreateScenarios.SentinelInsideArrayElement | google-cloud-firestore/test/google/cloud/firestore/convert/writes_for_create_test.rb:272-279 | `{a: [1, {b: t}]}` fails with the nesting message for `t`; also 446-453, 620-627, 764-771, 908-915 and 1052-1059 |
| CreateScenarios.SentinelInArray | google-cloud-firestore/test/google/cloud/firestore/convert/writes_for_create_test.rb:281-288 | `{a: [1, 2, t]}` fails with the nesting message for `t`; also 455-462, 629-636, 773-780, 917-924 and 1061-1068 |
| CreateScenarios.ExampleOperations | google-cloud-firestore/test/google/cloud/firestore/convert/writes_for_create_test.rb:292-321 | the example sentinels become `REQUEST_TIME`, append `[1, 2, 3]`, remove `[7, 8, 9]`, and increment, maximum and minimum by 1 |
| CreateScenarios.ServerTimeMessage | google-cloud-firestore/test/google/cloud/firestore/convert/writes_for_create_test.rb:272-279 | the message is `cannot nest server_time under arrays` |
| CreateScenarios.ArrayUnionMessage | google-cloud-firestore/test/google/cloud/firestore/convert/writes_for_create_test.rb:446-453 | the message is `cannot nest array_union under arrays` |
| CreateScenarios.ArrayDeleteMessage | google-cloud-firestore/test/google/cloud/firestore/convert/writes_for_create_test.rb:620-627 | the message is `cannot nest array_delete under arrays` |
| CreateScenarios.IncrementMessage | google-cloud-firestore/test/google/cloud/firestore/convert/writes_for_create_test.rb:764-771 | the message is `cannot nest increment under arrays` |
| CreateScenarios.MaximumMessage | google-cloud-firestore/test/google/cloud/firestore/convert/writes_for_create_test.rb:908-915 | the message is `cannot nest maximum under arrays` |
| CreateScenarios.MinimumMessage | google-cloud-firestore/test/google/cloud/firestore/convert/writes_for_create_test.rb:1052-1059 | the message is `cannot nest minimum under arrays` |

## Left out

- The model follows the behaviour `writes_for_create_test.rb` pins down; where those tests are silent, the choice made is listed below.
- Convert.WritesForCreate: its own contract states only the delete error and the shape of a success. The full promises are the `CreateProperties` lemmas about it.
- Empty nested hashes are kept as empty map values in the field tree (`{a: {}}` gives one update write holding `a` as an empty map); no example pins this down.
- Delete versus nesting when both are present: the model checks for a delete anywhere in the data before walking it, so the delete message wins. No example holds both.
- Scalar wire encoding: integers, doubles, strings, booleans and null are opaque scalars passed through a `ScalarValue`. A double is kept as its literal text (`2.5`). Floating point is not modelled.
- Protobuf maps: the field tree is an ordered list of entries in the data's insertion order. The map semantics of a protobuf message comparison, which ignores order, are not modelled.
- Field-path escaping: a transform's path is its segments joined with `.`. The back-quote escaping of segments that are not simple identifiers is not modelled, because no example needs it.
- Sentinel construction: `FieldValue.array_union`, `increment` and the others, with their argument validation, are not modelled. A sentinel's operand is taken as already encoded wire data and passed through unchanged.
- Deep-copying, `nil` data and non-hash input are not modelled. The input is always a hash of string keys, and Ruby symbol keys are their names.
- Repeated keys: the keys of one hash are assumed distinct. A hash such as `{a: 1, "a" => 2}`, whose two keys share a name, would give the model two entries named `a`, kept in order, which a protobuf map cannot hold.
