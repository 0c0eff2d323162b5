/**
 * Where things sit in the caller's data and in an encoded field tree. These predicates are the
 * reference vocabulary that the properties of the create conversion are stated in; the conversion
 * itself does not use them.
 */
module Locations {
  import opened Values
  import opened FieldPaths

  /** `v` sits at `path` in the hash `fs`: the first segment is the key of some field of `fs` whose
      value is `v` (one segment) or a hash in which `v` sits at the remaining segments. */
  predicate ValueAt(fs: seq<Field>, path: FieldPath, v: Value)
    decreases |path|, |fs|
  {
    && fs != []
    && path != []
    && (|| (&& fs[0].key == path[0]
            && if |path| == 1 then fs[0].value == v
               else fs[0].value.Map? && ValueAt(fs[0].value.fields, path[1..], v))
        || ValueAt(fs[1..], path, v))
  }

  /** `d` sits at `path` in the encoded map fields `ds`, in the same sense as `ValueAt`. */
  predicate DataAt(ds: seq<DataField>, path: FieldPath, d: Data)
    decreases |path|, |ds|
  {
    && ds != []
    && path != []
    && (|| (&& ds[0].key == path[0]
            && if |path| == 1 then ds[0].value == d
               else ds[0].value.MapValue? && DataAt(ds[0].value.fields, path[1..], d))
        || DataAt(ds[1..], path, d))
  }

  /** A value leaves something in the field tree: a scalar, an array, an empty hash, or a hash one of
      whose fields does. Sentinels and deletes leave nothing. */
  predicate CarriesData(v: Value)
    decreases v
  {
    match v
    case Raw(_) => true
    case Arr(_) => true
    case Map(fs) => fs == [] || exists i :: 0 <= i < |fs| && CarriesData(fs[i].value)
    case Delete => false
    case Sentinel(_) => false
  }

  /** The keys of the fields of `fs` that carry data, in order. */
  function CarryingKeys(fs: seq<Field>): seq<string>
  {
    if fs == [] then []
    else (if CarriesData(fs[0].value) then [fs[0].key] else []) + CarryingKeys(fs[1..])
  }

  lemma {:induction false} CarryingKeysEmpty(fs: seq<Field>)
    ensures CarryingKeys(fs) == [] <==> !exists i :: 0 <= i < |fs| && CarriesData(fs[i].value)
  {
    if fs != [] {
      CarryingKeysEmpty(fs[1..]);
      if exists i :: 0 <= i < |fs[1..]| && CarriesData(fs[1..][i].value) {
        var i :| 0 <= i < |fs[1..]| && CarriesData(fs[1..][i].value);
        assert CarriesData(fs[i + 1].value);
      }
      if exists i :: 0 <= i < |fs| && CarriesData(fs[i].value) {
        var i :| 0 <= i < |fs| && CarriesData(fs[i].value);
        if i > 0 { assert CarriesData(fs[1..][i - 1].value); }
      }
    }
  }

  /** The sentinel `t` appears somewhere in `v`, at any depth, arrays included. */
  predicate ContainsSentinel(v: Value, t: Transform)
    decreases v
  {
    match v
    case Sentinel(u) => u == t
    case Arr(xs) => exists i :: 0 <= i < |xs| && ContainsSentinel(xs[i], t)
    case Map(fs) => exists i :: 0 <= i < |fs| && ContainsSentinel(fs[i].value, t)
    case _ => false
  }

  /** The sentinel `t` appears inside an array somewhere in `v`. */
  predicate NestedUnderArray(v: Value, t: Transform)
    decreases v
  {
    match v
    case Arr(xs) => exists i :: 0 <= i < |xs| && ContainsSentinel(xs[i], t)
    case Map(fs) => exists i :: 0 <= i < |fs| && NestedUnderArray(fs[i].value, t)
    case _ => false
  }

  /** No sentinel and no delete anywhere in `v`. */
  predicate Plain(v: Value)
    decreases v
  {
    match v
    case Raw(_) => true
    case Arr(xs) => forall i :: 0 <= i < |xs| ==> Plain(xs[i])
    case Map(fs) => forall i :: 0 <= i < |fs| ==> Plain(fs[i].value)
    case Delete => false
    case Sentinel(_) => false
  }
}
