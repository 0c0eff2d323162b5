/**
 * Facts about encoding a value that sits inside an array: it loses nothing, it succeeds exactly for
 * sentinel-free values, and its error names what it refused.
 */
module EncodeFacts {
  import opened Values
  import opened Locations
  import opened Convert

  /** Every encoded value is the encoding of its decoding. */
  lemma {:induction false} EncodeDecode(d: Data)
    decreases d
    ensures EncodeElement(Decode(d)) == Success(d)
  {
    match d
    case ScalarValue(_) =>
    case ArrayValue(ds) => EncodeDecodeElements(ds);
    case MapValue(fs) => EncodeDecodeFields(fs);
  }

  lemma {:induction false} EncodeDecodeElements(ds: seq<Data>)
    decreases ds
    ensures EncodeElements(DecodeElements(ds)) == Success(ds)
  {
    if ds != [] {
      EncodeDecode(ds[0]);
      EncodeDecodeElements(ds[1..]);
      assert DecodeElements(ds)[1..] == DecodeElements(ds[1..]);
      assert [ds[0]] + ds[1..] == ds;
    }
  }

  lemma {:induction false} EncodeDecodeFields(fs: seq<DataField>)
    decreases fs
    ensures EncodeFields(DecodeFields(fs)) == Success(fs)
  {
    if fs != [] {
      EncodeDecode(fs[0].value);
      EncodeDecodeFields(fs[1..]);
      assert DecodeFields(fs)[1..] == DecodeFields(fs[1..]);
      assert [DataField(fs[0].key, fs[0].value)] + fs[1..] == fs;
    }
  }

  /** Encoding succeeds exactly when the value holds no sentinel and no delete. */
  lemma {:induction false} EncodeSucceedsIffPlain(v: Value)
    decreases v
    ensures EncodeElement(v).Success? <==> Plain(v)
  {
    match v
    case Raw(_) =>
    case Arr(xs) => EncodeElementsSucceedIffPlain(xs);
    case Map(fs) => EncodeFieldsSucceedIffPlain(fs);
    case Delete =>
    case Sentinel(_) =>
  }

  lemma {:induction false} EncodeElementsSucceedIffPlain(xs: seq<Value>)
    decreases xs
    ensures EncodeElements(xs).Success? <==> forall i :: 0 <= i < |xs| ==> Plain(xs[i])
  {
    if xs != [] {
      EncodeSucceedsIffPlain(xs[0]);
      EncodeElementsSucceedIffPlain(xs[1..]);
      assert forall i :: 1 <= i < |xs| ==> xs[i] == xs[1..][i - 1];
    }
  }

  lemma {:induction false} EncodeFieldsSucceedIffPlain(fs: seq<Field>)
    decreases fs
    ensures EncodeFields(fs).Success? <==> forall i :: 0 <= i < |fs| ==> Plain(fs[i].value)
  {
    if fs != [] {
      EncodeSucceedsIffPlain(fs[0].value);
      EncodeFieldsSucceedIffPlain(fs[1..]);
      assert forall i :: 1 <= i < |fs| ==> fs[i] == fs[1..][i - 1];
    }
  }

  /** A refused value is refused for a delete it holds or with the message naming a sentinel it holds. */
  lemma {:induction false} EncodeFailure(v: Value)
    decreases v
    requires EncodeElement(v).Failure?
    ensures var m := EncodeElement(v).error.message;
      || (m == DeleteMessage && ContainsDelete(v))
      || exists t :: ContainsSentinel(v, t) && m == NestedMessage(t)
  {
    match v
    case Arr(xs) =>
      var i := EncodeElementsFailure(xs);
      if EncodeElement(v).error.message == DeleteMessage && ContainsDelete(xs[i]) {
        assert ContainsDelete(v);
      } else {
        var t :| ContainsSentinel(xs[i], t) && EncodeElement(v).error.message == NestedMessage(t);
        assert ContainsSentinel(v, t);
      }
    case Map(fs) =>
      var i := EncodeFieldsFailure(fs);
      if EncodeElement(v).error.message == DeleteMessage && ContainsDelete(fs[i].value) {
        assert ContainsDelete(v);
      } else {
        var t :| ContainsSentinel(fs[i].value, t) && EncodeElement(v).error.message == NestedMessage(t);
        assert ContainsSentinel(v, t);
      }
    case Delete =>
    case Sentinel(t) =>
      assert ContainsSentinel(v, t);
  }

  /** The element whose refusal the encoding of `xs` reports. */
  lemma {:induction false} EncodeElementsFailure(xs: seq<Value>) returns (i: nat)
    decreases xs
    requires EncodeElements(xs).Failure?
    ensures i < |xs|
    ensures var m := EncodeElements(xs).error.message;
      || (m == DeleteMessage && ContainsDelete(xs[i]))
      || exists t :: ContainsSentinel(xs[i], t) && m == NestedMessage(t)
  {
    if EncodeElement(xs[0]).Failure? {
      EncodeFailure(xs[0]);
      i := 0;
    } else {
      var k := EncodeElementsFailure(xs[1..]);
      i := k + 1;
      assert xs[i] == xs[1..][k];
    }
  }

  /** The field whose refusal the encoding of `fs` reports. */
  lemma {:induction false} EncodeFieldsFailure(fs: seq<Field>) returns (i: nat)
    decreases fs
    requires EncodeFields(fs).Failure?
    ensures i < |fs|
    ensures var m := EncodeFields(fs).error.message;
      || (m == DeleteMessage && ContainsDelete(fs[i].value))
      || exists t :: ContainsSentinel(fs[i].value, t) && m == NestedMessage(t)
  {
    if EncodeElement(fs[0].value).Failure? {
      EncodeFailure(fs[0].value);
      i := 0;
    } else {
      var k := EncodeFieldsFailure(fs[1..]);
      i := k + 1;
      assert fs[i] == fs[1..][k];
    }
  }

  /** A value is plain exactly when it holds neither a delete nor any sentinel. */
  lemma {:induction false} PlainIffNoMarkers(v: Value)
    decreases v
    ensures Plain(v) <==> !ContainsDelete(v) && forall t :: !ContainsSentinel(v, t)
  {
    match v
    case Raw(_) =>
    case Arr(xs) =>
      forall i | 0 <= i < |xs| { PlainIffNoMarkers(xs[i]); }
      if !Plain(v) {
        var i :| 0 <= i < |xs| && !Plain(xs[i]);
        if !ContainsDelete(xs[i]) {
          var t :| ContainsSentinel(xs[i], t);
          assert ContainsSentinel(v, t);
        }
      }
    case Map(fs) =>
      forall i | 0 <= i < |fs| { PlainIffNoMarkers(fs[i].value); }
      if !Plain(v) {
        var i :| 0 <= i < |fs| && !Plain(fs[i].value);
        if !ContainsDelete(fs[i].value) {
          var t :| ContainsSentinel(fs[i].value, t);
          assert ContainsSentinel(v, t);
        }
      }
    case Delete =>
    case Sentinel(t) =>
      assert ContainsSentinel(v, t);
  }
}
