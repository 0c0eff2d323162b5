/**
 * Field paths: the segments from the document root to a field, one per nested hash, and their
 * dotted rendering in a field transform.
 */
module FieldPaths {

  type FieldPath = seq<string>

  /** The segments joined with `.`. */
  function Dotted(p: FieldPath): (s: string)
    ensures |p| == 1 ==> s == p[0]
  {
    if p == [] then ""
    else if |p| == 1 then p[0]
    else p[0] + "." + Dotted(p[1..])
  }

  /** Splits a string at every `.`. */
  function SplitDots(s: string): (r: FieldPath)
    ensures |r| >= 1
    decreases |s|
  {
    var i := IndexOfDot(s);
    if i == |s| then [s] else [s[..i]] + SplitDots(s[i + 1..])
  }

  /** The index of the first `.` in `s`, or `|s|` when there is none. */
  function IndexOfDot(s: string): (i: nat)
    ensures i <= |s|
    ensures forall j :: 0 <= j < i ==> s[j] != '.'
    ensures i < |s| ==> s[i] == '.'
  {
    if s == [] then 0
    else if s[0] == '.' then 0
    else 1 + IndexOfDot(s[1..])
  }

  predicate Simple(segment: string) {
    forall j :: 0 <= j < |segment| ==> segment[j] != '.'
  }

  /** For segments that hold no dot, the rendering is unambiguous: splitting it gives back the path. */
  lemma {:induction false} SplitDotted(p: FieldPath)
    requires |p| >= 1
    requires forall k :: 0 <= k < |p| ==> Simple(p[k])
    ensures SplitDots(Dotted(p)) == p
  {
    if |p| == 1 {
      assert IndexOfDot(p[0]) == |p[0]|;
    } else {
      var s := Dotted(p);
      var rest := Dotted(p[1..]);
      assert s == p[0] + "." + rest;
      assert s[|p[0]|] == '.';
      assert forall j :: 0 <= j < |p[0]| ==> s[j] == p[0][j];
      assert IndexOfDot(s) == |p[0]|;
      assert s[..|p[0]|] == p[0];
      assert s[|p[0]| + 1..] == rest;
      SplitDotted(p[1..]);
      assert p == [p[0]] + p[1..];
    }
  }
}
