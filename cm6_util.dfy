/** Range helpers of the CodeMirror 6 integration. The functions
    `checkRangeOverlap`, `getContent` and `existsDecorationBetween` are
    written identically in src/codemirror/Cm6_Util.ts and in the older
    src/Cm6_Util.ts; this one module models both. */
module Cm6Util {
  import opened JsString

  /** A decoration: a range of the document and what is drawn over it. A
      `Mark` carries the inline style and the class attribute of a token; a
      `Replace` hides the range (used to hide an inline `{lang} ` tag). */
  datatype Kind = Mark(style: string, classes: string) | Replace
  datatype Decoration = Decoration(from: int, to: int, kind: Kind)

  /** `checkRangeOverlap`: closed intervals that share at least one point. */
  predicate CheckRangeOverlap(fromA: int, toA: int, fromB: int, toB: int) {
    fromA <= toB && fromB <= toA
  }

  lemma RangeOverlapSymmetric(fromA: int, toA: int, fromB: int, toB: int)
    ensures CheckRangeOverlap(fromA, toA, fromB, toB) == CheckRangeOverlap(fromB, toB, fromA, toA)
  {
  }

  /** A well-formed range overlaps itself, and ranges that only touch at an
      endpoint overlap. */
  lemma RangeOverlapReflexiveAndTouching(from: int, mid: int, to: int)
    requires from <= mid <= to
    ensures CheckRangeOverlap(from, mid, from, mid)
    ensures CheckRangeOverlap(from, mid, mid, to)
    ensures CheckRangeOverlap(mid, to, from, mid)
  {
  }

  /** Overlap is exactly "the later start is not past the earlier end": the
      two closed intervals have the point `max(fromA, fromB)` in common. */
  lemma RangeOverlapCommonPoint(fromA: int, toA: int, fromB: int, toB: int)
    requires fromA <= toA && fromB <= toB
    ensures CheckRangeOverlap(fromA, toA, fromB, toB) <==>
            (var p := if fromA < fromB then fromB else fromA; p <= toA && p <= toB)
  {
  }

  /** Any common point of two ranges witnesses their overlap. */
  lemma RangeOverlapFromPoint(fromA: int, toA: int, fromB: int, toB: int, p: int)
    requires fromA <= p <= toA && fromB <= p <= toB
    ensures CheckRangeOverlap(fromA, toA, fromB, toB)
  {
  }

  /** A selection range, as CodeMirror reports it. */
  datatype SelRange = SelRange(from: int, to: int)

  /** Specification of `checkSelectionAndRangeOverlap`. */
  predicate SelectionOverlaps(ranges: seq<SelRange>, from: int, to: int) {
    exists i :: 0 <= i < |ranges| && CheckRangeOverlap(ranges[i].from, ranges[i].to, from, to)
  }

  /** `checkSelectionAndRangeOverlap`: scans the selection ranges in order and
      stops at the first that overlaps. */
  method CheckSelectionAndRangeOverlap(ranges: seq<SelRange>, from: int, to: int) returns (r: bool)
    ensures r <==> exists i :: 0 <= i < |ranges| && CheckRangeOverlap(ranges[i].from, ranges[i].to, from, to)
    ensures ranges == [] ==> !r
  {
    for i := 0 to |ranges|
      invariant forall j :: 0 <= j < i ==> !CheckRangeOverlap(ranges[j].from, ranges[j].to, from, to)
    {
      if CheckRangeOverlap(ranges[i].from, ranges[i].to, from, to) {
        return true;
      }
    }
    return false;
  }

  /** `getContent`: `state.sliceDoc(from, to)`, with the positions clamped to the document. */
  function GetContent(doc: string, from: int, to: int): (r: string)
    ensures 0 <= from <= to <= |doc| ==> r == doc[from..to] && |r| == to - from
    ensures to <= from ==> r == []
  {
    var a := Clamp(from, 0, |doc|);
    var b := Clamp(to, 0, |doc|);
    if a < b then doc[a..b] else []
  }

  /** The decorations that `RangeSet.between(from, to, f)` reports: those whose
      range touches `[from, to]`, in store order. The same inclusive test is
      used for the `filterFrom`/`filterTo` window of `RangeSet.update`. */
  predicate Touches(d: Decoration, from: int, to: int) {
    CheckRangeOverlap(d.from, d.to, from, to)
  }

  predicate AnyTouches(decos: seq<Decoration>, from: int, to: int) {
    exists i :: 0 <= i < |decos| && Touches(decos[i], from, to)
  }

  /** `existsDecorationBetween`: a local flag that the `between` callback sets
      for every decoration it is called with. */
  method ExistsDecorationBetween(decos: seq<Decoration>, from: int, to: int) returns (exists_: bool)
    ensures exists_ <==> exists i :: 0 <= i < |decos| && CheckRangeOverlap(decos[i].from, decos[i].to, from, to)
    ensures decos == [] ==> !exists_
  {
    exists_ := false;
    for i := 0 to |decos|
      invariant exists_ <==> exists j :: 0 <= j < i && Touches(decos[j], from, to)
    {
      if Touches(decos[i], from, to) {
        exists_ := true;
      }
    }
  }
}
