/** hfstol/index.js, the older JavaScript wrapper, written as the loops it
    runs. Each method is proved to compute what the corresponding function
    of `Segmentation` (node/index.ts) computes, so the two wrappers agree on
    every input except for what they throw. */
module LegacyLookup {
  import opened Outcome
  import opened Strings
  import Seg = Segmentation

  /** The older wrapper calls an undefined global `Exception`, so what
      escapes is the JavaScript engine's ReferenceError, not the intended
      message. */
  datatype LegacyError = ReferenceError(message: string)

  const ExceptionUndefined := ReferenceError("Exception is not defined")

  /** `analysis.join("")`. */
  method JoinSymbols(analysis: Seg.Symbols) returns (s: string)
    ensures s == Concat(analysis)
  {
    s := "";
    var j := 0;
    while j < |analysis|
      invariant j <= |analysis|
      invariant s == Concat(analysis[..j])
    {
      assert analysis[..j + 1] == analysis[..j] + [analysis[j]];
      ConcatPush(analysis[..j], analysis[j]);
      s := s + analysis[j];
      j := j + 1;
    }
    assert analysis[..j] == analysis;
  }

  /** `lookup`: the same flat strings as the node wrapper. */
  method Lookup(analyses: seq<Seg.Symbols>) returns (ret: seq<string>)
    ensures ret == Seg.Lookup(analyses)
  {
    ret := [];
    var k := 0;
    while k < |analyses|
      invariant k <= |analyses|
      invariant |ret| == k
      invariant forall j :: 0 <= j < k ==> ret[j] == Concat(analyses[j])
    {
      var flat := JoinSymbols(analyses[k]);
      ret := ret + [flat];
      k := k + 1;
    }
    assert forall j :: 0 <= j < k ==> ret[j] == Seg.Lookup(analyses)[j];
  }

  /** The inner loop of `lookup_lemma_with_affixes` for one analysis. */
  method SegmentOne(analysis: Seg.Symbols) returns (r: Result<Seg.Analysis, LegacyError>)
    ensures r.Ok? <==> Seg.WellShaped(analysis)
    ensures r.Ok? ==> r.value == Seg.Segment(analysis).value
    ensures r.Err? ==> r.error == ExceptionUndefined
  {
    var before: seq<string> := [];
    var beforeDone := false;
    var lemmaText := "";
    var lemmaDone := false;
    var after: seq<string> := [];
    var i := 0;
    Seg.ScanMeaning(analysis, |analysis|);
    Seg.ShapeOkMeaning(analysis, |analysis|);
    while i < |analysis|
      invariant i <= |analysis|
      invariant Seg.ScanIn(analysis, i) == Some(Seg.ScanState(before, beforeDone, lemmaText, lemmaDone, after))
    {
      var symbol := analysis[i];
      if |symbol| == 1 {
        beforeDone := true;
        if lemmaDone {
          Seg.ThrowIsFinal(analysis, i + 1, |analysis|);
          return Err(ExceptionUndefined);
        }
        lemmaText := lemmaText + symbol;
      } else if !beforeDone {
        before := before + [symbol];
      } else {
        lemmaDone := true;
        after := after + [symbol];
      }
      i := i + 1;
    }
    return Ok(Seg.Analysis(before, lemmaText, after));
  }

  /** `lookup_lemma_with_affixes`: the node wrapper's triples whenever the
      node wrapper succeeds, and a throw exactly when it throws. */
  method LookupLemmaWithAffixes(analyses: seq<Seg.Symbols>) returns (r: Result<seq<Seg.Analysis>, LegacyError>)
    ensures r.Ok? <==> Seg.LookupLemmaWithAffixes(analyses).Ok?
    ensures r.Ok? ==> r.value == Seg.LookupLemmaWithAffixes(analyses).value
    ensures r.Err? ==> r.error == ExceptionUndefined
  {
    var ret: seq<Seg.Analysis> := [];
    var k := 0;
    while k < |analyses|
      invariant k <= |analyses|
      invariant forall j :: 0 <= j < k ==> Seg.WellShaped(analyses[j])
      invariant |ret| == k
      invariant forall j :: 0 <= j < k ==> ret[j] == Seg.Expected(analyses[j])
    {
      var x := SegmentOne(analyses[k]);
      if x.Err? {
        assert !Seg.WellShaped(analyses[k]);
        return Err(ExceptionUndefined);
      }
      assert x.value == Seg.Expected(analyses[k]);
      ret := ret + [x.value];
      k := k + 1;
    }
    var s := Seg.LookupLemmaWithAffixes(analyses);
    assert s.Ok? && |s.value| == |ret|;
    assert forall j :: 0 <= j < |ret| ==> s.value[j] == ret[j];
    return Ok(ret);
  }
}
