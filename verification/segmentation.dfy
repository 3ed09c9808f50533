/** The post-processing that node/index.ts puts on top of the lookup engine.
    The engine (not part of this model) hands back, for one input word, a
    sequence of analyses, each a sequence of output symbols. `Lookup` flattens
    each analysis to one string; `LookupLemmaWithAffixes` splits each analysis
    into leading tags (prefixes), the lemma spelled by the one-character
    symbols, and trailing tags (suffixes). */
module Segmentation {
  import opened Outcome
  import opened Strings

  /** The output symbols of one analysis, in engine order. */
  type Symbols = seq<string>

  /** The (prefixes, lemma, suffixes) triple of hfst_optimized_lookup/_types.py. */
  datatype Analysis = Analysis(prefixes: seq<string>, lemmaText: string, suffixes: seq<string>)

  /** The `Error` thrown when a character follows a suffix tag. */
  datatype SegmentError = UnableToParse(message: string)

  /** A symbol of length one is a character of the lemma ... */
  predicate IsChar(sym: string) {
    |sym| == 1
  }

  /** ... and every other symbol, the empty one included, is a tag. */
  predicate IsTag(sym: string) {
    |sym| != 1
  }

  // ---------------------------------------------------------------------
  // Declarative description of a segmentation. Each function looks at the
  // first `n` symbols of `a`, so that it can follow the loop symbol by symbol.
  // ---------------------------------------------------------------------

  /** Index of the first character among `a[..n]`, or `n` if there is none. */
  function FirstCharIn(a: Symbols, n: nat): (f: nat)
    requires n <= |a|
    ensures f <= n
  {
    if n == 0 then 0
    else
      var f := FirstCharIn(a, n - 1);
      if f < n - 1 then f
      else if IsChar(a[n - 1]) then n - 1
      else n
  }

  /** The character symbols of `a[..n]`, in order. */
  function CharsIn(a: Symbols, n: nat): Symbols
    requires n <= |a|
  {
    if n == 0 then []
    else CharsIn(a, n - 1) + (if IsChar(a[n - 1]) then [a[n - 1]] else [])
  }

  /** The tag symbols of `a[lo..n]`, in order. */
  function TagsIn(a: Symbols, lo: nat, n: nat): Symbols
    requires lo <= n <= |a|
    decreases n
  {
    if n == lo then []
    else TagsIn(a, lo, n - 1) + (if IsTag(a[n - 1]) then [a[n - 1]] else [])
  }

  /** Index of the first character of `a`, or `|a|` if there is none. */
  function FirstChar(a: Symbols): nat {
    FirstCharIn(a, |a|)
  }

  /** The maximal leading run of tags. */
  function Prefixes(a: Symbols): Symbols {
    a[..FirstChar(a)]
  }

  /** The lemma: every character symbol, concatenated in order. */
  function LemmaOf(a: Symbols): string {
    Concat(CharsIn(a, |a|))
  }

  /** The tags that come after the first character. */
  function Suffixes(a: Symbols): Symbols {
    TagsIn(a, FirstChar(a), |a|)
  }

  /** The triple an analysis is meant to segment into. */
  function Expected(a: Symbols): Analysis {
    Analysis(Prefixes(a), LemmaOf(a), Suffixes(a))
  }

  /** Among the first `n` symbols, no character comes after a tag that
      itself comes after a character. */
  ghost predicate WellShapedIn(a: Symbols, n: nat)
    requires n <= |a|
  {
    !exists i, j, k :: 0 <= i < j < k < n && IsChar(a[i]) && IsTag(a[j]) && IsChar(a[k])
  }

  /** An analysis has the shape tags* chars* tags*. */
  ghost predicate WellShaped(a: Symbols) {
    WellShapedIn(a, |a|)
  }

  /** The same shape condition, checked symbol by symbol: a character may
      not come once a tag has followed the first character. */
  predicate ShapeOkIn(a: Symbols, n: nat)
    requires n <= |a|
  {
    n == 0 || (ShapeOkIn(a, n - 1) && !(IsChar(a[n - 1]) && |TagsIn(a, FirstCharIn(a, n - 1), n - 1)| > 0))
  }

  /** An analysis flattened back to one string, the inverse direction of
      segmentation. */
  function Render(x: Analysis): string {
    Concat(x.prefixes) + x.lemmaText + Concat(x.suffixes)
  }

  /** The message node/index.ts builds: a JavaScript array interpolated into a
      template string is its elements joined by commas. */
  function ErrorMessage(a: Symbols): string {
    "Unable to parse " + Join(a, ",") + " into lemma and affixes"
  }

  // ---------------------------------------------------------------------
  // The scanner: the loop body of node/index.ts, one symbol at a time.
  // ---------------------------------------------------------------------

  /** The five local variables of the loop. */
  datatype ScanState = ScanState(
    before: seq<string>, beforeDone: bool, lemmaText: string, lemmaDone: bool, after: seq<string>)

  const Start := ScanState([], false, "", false, [])

  /** One iteration; `None` is the throw. */
  function Step(st: ScanState, sym: string): Option<ScanState> {
    if IsChar(sym) then
      if st.lemmaDone then None
      else Some(st.(beforeDone := true, lemmaText := st.lemmaText + sym))
    else if !st.beforeDone then Some(st.(before := st.before + [sym]))
    else Some(st.(lemmaDone := true, after := st.after + [sym]))
  }

  /** The loop over the first `n` symbols; it stops at the first throw. */
  function ScanIn(a: Symbols, n: nat): Option<ScanState>
    requires n <= |a|
  {
    if n == 0 then Some(Start)
    else
      match ScanIn(a, n - 1)
      case None => None
      case Some(st) => Step(st, a[n - 1])
  }

  /** The scanner's state after `n` symbols, as the declarative description
      predicts it. */
  function ExpectedIn(a: Symbols, n: nat): ScanState
    requires n <= |a|
  {
    var f := FirstCharIn(a, n);
    var tags := TagsIn(a, f, n);
    ScanState(a[..f], f < n, Concat(CharsIn(a, n)), |tags| > 0, tags)
  }

  /** Once the loop has thrown, no later symbol can undo it. */
  lemma {:induction false} ThrowIsFinal(a: Symbols, n: nat, m: nat)
    requires n <= m <= |a|
    requires ScanIn(a, n) == None
    ensures ScanIn(a, m) == None
    decreases m - n
  {
    if n < m {
      ThrowIsFinal(a, n + 1, m);
    }
  }

  /** `FirstCharIn` finds the first character: everything before it is a tag. */
  lemma {:induction false} FirstCharMeaning(a: Symbols, n: nat)
    requires n <= |a|
    ensures forall k :: 0 <= k < FirstCharIn(a, n) ==> IsTag(a[k])
    ensures FirstCharIn(a, n) < n ==> IsChar(a[FirstCharIn(a, n)])
  {
    if n > 0 {
      FirstCharMeaning(a, n - 1);
    }
  }

  /** A nonempty tag filter has a witness. */
  lemma {:induction false} TagWitness(a: Symbols, lo: nat, n: nat) returns (j: nat)
    requires lo <= n <= |a| && |TagsIn(a, lo, n)| > 0
    ensures lo <= j < n && IsTag(a[j])
    decreases n
  {
    if IsTag(a[n - 1]) {
      j := n - 1;
    } else {
      j := TagWitness(a, lo, n - 1);
    }
  }

  /** An empty tag filter means every symbol in the range is a character. */
  lemma {:induction false} NoTagsIn(a: Symbols, lo: nat, n: nat)
    requires lo <= n <= |a| && |TagsIn(a, lo, n)| == 0
    ensures forall j :: lo <= j < n ==> IsChar(a[j])
    decreases n
  {
    if n > lo {
      NoTagsIn(a, lo, n - 1);
    }
  }

  /** Before the first character there is no character to collect. */
  lemma {:induction false} NoCharsBeforeFirst(a: Symbols, n: nat)
    requires n <= |a| && FirstCharIn(a, n) == n
    ensures CharsIn(a, n) == []
  {
    if n > 0 {
      NoCharsBeforeFirst(a, n - 1);
    }
  }

  /** One more symbol: the predicted state moves exactly as `Step` moves the
      loop variables, and `Step` throws exactly when the shape breaks. */
  lemma StepMeaning(a: Symbols, n: nat)
    requires n < |a| && ShapeOkIn(a, n)
    requires ScanIn(a, n) == Some(ExpectedIn(a, n))
    ensures ScanIn(a, n + 1).Some? <==> ShapeOkIn(a, n + 1)
    ensures ScanIn(a, n + 1).Some? ==> ScanIn(a, n + 1).value == ExpectedIn(a, n + 1)
  {
    assert ScanIn(a, n + 1) == Step(ExpectedIn(a, n), a[n]);
    if IsChar(a[n]) {
      CharStep(a, n);
    } else if FirstCharIn(a, n) == n {
      LeadingTagStep(a, n);
    } else {
      TrailingTagStep(a, n);
    }
  }

  /** A character extends the lemma, unless a suffix tag came before it. */
  lemma CharStep(a: Symbols, n: nat)
    requires n < |a| && IsChar(a[n])
    ensures Step(ExpectedIn(a, n), a[n]).Some? <==> |TagsIn(a, FirstCharIn(a, n), n)| == 0
    ensures Step(ExpectedIn(a, n), a[n]).Some? ==> Step(ExpectedIn(a, n), a[n]).value == ExpectedIn(a, n + 1)
  {
    var x := a[n];
    var f := FirstCharIn(a, n);
    assert CharsIn(a, n + 1) == CharsIn(a, n) + [x];
    ConcatPush(CharsIn(a, n), x);
    if |TagsIn(a, f, n)| == 0 {
      if f == n {
        assert FirstCharIn(a, n + 1) == n;
        assert TagsIn(a, n, n + 1) == [];
      } else {
        assert FirstCharIn(a, n + 1) == f;
        assert TagsIn(a, f, n + 1) == TagsIn(a, f, n) == [];
      }
    }
  }

  /** A tag before any character joins the prefixes. */
  lemma LeadingTagStep(a: Symbols, n: nat)
    requires n < |a| && IsTag(a[n]) && FirstCharIn(a, n) == n
    ensures Step(ExpectedIn(a, n), a[n]) == Some(ExpectedIn(a, n + 1))
  {
    assert CharsIn(a, n + 1) == CharsIn(a, n);
    assert a[..n + 1] == a[..n] + [a[n]];
    assert FirstCharIn(a, n + 1) == n + 1;
  }

  /** A tag after a character joins the suffixes. */
  lemma TrailingTagStep(a: Symbols, n: nat)
    requires n < |a| && IsTag(a[n]) && FirstCharIn(a, n) < n
    ensures Step(ExpectedIn(a, n), a[n]) == Some(ExpectedIn(a, n + 1))
  {
    var f := FirstCharIn(a, n);
    assert CharsIn(a, n + 1) == CharsIn(a, n);
    assert FirstCharIn(a, n + 1) == f;
    assert TagsIn(a, f, n + 1) == TagsIn(a, f, n) + [a[n]];
  }

  /** The scanner throws exactly when the shape breaks, and otherwise ends in
      the state the declarative description predicts. */
  lemma {:induction false} ScanMeaning(a: Symbols, n: nat)
    requires n <= |a|
    ensures ScanIn(a, n).Some? <==> ShapeOkIn(a, n)
    ensures ScanIn(a, n).Some? ==> ScanIn(a, n).value == ExpectedIn(a, n)
  {
    if n > 0 {
      ScanMeaning(a, n - 1);
      if ShapeOkIn(a, n - 1) {
        StepMeaning(a, n - 1);
      }
    } else {
      assert a[..0] == [];
    }
  }

  /** Once the symbols read so far are ill shaped, no further symbol repairs them. */
  lemma IllShapedGrows(a: Symbols, n: nat)
    requires n < |a| && !WellShapedIn(a, n)
    ensures !WellShapedIn(a, n + 1)
  {
  }

  /** A character after a suffix tag breaks the shape. */
  lemma CharAfterSuffixBreaks(a: Symbols, n: nat)
    requires n < |a| && IsChar(a[n]) && |TagsIn(a, FirstCharIn(a, n), n)| > 0
    ensures !WellShapedIn(a, n + 1)
  {
    var f := FirstCharIn(a, n);
    var j := TagWitness(a, f, n);
    FirstCharMeaning(a, n);
    assert IsChar(a[f]) && IsTag(a[j]) && IsChar(a[n]);
  }

  /** Any other symbol keeps a well-shaped prefix well shaped. */
  lemma OtherSymbolKeepsShape(a: Symbols, n: nat)
    requires n < |a| && WellShapedIn(a, n)
    requires !(IsChar(a[n]) && |TagsIn(a, FirstCharIn(a, n), n)| > 0)
    ensures WellShapedIn(a, n + 1)
  {
    if IsChar(a[n]) {
      var f := FirstCharIn(a, n);
      FirstCharMeaning(a, n);
      NoTagsIn(a, f, n);
      assert forall k :: f <= k < n + 1 ==> IsChar(a[k]);
    }
  }

  /** The symbol-by-symbol check agrees with the declarative shape. */
  lemma {:induction false} ShapeOkMeaning(a: Symbols, n: nat)
    requires n <= |a|
    ensures ShapeOkIn(a, n) <==> WellShapedIn(a, n)
  {
    if n > 0 {
      ShapeOkMeaning(a, n - 1);
      var broken := IsChar(a[n - 1]) && |TagsIn(a, FirstCharIn(a, n - 1), n - 1)| > 0;
      assert ShapeOkIn(a, n) == (ShapeOkIn(a, n - 1) && !broken);
      if !ShapeOkIn(a, n - 1) {
        IllShapedGrows(a, n - 1);
        assert !ShapeOkIn(a, n) && !WellShapedIn(a, n);
      } else if broken {
        CharAfterSuffixBreaks(a, n - 1);
        assert !ShapeOkIn(a, n) && !WellShapedIn(a, n);
      } else {
        OtherSymbolKeepsShape(a, n - 1);
        assert ShapeOkIn(a, n) && WellShapedIn(a, n);
      }
    }
  }

  /** The predicted prefixes, characters and suffixes of `a[..n]`, glued. */
  function GlueIn(a: Symbols, n: nat): string
    requires n <= |a|
  {
    var f := FirstCharIn(a, n);
    Concat(a[..f]) + Concat(CharsIn(a, n)) + Concat(TagsIn(a, f, n))
  }

  lemma GlueCharStep(a: Symbols, m: nat)
    requires m < |a| && IsChar(a[m]) && |TagsIn(a, FirstCharIn(a, m), m)| == 0
    ensures GlueIn(a, m + 1) == GlueIn(a, m) + a[m]
  {
    var x := a[m];
    var f := FirstCharIn(a, m);
    var cs := CharsIn(a, m);
    assert CharsIn(a, m + 1) == cs + [x];
    ConcatPush(cs, x);
    if f == m {
      assert FirstCharIn(a, m + 1) == m;
      assert TagsIn(a, m, m + 1) == [];
    } else {
      assert FirstCharIn(a, m + 1) == f;
      assert TagsIn(a, f, m + 1) == TagsIn(a, f, m) == [];
    }
    assert Concat(TagsIn(a, FirstCharIn(a, m + 1), m + 1)) == "";
    assert Concat(TagsIn(a, f, m)) == "";
  }

  lemma GlueLeadingTagStep(a: Symbols, m: nat)
    requires m < |a| && IsTag(a[m]) && FirstCharIn(a, m) == m
    ensures GlueIn(a, m + 1) == GlueIn(a, m) + a[m]
  {
    var x := a[m];
    NoCharsBeforeFirst(a, m);
    assert FirstCharIn(a, m + 1) == m + 1;
    assert CharsIn(a, m + 1) == [];
    assert a[..m + 1] == a[..m] + [x];
    ConcatPush(a[..m], x);
  }

  lemma GlueTrailingTagStep(a: Symbols, m: nat)
    requires m < |a| && IsTag(a[m]) && FirstCharIn(a, m) < m
    ensures GlueIn(a, m + 1) == GlueIn(a, m) + a[m]
  {
    var x := a[m];
    var f := FirstCharIn(a, m);
    assert FirstCharIn(a, m + 1) == f;
    assert CharsIn(a, m + 1) == CharsIn(a, m);
    assert TagsIn(a, f, m + 1) == TagsIn(a, f, m) + [x];
    ConcatPush(TagsIn(a, f, m), x);
  }

  /** Nothing is lost or reordered: on a well-shaped prefix, the predicted
      prefixes, characters and suffixes glue back to the symbols read. */
  lemma {:induction false} GlueKeepsText(a: Symbols, n: nat)
    requires n <= |a| && ShapeOkIn(a, n)
    ensures GlueIn(a, n) == Concat(a[..n])
  {
    if n == 0 {
      assert a[..0] == [];
    } else {
      var m := n - 1;
      GlueKeepsText(a, m);
      assert a[..n] == a[..m] + [a[m]];
      ConcatPush(a[..m], a[m]);
      if IsChar(a[m]) {
        GlueCharStep(a, m);
      } else if FirstCharIn(a, m) == m {
        GlueLeadingTagStep(a, m);
      } else {
        GlueTrailingTagStep(a, m);
      }
    }
  }

  // ---------------------------------------------------------------------
  // The two entry points.
  // ---------------------------------------------------------------------

  /** One analysis through the loop of node/index.ts: it fails exactly on
      ill-shaped analyses and otherwise returns the maximal leading tag run,
      the concatenated characters and the tags after the first character. */
  function Segment(a: Symbols): (r: Result<Analysis, SegmentError>)
    ensures r.Ok? <==> WellShaped(a)
    ensures r.Ok? ==> r.value == Expected(a)
    ensures r.Err? ==> r.error == UnableToParse(ErrorMessage(a))
  {
    ScanMeaning(a, |a|);
    ShapeOkMeaning(a, |a|);
    match ScanIn(a, |a|)
    case None => Err(UnableToParse(ErrorMessage(a)))
    case Some(st) => Ok(Analysis(st.before, st.lemmaText, st.after))
  }

  /** `lookup`: one flat string per analysis, in the same order. */
  function Lookup(analyses: seq<Symbols>): (r: seq<string>)
    ensures |r| == |analyses|
    ensures forall i :: 0 <= i < |analyses| ==> r[i] == Concat(analyses[i])
  {
    if |analyses| == 0 then []
    else [Concat(analyses[0])] + Lookup(analyses[1..])
  }

  /** `i` is the first analysis that is not well shaped. */
  ghost predicate FirstFailure(analyses: seq<Symbols>, i: int) {
    && 0 <= i < |analyses|
    && !WellShaped(analyses[i])
    && (forall k :: 0 <= k < i ==> WellShaped(analyses[k]))
  }

  /** `lookup_lemma_with_affixes`: one triple per analysis, in order, or the
      error of the first analysis that cannot be segmented. */
  function LookupLemmaWithAffixes(analyses: seq<Symbols>): (r: Result<seq<Analysis>, SegmentError>)
    ensures r.Ok? <==> forall i :: 0 <= i < |analyses| ==> WellShaped(analyses[i])
    ensures r.Ok? ==> |r.value| == |analyses|
    ensures r.Ok? ==> forall i :: 0 <= i < |analyses| ==> r.value[i] == Expected(analyses[i])
    ensures r.Err? ==> exists i :: FirstFailure(analyses, i) && r.error == UnableToParse(ErrorMessage(analyses[i]))
  {
    if |analyses| == 0 then Ok([])
    else
      match Segment(analyses[0])
      case Err(e) => Err(e)
      case Ok(x) =>
        match LookupLemmaWithAffixes(analyses[1..])
        case Err(e) =>
          assert exists i :: FirstFailure(analyses, i) && e == UnableToParse(ErrorMessage(analyses[i])) by {
            var i :| FirstFailure(analyses[1..], i) && e == UnableToParse(ErrorMessage(analyses[1..][i]));
            assert FirstFailure(analyses, i + 1);
          }
          Err(e)
        case Ok(xs) => Ok([x] + xs)
  }

  // ---------------------------------------------------------------------
  // Properties relating the entry points.
  // ---------------------------------------------------------------------

  /** Round trip for one analysis: prefixes, lemma and suffixes glued back
      together give the flat string of the analysis. */
  lemma SegmentRoundTrip(a: Symbols)
    requires Segment(a).Ok?
    ensures Render(Segment(a).value) == Concat(a)
  {
    ScanMeaning(a, |a|);
    ShapeOkMeaning(a, |a|);
    GlueKeepsText(a, |a|);
    assert a[..|a|] == a;
  }

  /** Round trip for a whole lookup: whenever segmentation succeeds, each
      triple renders to the `lookup` string of the same analysis. */
  lemma {:induction false} LookupRoundTrip(analyses: seq<Symbols>)
    requires LookupLemmaWithAffixes(analyses).Ok?
    ensures forall i :: 0 <= i < |analyses| ==>
      Render(LookupLemmaWithAffixes(analyses).value[i]) == Lookup(analyses)[i]
  {
    forall i | 0 <= i < |analyses|
      ensures Render(LookupLemmaWithAffixes(analyses).value[i]) == Lookup(analyses)[i]
    {
      SegmentRoundTrip(analyses[i]);
    }
  }

  /** An analysis with no character symbol is all prefixes and an empty lemma. */
  lemma {:induction false} AllTags(a: Symbols, n: nat)
    requires n <= |a|
    requires forall k :: 0 <= k < n ==> IsTag(a[k])
    ensures ScanIn(a, n) == Some(ScanState(a[..n], false, "", false, []))
  {
    if n > 0 {
      AllTags(a, n - 1);
      assert a[..n] == a[..n - 1] + [a[n - 1]];
    } else {
      assert a[..0] == [];
    }
  }

  /** The example of node/test.js for "atim": no prefixes, the lemma spelled
      by the characters, the tags as suffixes. */
  lemma AtimExample()
    ensures Segment(["a", "t", "i", "m", "+N", "+A", "+Sg"]) == Ok(Analysis([], "atim", ["+N", "+A", "+Sg"]))
  {
    var a := ["a", "t", "i", "m", "+N", "+A", "+Sg"];
    assert "" + "a" == "a" && "a" + "t" == "at" && "at" + "i" == "ati" && "ati" + "m" == "atim";
    assert [] + ["+N"] == ["+N"] && ["+N"] + ["+A"] == ["+N", "+A"];
    assert ["+N", "+A"] + ["+Sg"] == ["+N", "+A", "+Sg"];
    assert ScanIn(a, 1) == Some(ScanState([], true, "a", false, []));
    assert ScanIn(a, 2) == Some(ScanState([], true, "at", false, []));
    assert ScanIn(a, 3) == Some(ScanState([], true, "ati", false, []));
    assert ScanIn(a, 4) == Some(ScanState([], true, "atim", false, []));
    assert ScanIn(a, 5) == Some(ScanState([], true, "atim", true, ["+N"]));
    assert ScanIn(a, 6) == Some(ScanState([], true, "atim", true, ["+N", "+A"]));
    assert ScanIn(a, 7) == Some(ScanState([], true, "atim", true, ["+N", "+A", "+Sg"]));
  }
  /** The example of node/test.js for "kî-atimik", shortened to its first
      suffix: a leading preverb tag becomes a prefix. */
  lemma PreverbExample()
    ensures Segment(["PV/ki+", "a", "+V"]) == Ok(Analysis(["PV/ki+"], "a", ["+V"]))
  {
    var a := ["PV/ki+", "a", "+V"];
    assert [] + ["PV/ki+"] == ["PV/ki+"] && "" + "a" == "a" && [] + ["+V"] == ["+V"];
    assert ScanIn(a, 1) == Some(ScanState(["PV/ki+"], false, "", false, []));
    assert ScanIn(a, 2) == Some(ScanState(["PV/ki+"], true, "a", false, []));
    assert ScanIn(a, 3) == Some(ScanState(["PV/ki+"], true, "a", true, ["+V"]));
  }

  /** A character after a suffix tag cannot be placed: the call throws. */
  lemma CharAfterSuffixExample()
    ensures Segment(["a", "+N", "b"]).Err?
  {
    var a := ["a", "+N", "b"];
    assert "" + "a" == "a" && [] + ["+N"] == ["+N"];
    assert ScanIn(a, 2) == Some(ScanState([], true, "a", true, ["+N"]));
    assert ScanIn(a, 3) == None;
  }

}
