/** The build decision of setup.py: compile the Cython source when it is
    newer than the generated C++ file (or that file is missing), and the
    shipped C++ file otherwise. A file's state is its modification time,
    or `None` when it does not exist. */
module SetupBuild {
  import opened Outcome
  import opened Strings

  /** What `stat` would say about a file: `None` when it does not exist. */
  type Mtime = Option<int>

  /** `file1_is_newer_than_file2`, like `file1 -nt file2` in bash: a missing
      second file makes the first one newer, a missing first file (with
      the second present) does not, and otherwise the times decide. */
  function FileIsNewer(file1: Mtime, file2: Mtime): (r: bool)
    ensures file2.None? ==> r
    ensures file2.Some? && file1.None? ==> !r
    ensures file1.Some? && file2.Some? ==> (r <==> file1.value > file2.value)
  {
    if file2.None? then true
    else if file1.None? then false
    else file1.value > file2.value
  }

  /** An existing file is never newer than itself ... */
  lemma NewerIrreflexive(m: Mtime)
    requires m.Some?
    ensures !FileIsNewer(m, m)
  {
  }

  /** ... while a missing file is, since the check only asks whether the
      second file exists. */
  lemma MissingNewerThanItself()
    ensures FileIsNewer(None, None)
  {
  }

  /** Between existing files the relation is a strict order. */
  lemma NewerAsymmetric(a: Mtime, b: Mtime)
    requires a.Some? && b.Some?
    ensures FileIsNewer(a, b) ==> !FileIsNewer(b, a)
  {
  }

  lemma NewerTransitive(a: Mtime, b: Mtime, c: Mtime)
    requires b.Some?
    requires FileIsNewer(a, b) && FileIsNewer(b, c)
    ensures FileIsNewer(a, c)
  {
  }

  /** Exactly one of two existing files with different times is newer. */
  lemma NewerTotal(a: Mtime, b: Mtime)
    requires a.Some? && b.Some? && a.value != b.value
    ensures FileIsNewer(a, b) != FileIsNewer(b, a)
  {
  }

  const CythonSourceStem := "hfst_optimized_lookup/_hfst_optimized_lookup"
  const EngineSource := "hfst_optimized_lookup/hfst-optimized-lookup.cc"

  /** The extension's sources and whether `cythonize` runs over them. */
  datatype BuildPlan = BuildPlan(sources: seq<string>, cythonize: bool)

  /** setup.py lines 38-56, given the state of the `.pyx` and `.cpp` files. */
  function Plan(pyx: Mtime, cpp: Mtime): (plan: BuildPlan)
    ensures |plan.sources| == 2
    ensures plan.sources[1] == EngineSource
    ensures plan.cythonize <==> IsSuffix(".pyx", plan.sources[0])
    ensures plan.cythonize <==> !IsSuffix(".cpp", plan.sources[0])
    ensures IsPrefix(CythonSourceStem, plan.sources[0])
    ensures |plan.sources[0]| == |CythonSourceStem| + 4
  {
    var useCython := FileIsNewer(pyx, cpp);
    var ext := if useCython then ".pyx" else ".cpp";
    var first := CythonSourceStem + ext;
    assert first[..|CythonSourceStem|] == CythonSourceStem;
    assert first[|first| - 4..] == ext;
    BuildPlan([first, EngineSource], useCython)
  }

  /** A checkout without the generated file runs Cython. */
  lemma FreshCheckoutCythonizes(pyx: Mtime)
    ensures Plan(pyx, None).cythonize
  {
  }

  /** An installation from a source archive that ships only the generated
      file compiles it directly. */
  lemma ArchiveCompilesGenerated(cpp: Mtime)
    requires cpp.Some?
    ensures !Plan(None, cpp).cythonize
  {
  }

  /** With both files present, Cython runs exactly when the `.pyx` file was
      changed after the `.cpp` file was generated. */
  lemma StaleGeneratedFile(pyx: Mtime, cpp: Mtime)
    requires pyx.Some? && cpp.Some?
    ensures Plan(pyx, cpp).cythonize <==> pyx.value > cpp.value
  {
  }
}
