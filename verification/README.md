# hfst-optimized-lookup wrappers, modelled in Dafny

hfst-optimized-lookup wraps a finite-state transducer lookup engine for
JavaScript (node/index.ts, and the older hfstol/index.js) and Python. This
project models the plain logic that surrounds the engine, together with the
repository's release and build tooling, and proves what that logic promises.

- **Segmentation** (node/index.ts). The engine hands back, for one word, a
  list of analyses, and each analysis is a list of output symbols.
  - `lookup` glues every analysis into one string.
  - `lookup_lemma_with_affixes` splits every analysis into three parts. The
    prefixes are the leading tags. The lemma is spelled by the one-character
    symbols. The suffixes are the tags that come after the first character.
  - An analysis in which a character follows a suffix tag makes the call
    throw.
  - The model states the split declaratively. The loop is proved to compute
    exactly that split, and to throw exactly on ill-shaped analyses.
  - The split glues back to the `lookup` string.
- **LegacyLookup** (hfstol/index.js). The same two loops, written as Dafny
  methods with loop invariants. They are proved to agree with the node
  wrapper on every input. The one difference is what they throw: the older
  file calls an undefined global `Exception`. So when it meets an analysis
  it cannot split, what escapes is the engine's ReferenceError
  ("Exception is not defined"), not the intended message.
- **PyInt** and **Versions** (python/release.py, `compute_new_versions`).
  - Python's `int()` on strings is modelled: the whitespace it skips around
    the literal, a sign, and underscores between digits. That whitespace is
    not quite what `str.strip()` removes: the ASCII information separators
    U+001C to U+001F are whitespace to `strip()`, but `int()` rejects them.
    `str()` on integers is modelled too.
  - Given the development version, the model computes the release version
    (the version with one `.dev0` removed) and the next development version
    (the last component plus one, with `.dev0` appended).
  - Both error cases are included.
  - The next version is proved to read back as the bumped components.
- **Changelog** (python/release.py, class `Changelog`).
  - `RE_HEADER` and `RE_HEADER_UNRELEASED` are modelled as recognisers.
  - `_parse`, the `re.split` at headers that start a line, is modelled as a
    scanner over line starts. It is proved to keep its documented promise:
    the pieces glue back to the text, and body text and headers alternate.
  - `add_unreleased_section` and `prepare_release` are modelled as edits of
    the piece list, with all of their errors. `_rewrite` is the pieces glued
    together.
  - The proofs cover what each edit changes and what it leaves alone.
  - They also cover that a freshly read file never reaches the IndexError
    hidden in `prepare_release`.
  - The release script calls `prepare_release` and then
    `add_unreleased_section` on the same object. The model proves what that
    sequence leaves behind.
  - `add_unreleased_section` is not idempotent on one object: the section it
    inserts does not count as a header until the file is read again.
- **LfsClient** (mini-lfs-client.py).
  - `url_concat` is modelled, along with the two batch URLs the client
    builds.
  - Pointer files are recognised by the exact first line. They are then
    read with the pointer pattern: its two unescaped dots match any
    character except a line break.
  - Reading a pointer and writing one out are proved inverse.
  - The size is read as `int()` reads it.
  - When its `assert` statements run, the downloaded object is accepted
    only with the right length and digest.
- **SetupBuild** (setup.py).
  - `file1_is_newer_than_file2` is modelled over optional modification
    times, where `None` means the file does not exist.
  - The choice between the `.pyx` and `.cpp` source follows from it, as
    does whether Cython runs.

`Outcome` holds `Option` and `Result`. `Strings` holds `join`, `split`,
`strip` and `startswith` with Python's and JavaScript's semantics;
`removesuffix` is in `Versions`, which is its only user.

## Model

| member | source | states |
|---|---|---|
| Segmentation.Segment | node/index.ts:52-78 | One analysis succeeds exactly when no character follows a suffix tag. The result is then the maximal run of leading tags, the characters concatenated, and the tags after the first character. Otherwise it is the `Error` naming the analysis. |
| Segmentation.Lookup | node/index.ts:30-40 | One string per analysis, in order, each the analysis's symbols joined with the empty string. |
| Segmentation.LookupLemmaWithAffixes | node/index.ts:49-81 | Succeeds exactly when every analysis is well shaped. It then gives one triple per analysis, in order. Otherwise it fails with the error of the first ill-shaped analysis. |
| Segmentation.ScanMeaning | node/index.ts:58-76 | After any number of symbols, the loop has thrown exactly when the shape is broken. Otherwise its five variables hold the predicted prefixes, the flag for whether a character was seen, the lemma, the flag for whether a suffix was seen, and the suffixes. |
| Segmentation.ShapeOkMeaning | node/index.ts:59-75 | The per-symbol check the loop performs agrees with the declarative shape: no character after a tag that follows a character. |
| Segmentation.ThrowIsFinal | node/index.ts:62-64 | Once the loop has thrown, no later symbol changes the outcome. |
| Segmentation.GlueKeepsText | node/index.ts:58-76 | Prefixes, lemma characters and suffixes together are the symbols read, with nothing lost or reordered. |
| Segmentation.SegmentRoundTrip | node/index.ts:36-78 | A segmented analysis glued back together is the `lookup` string of the same analysis. |
| Segmentation.LookupRoundTrip | node/index.ts:30-81 | When `lookup_lemma_with_affixes` succeeds, each triple glues back to the `lookup` string at the same position. |
| Segmentation.AllTags | node/index.ts:67-71 | An analysis of tags only yields all prefixes, an empty lemma and no suffixes. |
| Segmentation.AtimExample | node/test.js:45-50 | The "atim" analysis splits into no prefixes, lemma "atim" and suffixes +N +A +Sg. |
| Segmentation.PreverbExample | node/test.js:52-56 | A leading preverb tag becomes a prefix. |
| Segmentation.CharAfterSuffixExample | node/index.ts:62-64 | A character after a suffix tag makes the call throw. |
| LegacyLookup.JoinSymbols | hfstol/index.js:33 | `analysis.join("")` is the symbols concatenated in order. |
| LegacyLookup.Lookup | hfstol/index.js:26-36 | The older `lookup` returns exactly what the node `lookup` returns. |
| LegacyLookup.SegmentOne | hfstol/index.js:48-74 | The older inner loop succeeds on exactly the analyses the node loop accepts, with the same triple. Its failure is the ReferenceError for the undefined `Exception`. |
| LegacyLookup.LookupLemmaWithAffixes | hfstol/index.js:45-77 | The older `lookup_lemma_with_affixes` throws exactly when the node one throws, and otherwise returns the same triples. |
| PyInt.ParseIntToStr | python/release.py:278-281 | `int(str(n)) == n` for every integer, negative ones included (within Python's limit on digit count, see below). |
| PyInt.IntToStr | python/release.py:281 | `str(n)` is nonempty, starts with a minus sign exactly when `n` is negative, and is decimal digits after that. |
| PyInt.ParseIntShape | python/release.py:278 | An unsigned literal body reads as its digits' value. Any accepted text is nonempty once `int()`'s whitespace is removed, and ends in a digit. A negative value comes only from a leading minus. |
| PyInt.ParseIntIgnoresSpace | python/release.py:278 | Removing the whitespace `int()` itself skips (not the larger set `strip()` removes) before calling `int()` changes nothing. |
| PyInt.SeparatorRejected | python/release.py:278 | `int("\x1c5")` is a ValueError, although `strip()` turns the text into "5", which `int()` reads as 5. |
| PyInt.IdeographicSpaceSkipped | python/release.py:278 | `int()` skips non-ASCII whitespace such as U+3000 around the digits. |
| PyInt.NatToStrValue | python/release.py:281 | The decimal digits `str()` writes have the number's value. |
| PyInt.ParseIntExample | python/release.py:278 | `int()` ignores surrounding whitespace, accepts a plus sign and ignores an underscore between digits. |
| PyInt.DoubleUnderscoreRejected | python/release.py:278 | `int()` rejects two underscores in a row. |
| PyInt.BareSignRejected | python/release.py:278 | `int()` rejects a sign without digits. |
| Versions.RemoveSuffix | python/release.py:274 | `removesuffix` removes exactly one trailing suffix when present. The result differs from the input exactly when the suffix was there. |
| Versions.ComputeNewVersions | python/release.py:271-282 | Fails with "<version> is not a dev version" exactly when there is no `.dev0` suffix. Otherwise it succeeds exactly when every dot-separated component is an integer literal. The release version plus `.dev0` is the input, and the next version ends in `.dev0`. |
| Versions.ParseAll | python/release.py:278 | `list(map(int, pieces))` gives one value per piece, and its only error is a bad literal. |
| Versions.ParseAllMeaning | python/release.py:278 | `list(map(int, pieces))` succeeds exactly when every piece is an integer literal, each value in its piece's place. Otherwise the error names the first piece that is not. |
| Versions.Bump | python/release.py:279 | Same length, all components but the last unchanged, the last one larger by one. |
| Versions.ShowThenParse | python/release.py:278-281 | Writing components with `str` and reading them with `int` gives them back. |
| Versions.CanonicalVersion | python/release.py:271-282 | For any components, the canonical development version yields the canonical release version and the canonical bumped development version. |
| Versions.NextVersionReadsBack | python/release.py:278-281 | The next development version, read back, has the release's components with the last one incremented. |
| Versions.NextVersionChains | python/release.py:271-282 | The next development version is again accepted, so releases can follow one another. |
| Versions.BasicExample | test_release.py:12-13 | 0.0.1.dev0 gives 0.0.1 and 0.0.2.dev0. |
| Versions.ComplicatedExample | test_release.py:16-17 | 0.2.9.dev0 gives 0.2.9 and 0.2.10.dev0. |
| Versions.TwoComponentExample | python/release.py:271-282 | A two-component version is accepted: 1.2.dev0 gives 1.2 and 1.3.dev0. |
| Versions.ErrorExample | test_release.py:20-22 | 0.2.9 is rejected as not a dev version. |
| Changelog.IsHeaderMeaning | python/release.py:303-305 | A piece is a header exactly when it is "##", then a run of whitespace, then on one line either "Unreleased" or "v" and three dot-separated digit runs followed by anything. |
| Changelog.IsUnreleasedMeaning | python/release.py:306 | A piece is an Unreleased header exactly when it is "##", then a run of whitespace, then "Unreleased". |
| Changelog.HeaderEndPrefix | python/release.py:303-305 | Where the header pattern matches at a line start, the matched text is a full header on its own, and the match ends at a line end. |
| Changelog.HeaderShape | python/release.py:303-305 | A header starts with `#` and does not end with a line break. |
| Changelog.UnreleasedIsHeader | python/release.py:303-306 | Every text matching the Unreleased pattern also matches the header pattern. |
| Changelog.InsertedSectionIsNotHeader | python/release.py:313 | The inserted "## Unreleased" section with its blank line is not itself a header. |
| Changelog.ReleaseHeaderIsHeader | python/release.py:328 | The release header is a header whenever the version starts with three dot-separated numbers and neither the version nor the date breaks the line. |
| Changelog.ReleaseHeaderIsHeaderIff | python/release.py:328 | When neither version nor date breaks the line, the release header is a header exactly when the version starts with three dot-separated numbers. |
| Changelog.ReleaseHeaderNotUnreleased | python/release.py:328 | The release header never matches the Unreleased pattern. |
| Changelog.Parse | python/release.py:336-349 | The pieces glue back to the original text. There is an odd number of them, with headers at the odd places and non-headers at the even places. |
| Changelog.Open | python/release.py:294-301 | A changelog read from a text keeps its file name, its pieces glue back to the text, and they alternate. |
| Changelog.FindHeader | python/release.py:309-311 | Finds the first piece that is a header, or reports that no piece is one. |
| Changelog.FindUnreleased | python/release.py:322-323 | Finds the first piece that is an Unreleased header, or reports that no piece is one. |
| Changelog.AddUnreleasedSection | python/release.py:308-319 | Fails with the "could not find existing release header" error exactly when no piece is a header. Otherwise it applies the insertion at the first header. |
| Changelog.Inserted | python/release.py:311-314 | If the first header is an Unreleased header the pieces are unchanged. Otherwise the empty section goes in just before it, and every other piece keeps its content and order. |
| Changelog.AddUnreleasedText | python/release.py:308-319 | The rewritten text is the old text with the empty section spliced in where the first header began, or the old text when that header is already Unreleased. |
| Changelog.PrepareRelease | python/release.py:321-334 | Fails with the "could not find Unreleased placeholder" error exactly when no piece is an Unreleased header. On success, the first Unreleased header is replaced by the release header and nothing else changes. |
| Changelog.PrepareReleaseOutcome | python/release.py:324-328 | For the first Unreleased header: an IndexError exactly when it is the last piece, the "contents were empty" error exactly when the next piece is only whitespace, and the release otherwise. |
| Changelog.Released | python/release.py:328 | Piece `i` becomes the release header and every other piece is unchanged. |
| Changelog.ReleasedText | python/release.py:321-334 | The text `prepare_release` writes is the old text with the Unreleased header replaced by the release header, everything before and after it unchanged. |
| Changelog.OpenedNeverIndexError | python/release.py:324 | On a freshly read changelog, `prepare_release` never raises IndexError. |
| Changelog.ReleaseThenAdd | python/release.py:182-240 | When the release version starts with three dot-separated numbers, `add_unreleased_section` after `prepare_release` on the same object inserts a fresh empty section before the changelog's first header. |
| Changelog.ShortReleaseLeavesNoHeader | python/release.py:182-240 | When the release version does not start with three dot-separated numbers and the Unreleased header was the only header, `add_unreleased_section` after `prepare_release` fails with the "could not find existing release header" error. |
| Changelog.TwoComponentReleaseExample | python/release.py:182-240 | Releasing version 1.2 from a changelog whose only header is "## Unreleased" succeeds, and the following `add_unreleased_section` fails. |
| Changelog.AddTwice | python/release.py:308-319 | Two calls on one object insert two sections when the first header is not already Unreleased. |
| Changelog.AddExample | test_release.py:83-87 | On the pieces of the released changelog, the empty Unreleased section appears above the newest release. |
| Changelog.AddKeepsExistingExample | test_release.py:90-94 | An existing Unreleased header is left alone. |
| Changelog.PrepareExample | test_release.py:104-108 | A populated Unreleased section becomes "## v0.0.8 2021-01-06", and every other piece is unchanged. |
| Changelog.PrepareEmptyExample | test_release.py:111-115 | An Unreleased section with nothing but whitespace is rejected with the "contents were empty" error. |
| LfsClient.UrlConcat | mini-lfs-client.py:34-35 | No pieces give the empty URL; one piece gives that piece without its outer slashes. |
| LfsClient.UrlConcatAppend | mini-lfs-client.py:34-35 | Each further piece adds one slash and the piece without its outer slashes, in order. |
| LfsClient.UrlConcatSplits | mini-lfs-client.py:34-35 | Splitting the URL at slashes gives the stripped pieces back, when no piece has an inner slash. |
| LfsClient.InteriorSlashesKept | mini-lfs-client.py:35 | Stripping only touches the ends of a piece, so inner slashes survive. |
| LfsClient.CustomServerUrl | mini-lfs-client.py:118-120 | The custom server's batch URL is server/org/repo/objects/batch with outer slashes removed. |
| LfsClient.GitHubServerUrl | mini-lfs-client.py:110-116 | GitHub's batch URL ends in /info/lfs/objects/batch, with "info/lfs" kept whole. |
| LfsClient.ParsePointer | mini-lfs-client.py:93-103 | A successful parse captures a 64-character lower-case hex object id and a nonempty digit string. Any failure is "Unable to parse pointer file!". |
| LfsClient.ParseRender | mini-lfs-client.py:93-103 | Every valid pointer is read back from the file that holds it. |
| LfsClient.RenderParse | mini-lfs-client.py:79-103 | A text that starts with the exact version line and parses is the file of the pointer read from it. |
| LfsClient.PointerFiles | mini-lfs-client.py:79-103 | Among texts with the exact first line, the pattern accepts exactly the files of valid pointers. |
| LfsClient.SizeOf | mini-lfs-client.py:105 | The size is the value `int()` gives the captured digits. |
| LfsClient.SizeExample | mini-lfs-client.py:105 | Leading zeros in the size are accepted, as `int()` accepts them. |
| LfsClient.Classify | mini-lfs-client.py:79-105 | Content without the exact first line is kept verbatim. A pointer is accepted only when the content is exactly that pointer's file. Failure happens exactly when the first line is right and the pattern does not match. |
| LfsClient.Accept | mini-lfs-client.py:174-177 | The object is accepted exactly when its length is the pointer's size and its digest is the object id. A wrong length is reported as such. |
| SetupBuild.FileIsNewer | setup.py:18-29 | True whenever the second file is missing. False when only the first file is missing. With both files present, true exactly when the first file's time is strictly later. |
| SetupBuild.NewerIrreflexive | setup.py:29 | An existing file is never newer than itself. |
| SetupBuild.MissingNewerThanItself | setup.py:25-26 | A missing file counts as newer than itself. |
| SetupBuild.NewerAsymmetric | setup.py:29 | Of two existing files, at most one is newer than the other. |
| SetupBuild.NewerTransitive | setup.py:25-29 | Newer-than chains through an existing middle file. |
| SetupBuild.NewerTotal | setup.py:29 | Of two existing files with different times, exactly one is newer. |
| SetupBuild.Plan | setup.py:36-56 | Two sources: the stem with `.pyx` or `.cpp`, then the engine's `.cc` file. Cython runs exactly when the first source is the `.pyx` file. |
| SetupBuild.FreshCheckoutCythonizes | setup.py:25-26 | Without a generated `.cpp` file, Cython runs. |
| SetupBuild.ArchiveCompilesGenerated | setup.py:27-28 | With only the `.cpp` file present, it is compiled directly. |
| SetupBuild.StaleGeneratedFile | setup.py:29 | With both files present, Cython runs exactly when the `.pyx` file is strictly newer. |

## Left out

- The transducer engine (`lookup_symbols`, the FST file, the N-API and
  Cython bindings) is not part of this model. Its output for a word is the
  input of `Lookup` and `LookupLemmaWithAffixes`.
- The argument-count checks of `lookup` (node/index.ts:31-33,
  hfstol/index.js:27-29) are left out. They concern JavaScript calling
  conventions, not the data.
- Segmentation.IsChar: a symbol's length is counted in characters. JavaScript
  counts UTF-16 code units, so a symbol holding one character outside the
  Basic Multilingual Plane would be a tag there.
- Segmentation.Segment: the error message joins the symbols with commas, as
  the template string does. JavaScript's conversion of other values to text
  is not modelled.
- PyInt.ParseInt: `int()` also accepts decimal digits of other scripts; only
  ASCII digits are modelled. The ValueError's message is not modelled.
- PyInt.ParseInt: Python 3.11 and later raise ValueError when converting
  text of more than 4300 digits (the default of
  `sys.set_int_max_str_digits`). The model has no such limit, so its
  claims hold for literals within it.
- PyInt.ParseIntToStr: holds only within Python's 4300-digit limit; beyond
  it both `str(n)` and `int()` raise ValueError, which the model leaves
  out.
- PyInt.IntToStr: the same 4300-digit ValueError of `str(n)` is not
  modelled.
- Versions.ComputeNewVersions: the ValueError for a bad component is
  `InvalidLiteral` with the piece, without Python's message text.
- Changelog.ReleaseHeader: the date is taken as the text `str()` gives for
  it, "YYYY-MM-DD". The clock and time zone that produce it are outside the
  model.
- The file handle operations of `_parse` and `_rewrite` (seek, read, write,
  truncate, flush) are left out. The file's content is `Text`.
- Changelog.AddExample: the test examples start from the pieces the test
  texts split into. The split of those texts is not proved.
- That reading the rewritten text again gives back the same pieces is not
  proved. `Parse` covers the reading direction only.
- Changelog.ReleaseThenAdd: promised only when the release version starts
  with three dot-separated numbers. `compute_new_versions` accepts shorter
  versions such as 1.2.dev0. Their release header "## v1.2 …" is not a
  header, so a changelog whose only header was Unreleased then fails in
  `add_unreleased_section` (`ShortReleaseLeavesNoHeader`).
- LfsClient.Accept: the size and digest checks are `assert` statements
  (mini-lfs-client.py:174, 177). `python -O` removes them, and then any
  download is written. The model states what happens when they run.
- The rest of release.py's `main` is left out: argument parsing, the
  version file, git, building and uploading. Only the calls into
  `compute_new_versions`, `prepare_release` and `add_unreleased_section`
  are modelled.
- mini-lfs-client.py's HTTP requests are left out, along with the JSON
  batch-API checks (lines 135-151), the URL display and printing. The
  object's SHA-256 digest is a parameter, because the hash is computed by a
  library.
- LfsClient.Classify: response bodies are strings of characters below 256,
  one per byte. The pattern only matches ASCII, so decoding the body as
  text does not change whether it matches.
- SetupBuild.FileIsNewer: modification times are integers; `stat` gives
  floating-point times.
- The Cython and setuptools invocation of setup.py is left out, as is the
  README read at its end.
