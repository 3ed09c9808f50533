/** `compute_new_versions` of python/release.py: from the development
    version in the repository, the version to release now and the
    development version to continue with. */
module Versions {
  import opened Outcome
  import opened Strings
  import opened PyInt

  /** The bare `Exception` for a version without the development suffix,
      and the ValueError `int()` raises on a component that is not an
      integer literal (its `repr`-quoted message is not modelled). */
  datatype VersionError =
    | NotDevVersion(message: string)
    | InvalidLiteral(piece: string)

  const DevSuffix := ".dev0"

  /** `s.removesuffix(suffix)` for a nonempty suffix. */
  function RemoveSuffix(s: string, suffix: string): (r: string)
    requires |suffix| > 0
    ensures IsSuffix(suffix, s) ==> r + suffix == s
    ensures !IsSuffix(suffix, s) ==> r == s
    ensures r == s <==> !IsSuffix(suffix, s)
  {
    if IsSuffix(suffix, s) then
      assert s == s[..|s| - |suffix|] + s[|s| - |suffix|..];
      s[..|s| - |suffix|]
    else s
  }

  /** `list(map(int, pieces))`: the first piece `int()` rejects raises. */
  function ParseAll(pieces: seq<string>): (r: Result<seq<int>, VersionError>)
    ensures r.Ok? ==> |r.value| == |pieces|
    ensures r.Err? ==> r.error.InvalidLiteral?
  {
    if |pieces| == 0 then Ok([])
    else
      match ParseInt(pieces[0])
      case None => Err(InvalidLiteral(pieces[0]))
      case Some(v) =>
        match ParseAll(pieces[1..])
        case Err(e) => Err(e)
        case Ok(vs) => Ok([v] + vs)
  }

  /** `ParseAll` succeeds exactly when every piece is an integer literal,
      with each piece's value in its place; otherwise it reports the first
      piece that is not. */
  lemma {:induction false} ParseAllMeaning(pieces: seq<string>)
    ensures ParseAll(pieces).Ok? <==> forall k :: 0 <= k < |pieces| ==> ParseInt(pieces[k]).Some?
    ensures ParseAll(pieces).Ok? ==> forall k :: 0 <= k < |pieces| ==> ParseInt(pieces[k]) == Some(ParseAll(pieces).value[k])
    ensures ParseAll(pieces).Err? ==> exists k :: FirstInvalid(pieces, k) && ParseAll(pieces).error == InvalidLiteral(pieces[k])
  {
    if |pieces| > 0 {
      var tail := pieces[1..];
      ParseAllMeaning(tail);
      assert forall k :: 1 <= k < |pieces| ==> pieces[k] == tail[k - 1];
      if ParseInt(pieces[0]).Some? && ParseAll(tail).Err? {
        var k :| FirstInvalid(tail, k) && ParseAll(tail).error == InvalidLiteral(tail[k]);
        assert FirstInvalid(pieces, k + 1);
      } else if ParseInt(pieces[0]).None? {
        assert FirstInvalid(pieces, 0);
      }
    }
  }

  /** `k` is the first piece `int()` rejects. */
  ghost predicate FirstInvalid(pieces: seq<string>, k: int) {
    && 0 <= k < |pieces|
    && ParseInt(pieces[k]).None?
    && (forall j :: 0 <= j < k ==> ParseInt(pieces[j]).Some?)
  }

  /** `map(str, ns)`. */
  function ShowAll(ns: seq<int>): (r: seq<string>)
    ensures |r| == |ns|
    ensures forall k :: 0 <= k < |ns| ==> r[k] == IntToStr(ns[k])
  {
    seq(|ns|, k requires 0 <= k < |ns| => IntToStr(ns[k]))
  }

  /** The components with the last one incremented. */
  function Bump(ns: seq<int>): (r: seq<int>)
    requires |ns| > 0
    ensures |r| == |ns|
    ensures r[..|ns| - 1] == ns[..|ns| - 1]
    ensures r[|ns| - 1] == ns[|ns| - 1] + 1
  {
    ns[..|ns| - 1] + [ns[|ns| - 1] + 1]
  }

  /** `compute_new_versions`: `(release_version, next_dev_version)`. */
  function ComputeNewVersions(current: string): (r: Result<(string, string), VersionError>)
    ensures r.Err? && r.error.NotDevVersion? <==> !IsSuffix(DevSuffix, current)
    ensures r.Err? && r.error.NotDevVersion? ==> r.error.message == current + " is not a dev version"
    ensures r.Ok? ==> r.value.0 + DevSuffix == current
    ensures r.Ok? ==> IsSuffix(DevSuffix, r.value.1)
    ensures r.Ok? <==> IsSuffix(DevSuffix, current) && ParseAll(Split(RemoveSuffix(current, DevSuffix), '.')).Ok?
  {
    var release := RemoveSuffix(current, DevSuffix);
    if release == current then Err(NotDevVersion(current + " is not a dev version"))
    else
      match ParseAll(Split(release, '.'))
      case Err(e) => Err(e)
      case Ok(ns) =>
        var next := Join(ShowAll(Bump(ns)), ".") + DevSuffix;
        assert next[|next| - |DevSuffix|..] == DevSuffix;
        Ok((release, next))
  }

  /** A version written the way `compute_new_versions` writes versions:
      the components in decimal, joined by dots. */
  function Show(ns: seq<int>): string {
    Join(ShowAll(ns), ".")
  }

  /** Splitting a canonical version at the dots gives its components back. */
  lemma ShowSplits(ns: seq<int>)
    requires |ns| > 0
    ensures Split(Show(ns), '.') == ShowAll(ns)
  {
    var shown := ShowAll(ns);
    forall k | 0 <= k < |shown|
      ensures '.' !in shown[k]
    {
      assert shown[k] == IntToStr(ns[k]);
    }
    assert "." == ['.'];
    SplitJoin(shown, '.');
  }

  /** `map(int, map(str, ns))` is `ns`. */
  lemma {:induction false} ShowThenParse(ns: seq<int>)
    ensures ParseAll(ShowAll(ns)) == Ok(ns)
  {
    if |ns| > 0 {
      var shown := ShowAll(ns);
      ParseIntToStr(ns[0]);
      ShowAllTail(ns);
      ShowThenParse(ns[1..]);
      ParseAllCons(shown, ns[0], ns[1..]);
      assert [ns[0]] + ns[1..] == ns;
    }
  }

  lemma ShowAllTail(ns: seq<int>)
    requires |ns| > 0
    ensures ShowAll(ns)[1..] == ShowAll(ns[1..])
  {
  }

  lemma ParseAllCons(pieces: seq<string>, v: int, vs: seq<int>)
    requires |pieces| > 0 && ParseInt(pieces[0]) == Some(v)
    requires ParseAll(pieces[1..]) == Ok(vs)
    ensures ParseAll(pieces) == Ok([v] + vs)
  {
  }

  /** Every development version in canonical form is accepted: the release
      is the version without the suffix, and the next development version
      is the bumped components in canonical form. */
  lemma CanonicalVersion(ns: seq<int>)
    requires |ns| > 0
    ensures ComputeNewVersions(Show(ns) + DevSuffix) == Ok((Show(ns), Show(Bump(ns)) + DevSuffix))
  {
    var current := Show(ns) + DevSuffix;
    assert current[|current| - |DevSuffix|..] == DevSuffix;
    assert RemoveSuffix(current, DevSuffix) == Show(ns);
    ShowSplits(ns);
    ShowThenParse(ns);
  }

  /** Reading the next development version back: it has as many components
      as the release, the same integers in all but the last place, and the
      last one larger by one. */
  lemma NextVersionReadsBack(current: string)
    requires ComputeNewVersions(current).Ok?
    ensures var r := ComputeNewVersions(current).value;
      var ns := ParseAll(Split(r.0, '.')).value;
      && |ns| > 0
      && r.1 == Show(Bump(ns)) + DevSuffix
      && ParseAll(Split(RemoveSuffix(r.1, DevSuffix), '.')) == Ok(Bump(ns))
  {
    var r := ComputeNewVersions(current).value;
    var release := RemoveSuffix(current, DevSuffix);
    assert release == r.0;
    var ns := ParseAll(Split(release, '.')).value;
    assert r.1 == Join(ShowAll(Bump(ns)), ".") + DevSuffix;
    var shown := Show(Bump(ns));
    assert (shown + DevSuffix)[|shown|..] == DevSuffix;
    assert RemoveSuffix(r.1, DevSuffix) == shown;
    ShowSplits(Bump(ns));
    ShowThenParse(Bump(ns));
  }

  /** The next development version is itself a development version whose
      release is the bumped version, so releases can follow one another. */
  lemma NextVersionChains(current: string)
    requires ComputeNewVersions(current).Ok?
    ensures var next := ComputeNewVersions(current).value.1;
      && ComputeNewVersions(next).Ok?
      && ComputeNewVersions(next).value.0 + DevSuffix == next
  {
    NextVersionReadsBack(current);
  }

  /** An example follows from `CanonicalVersion` once its strings are
      seen to be canonical. */
  lemma CanonicalExample(ns: seq<int>, current: string, release: string, bumped: string, next: string)
    requires |ns| > 0
    requires Show(ns) == release && current == release + DevSuffix
    requires Show(Bump(ns)) == bumped && next == bumped + DevSuffix
    ensures ComputeNewVersions(current) == Ok((release, next))
  {
    CanonicalVersion(ns);
  }

  /** The examples of test_release.py. */
  lemma BasicExample(current: string)
    requires current == "0.0.1.dev0"
    ensures ComputeNewVersions(current) == Ok(("0.0.1", "0.0.2.dev0"))
  {
    BasicStrings();
    CanonicalExample([0, 0, 1], current, "0.0.1", "0.0.2", "0.0.2.dev0");
  }

  lemma BasicStrings()
    ensures Show([0, 0, 1]) == "0.0.1"
    ensures Show(Bump([0, 0, 1])) == "0.0.2"
    ensures "0.0.1" + DevSuffix == "0.0.1.dev0"
    ensures "0.0.2" + DevSuffix == "0.0.2.dev0"
  {
    ShowDigits(0, 0, 1);
    ShowDigits(0, 0, 2);
    assert Bump([0, 0, 1]) == [0, 0, 2];
  }

  lemma ComplicatedExample(current: string)
    requires current == "0.2.9.dev0"
    ensures ComputeNewVersions(current) == Ok(("0.2.9", "0.2.10.dev0"))
  {
    ComplicatedStrings();
    CanonicalExample([0, 2, 9], current, "0.2.9", "0.2.10", "0.2.10.dev0");
  }

  lemma ComplicatedStrings()
    ensures Show([0, 2, 9]) == "0.2.9"
    ensures Show(Bump([0, 2, 9])) == "0.2.10"
    ensures "0.2.9" + DevSuffix == "0.2.9.dev0"
    ensures "0.2.10" + DevSuffix == "0.2.10.dev0"
  {
    ShowDigits(0, 2, 9);
    assert Bump([0, 2, 9]) == [0, 2, 10];
    assert NatToStr(10) == "10" by {
      assert NatToStr(1) == "1";
    }
    assert ShowAll([0, 2, 10]) == ["0", "2", "10"];
    JoinThree("0", "2", "10");
  }

  /** Any number of components is accepted: a version with two of them
      is released as it stands. */
  lemma TwoComponentExample(current: string)
    requires current == "1.2.dev0"
    ensures ComputeNewVersions(current) == Ok(("1.2", "1.3.dev0"))
  {
    TwoComponentStrings();
    CanonicalExample([1, 2], current, "1.2", "1.3", "1.3.dev0");
  }

  lemma TwoComponentStrings()
    ensures Show([1, 2]) == "1.2"
    ensures Show(Bump([1, 2])) == "1.3"
    ensures "1.2" + DevSuffix == "1.2.dev0"
    ensures "1.3" + DevSuffix == "1.3.dev0"
  {
    assert Bump([1, 2]) == [1, 3];
    assert ShowAll([1, 2]) == [[DigitChar(1)], [DigitChar(2)]];
    assert ShowAll([1, 3]) == [[DigitChar(1)], [DigitChar(3)]];
    JoinAppend([[DigitChar(1)]], [DigitChar(2)], ".");
    assert [[DigitChar(1)]] + [[DigitChar(2)]] == [[DigitChar(1)], [DigitChar(2)]];
    JoinAppend([[DigitChar(1)]], [DigitChar(3)], ".");
    assert [[DigitChar(1)]] + [[DigitChar(3)]] == [[DigitChar(1)], [DigitChar(3)]];
  }

  lemma ErrorExample()
    ensures ComputeNewVersions("0.2.9") == Err(NotDevVersion("0.2.9 is not a dev version"))
  {
    assert "0.2.9"[0..] == "0.2.9";
    assert !IsSuffix(DevSuffix, "0.2.9");
    assert "0.2.9" + " is not a dev version" == "0.2.9 is not a dev version";
  }

  /** Three one-digit components in canonical form. */
  lemma ShowDigits(a: nat, b: nat, c: nat)
    requires a < 10 && b < 10 && c < 10
    ensures Show([a, b, c]) == [DigitChar(a), '.', DigitChar(b), '.', DigitChar(c)]
  {
    assert ShowAll([a, b, c]) == [[DigitChar(a)], [DigitChar(b)], [DigitChar(c)]];
    JoinThree([DigitChar(a)], [DigitChar(b)], [DigitChar(c)]);
  }

  lemma JoinThree(a: string, b: string, c: string)
    ensures Join([a, b, c], ".") == a + "." + b + "." + c
  {
    JoinAppend([a], b, ".");
    assert [a] + [b] == [a, b];
    JoinAppend([a, b], c, ".");
    assert [a, b] + [c] == [a, b, c];
  }
}
